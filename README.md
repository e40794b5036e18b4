# GitLite object codec, in Dafny

This project models the object layer of GitLite, a small Git clone written in C++:

- the lowercase hex codec between 20-byte SHA-1 digests and 40-character object names (`byteToHexHash`, `hexToByteHash`, `getSHA1`);
- the split of an object name into its `.git/objects` directory and file name (`GitObject`);
- the canonical encoding `"<kind> <decimal length>\0" + payload` and the header/payload split on read (`createBlobObject`, `readBlobObject`);
- tree objects:
  - the entry payload `mode ' ' name '\0' 20 raw bytes`, built by `createTreeHash` and read back by `Tree::parseTree`;
  - the `std::sort` comparator;
  - the mode chosen for each directory entry, and the `.git` skip;
  - the recursive directory walk;
  - `readTreeObject`;
- the commit identity line (`User::serialize`) and the `±HHMM` timezone text of `getLocalTimeZoneOffSet`.

`src/main.cpp` carries an older copy of the tree routines. The two copies are modelled once, parameterised by `Trees.Edition`:

- `SplitSources` (src/tree.cpp) sorts by name alone and skips `.git`;
- `SingleFile` (src/main.cpp) orders equal names by mode and keeps `.git`.

The other duplicates in `src/main.cpp` behave the same as the split files:
- `parseTree`, `readBlobObject` and `readTreeObject`;
- `byteToHexHash` and `hexToByteHash`;
- `createBlobObject`.

How the model stands in for what it does not run:
- **Bytes.** A `std::string` is a `seq<Byte>`, where a `Byte` is a `char` below 256.
- **SHA-1.** OpenSSL's SHA-1 is a parameter, `sha1: Bytes -> Digest`, where a digest is 20 bytes.
- **The object store.** `.git/objects` is the class `Store.ObjectStore`, which holds each object's decompressed bytes.
- **The file system.** A directory is the datatype `TreeObjects.Node`. Its children come in the order the directory iterator yields them. Each file carries the bytes that are read from it, and its kind and executable bit are fields.

Where the code and the design of the format disagree, the model follows the code:

- **`hexToByteHash`.**
  - Its length check rejects only odd lengths; any even length, not only 40, passes it.
  - It reads each pair with `std::stoul`, so a pair such as `" f"`, `"+f"`, `"-1"` or `"f/"` is accepted.
  - Only a pair with no hex digit where one is needed throws.
- **`readBlobObject`.**
  - It reads the size with `std::stol`, which throws when no number can be read.
  - It never compares the size with the payload.
  - It never checks the kind.
- **`readTreeObject`.** It splits off the header and never looks at it. An object of any kind is parsed as a tree.
- **`parseTree`.**
  - It stops without an error at a missing space or NUL, and keeps the entries already read.
  - It takes up to 20 hash bytes, so the last entry of a short payload gets a shorter hash.
- **The sort in src/tree.cpp.** It compares names alone. Its order for two entries with the same name is left to `std::sort`, and the model inserts stably. Names within one directory are distinct, so this does not arise from a real walk.

## Model

| member | source | states |
|---|---|---|
| `Text.Find` | src/tree.cpp:19-29 | `std::string::find(c, from)`: the position found holds `c` and no earlier position from `from` does; None when no position from `from` holds `c` |
| `Text.SplitAt` | src/blob.cpp:24-31 | the text before the first `c` and after it: their concatenation around `c` is the input, and the first part holds no `c`; None exactly when the input holds no `c` |
| `Text.Decimal` | src/blob.cpp:52 | `std::to_string` of a size: a non-empty run of digits that reads back as the number, with no leading zero |
| `Text.DecimalHasNoSeparator` | src/blob.cpp:52 | a decimal length contains neither a NUL nor a space, so it cannot end the header early |
| `Text.ParseLong` | src/blob.cpp:34 | `std::stol`: a value it reads lies within the range of a 64-bit long |
| `Text.ParseLongDecimal` | src/blob.cpp:34 | `std::stol` reads back any length `std::to_string` wrote, whatever non-digit follows |
| `Text.SignedDecimal` | src/commit.cpp:40-41 | a timestamp written by `operator<<`: it starts with '-' exactly when the value is negative, and otherwise it is the decimal |
| `Text.ZeroPad2` | src/commit.cpp:29-30 | `setw(2) setfill('0')`: the text is right-aligned in a field of two, padded with '0' |
| `Text.BelowIrreflexive` | src/tree.cpp:142-148 | `operator<` on names never puts a string before itself |
| `Text.BelowTransitive` | src/tree.cpp:142-148 | `operator<` on names is transitive |
| `Text.BelowTotal` | src/tree.cpp:142-148 | of two different names, `operator<` puts one before the other |
| `Text.BelowAsymmetric` | src/tree.cpp:142-148 | `operator<` never puts two names each before the other |
| `Helper.HexOf` | src/helper.cpp:13-16 | the rendering has 2·n characters; byte i sits at characters 2i and 2i+1 as two lowercase hex digits of its value, zero-padded |
| `Helper.HexOfAppend` | src/helper.cpp:13-16 | rendering is done byte by byte: the rendering of a concatenation is the concatenation of the renderings |
| `Helper.HexOfIsLowerHex` | src/helper.cpp:15 | every character of a rendering is one of 0-9a-f |
| `Helper.ByteToHexHash` | src/helper.cpp:11-18 | the loop's output is the rendering of the whole input, 2·n characters long |
| `Helper.DecodeHexPairs` | src/helper.cpp:25-31 | decoding succeeds exactly when `std::stoul` reads every pair; it then yields |hex|/2 bytes, byte k being the value of pair k |
| `Helper.HexToByteHash` | src/helper.cpp:19-32 | an odd length throws before anything is appended; otherwise exactly one byte per pair is appended after what `byteHash` held, or the first unreadable pair throws |
| `Helper.DecodeHexOf` | src/helper.cpp:11-32 | round trip: decoding the rendering of any bytes gives them back |
| `Helper.HexOfDecodeHex` | src/helper.cpp:11-32 | round trip the other way: an even-length lowercase hex string decodes, and rendering the bytes gives the string back |
| `Helper.Sha1Hex` | src/helper.cpp:34-42 | an object name is always 40 lowercase hex characters, because a digest is `SHA_DIGEST_LENGTH` = 20 bytes |
| `Helper.GetSha1` | src/helper.cpp:34-42 | `getSHA1` writes the 40-character name of the data's digest, and decoding it gives back the digest |
| `GitObjects.TypeAsString` | src/git_object.h:24-33 | blob, commit and tree are named "blob", "commit" and "tree"; each name reads back as its kind and holds no space or NUL |
| `GitObjects.ParseTypeName` | src/git_object.h:24-33 | the inverse of `typeAsString`: only the three names are recognised |
| `GitObjects.TypeAsStringInjective` | src/git_object.h:24-33 | two kinds with the same name are the same kind |
| `GitObjects.SplitName` | src/git_object.h:12-13 | `substr(0,2)` and `substr(2)`: a 2-character directory and a file name that concatenate back to the object name |
| `GitObjects.NewGitObject` | src/git_object.h:10-14 | the constructor succeeds exactly when the name has at least 2 characters, since `substr(2)` throws otherwise; a 40-character name gives a 38-character file name |
| `GitObjects.SplitAtNul` | src/blob.cpp:24-31 | the header before the first NUL and the payload after it; the missing-NUL error exactly when there is no NUL |
| `GitObjects.ParseHeader` | src/blob.cpp:31-34 | the type is the header up to its first space and holds no space; a space follows it unless it is the whole header (no space: `npos + 1` wraps to 0); a size `std::stol` reads lies within the range of a long |
| `GitObjects.SplitAtNulOf` | src/blob.cpp:24-31 | for any NUL-free header, the split returns that header and the bytes after it, whatever size the header states |
| `GitObjects.Encode` | src/blob.cpp:51-52 | the canonical bytes `"<kind> <length>\0" + payload` (also src/tree.cpp:159-164); its contract is stated by `EncodeRoundTrip`, which reads the kind, the length and the payload back |
| `GitObjects.EncodeRoundTrip` | src/blob.cpp:24-52 | splitting the canonical encoding gives back the header `"<kind> <length>"` and the payload; the header reads back as the kind's name and the payload length |
| `Store.ObjectStore.WriteToFile` | src/helper.cpp:115-141 | the write succeeds exactly when the directory did not exist yet; it then adds the directory and the object; otherwise nothing changes |
| `Store.ObjectStore.WriteObject` | src/blob.cpp:68-84 | the corrected write: the directory is there afterwards and the object holds the data, whether or not the directory existed |
| `Blob.BlobContent` | src/blob.cpp:24-36 | the output is exactly the bytes after the first NUL, when there is one and `std::stol` reads the size; the size is never compared with the payload |
| `Blob.BlobContentOfEncode` | src/blob.cpp:12-52 | round trip: the payload read from a canonical blob encoding is the file's bytes |
| `Blob.BlobContentIgnoresSize` | src/blob.cpp:31-36 | a header "blob N" gives back the payload for every N, whether or not N is its length |
| `Blob.ReadBlobObject` | src/blob.cpp:12-37 | names shorter than 2 and shorter than 4 throw, a missing object file throws, and otherwise the output is the payload read from the stored bytes |
| `Blob.CreateBlobObject` | src/blob.cpp:39-87 | as written: the name of the canonical blob is returned and the blob stored only when its directory is new; otherwise `hash` keeps what it held and nothing is stored |
| `Blob.StoreBlob` | src/blob.cpp:51-56 | corrected: the blob is stored under the 2/38 split of the SHA-1 name of `"blob <size>\0" + content`, and that name is returned |
| `Blob.HashObjectThenCatFile` | src/blob.cpp:12-87 | hash-object -w followed by cat-file -p on the printed name gives back the file's bytes |
| `Blob.HashObjectTwice` | src/blob.cpp:68-73 | as written, hashing the same file twice prints nothing the second time |
| `Blob.HashStoredBlob` | src/blob.cpp:68-73 | as written, hashing a file whose object is already stored changes nothing and prints no name, since every stored object lies in an existing bucket |
| `Trees.EntryType` | src/tree.cpp:47-59 | the type is "tree" exactly when the mode is "40000", and "blob" for every other mode, 100644 or not |
| `Trees.StepFrom` | src/tree.cpp:19-47 | a turn of the parse loop that reads an entry moves strictly forward |
| `Trees.StepFromShape` | src/tree.cpp:38-59 | a parsed entry's type is "tree" exactly when its mode is "40000" and "blob" otherwise; its hash has at most 40 hex characters, and exactly 40 when 20 bytes remained |
| `Trees.ParseFromShape` | src/tree.cpp:16-62 | every entry the loop appends has type "tree" exactly when its mode is "40000", and a hash of at most 40 characters |
| `Trees.ParseFrom` | src/tree.cpp:16-62 | the entries the loop appends from a position; `StepFromShape` and `ParseFromShape` state what each entry looks like, `ParseReads` what it reads from laid-out entries, `ParseStopsAtTail` and `ParseStopsAtNoNul` that it stops silently at a tail with no space or no NUL |
| `Trees.ParseEntries` | src/tree.cpp:11-63 | what `parseTree` appends for a whole payload; `ParsePayload` states the round trip, `ParseStopsAtTail` that a trailing run without a space is dropped silently |
| `Trees.Less` | src/tree.cpp:142-148 | the comparator handed to `std::sort` by each copy (src/main.cpp:483-489 for the other); `LessAsymmetric` states that it is strict, `ComparatorsOnTies` where the copies differ, and `Text.BelowTransitive`/`Text.BelowTotal` the order on names |
| `Trees.LessAsymmetric` | src/tree.cpp:142-148 | both comparators are strict: no entry is less than itself, and no two entries are each less than the other |
| `Trees.Sorted` | src/tree.cpp:142-148 | the sort keeps the number of entries; `SortedOrdered` and `SortedPermutes` state the rest |
| `Trees.InsertPermutes` | src/tree.cpp:142-148 | placing an entry into the sorted prefix adds exactly that entry |
| `Trees.InsertOrdered` | src/tree.cpp:142-148 | placing an entry into an ordered sequence keeps it ordered |
| `Trees.SortedOrdered` | src/tree.cpp:142-148 | after the sort, no entry is less than the one before it |
| `Trees.SortedPermutes` | src/tree.cpp:142-148 | the sort is a permutation: the same multiset of entries |
| `Trees.ComparatorsOnTies` | src/main.cpp:483-489 | for two entries with the same name, src/tree.cpp's comparator puts neither first, while src/main.cpp's orders them by mode |
| `Trees.InsertAgree` | src/main.cpp:483-489 | placing an entry whose name no other entry has goes the same way under both comparators |
| `Trees.SortedAgree` | src/main.cpp:483-489 | with distinct names, both copies sort entries into the same order |
| `Trees.PermutedDistinct` | src/tree.cpp:142-148 | a permutation of entries with distinct names has distinct names |
| `Trees.OrderedAscends` | src/tree.cpp:142-148 | entries in comparator order with distinct names have strictly ascending names, pairwise |
| `Trees.AscendingUnique` | src/tree.cpp:142-148 | two orderings of the same entries, each with strictly ascending names, are the same sequence |
| `Trees.SortedIndependent` | src/tree.cpp:142-148 | entries with distinct names sort to the same sequence whatever order they arrive in |
| `Trees.Payload` | src/tree.cpp:150-158 | the treeContent bytes of a sequence of entries; `PayloadSnoc` states how it grows, `ParsePayload` that parseTree reads it back, and `BuildPayload` that the append loop builds it |
| `Trees.PayloadSnoc` | src/tree.cpp:150-158 | the payload grows entry by entry: one more entry appends its mode, space, name, NUL and hash bytes |
| `Trees.ParsedAll` | src/tree.cpp:47-60 | one parsed entry per written entry, with the hash in hex and the type from the mode |
| `Trees.EntryTurn` | src/tree.cpp:19-60 | one turn of the loop over an encoded entry reads that entry back and moves past its bytes, when the mode has no space, the name no NUL and the hash is 20 bytes |
| `Trees.ParseReads` | src/tree.cpp:16-62 | the loop over a run of encoded entries reads them back in order, then goes on from the end of the run |
| `Trees.ParsePayload` | src/tree.cpp:11-63 | round trip: parsing the payload of encodable entries gives back their modes, names and hashes in order, each hash in hex and each entry typed by its mode |
| `Trees.NoSpaceStops` | src/tree.cpp:19-24 | from a position where no space remains, the loop appends nothing |
| `Trees.ParseStopsAtTail` | src/tree.cpp:20-34 | bytes with no space after the last entry are ignored without an error |
| `Trees.ParseStopsAtNoNul` | src/tree.cpp:29-34 | bytes after the last entry with no NUL in them are ignored without an error, whether or not they hold a space |
| `Trees.BuildPayload` | src/tree.cpp:150-158 | the append loop builds exactly the concatenation, entry by entry, of mode, ' ', name, NUL and raw hash |
| `Trees.SortByComparator` | src/tree.cpp:142-148 | the in-place sort leaves the entries in the order of the comparator, by insertion |
| `Trees.Tree.ParseTree` | src/tree.cpp:11-63 | `Tree::parseTree` appends exactly the entries the parse finds in the content to what the tree held (the copy at src/main.cpp:64-116 is the same) |
| `Trees.Tree.SortEntries` | src/tree.cpp:142-148 | the `std::sort` call leaves `entries` sorted by the edition's comparator |
| `TreeObjects.Kept` | src/tree.cpp:85-135 | which children the loop turns into entries; `SplitSourcesSkipsGit` states that src/tree.cpp keeps no ".git" directory, `SingleFileKeepsGit` that src/main.cpp does (src/main.cpp:421-479) |
| `TreeObjects.ModeOf` | src/tree.cpp:85-135 | the mode table: a regular file gets 100755 when executable and 100644 otherwise, a symbolic link 120000, and 40000 goes exactly to a directory; no mode holds a space, so parseTree splits it off intact |
| `TreeObjects.DigestOf` | src/tree.cpp:88-89 | `hexToByteHash` into an empty string on a name `getSHA1` produced gives the raw digest |
| `TreeObjects.ObjectData` | src/tree.cpp:65-197 | the canonical bytes of the object written for a node; `TreeObjectLists` states that reading a directory's tree object gives its kept entries in comparator order, and `ObjectDataAgree` that both copies agree on a plain work tree |
| `TreeObjects.EntryOf` | src/tree.cpp:87-137 | the entry pushed for a child: its mode, its file name and its object's raw digest; `ChildEntry` states the loop builds exactly it, `DirEntriesEncodable` that it can be written and read back |
| `TreeObjects.DirEntries` | src/tree.cpp:79-138 | the entries the loop pushes for the first i children, in their order; `CollectEntries` states the loop builds exactly them, `DirEntriesDistinct` that their names are distinct, `DirEntriesAgree` that both copies push the same ones on a plain work tree |
| `TreeObjects.CreateTreeHash` | src/tree.cpp:65-197 | with the corrected bucket write of the first Findings row, at every level and for the root too: no existing directory leaves `treeHash` and the store as they were; a directory gets `treeHash` naming its tree object, which is stored, together with every blob and subtree below it, and no stored object is lost |
| `TreeObjects.WriteDirectory` | src/tree.cpp:78-194 | with the corrected bucket write of the first Findings row: the object written is `"tree <len>\0"` + the payload of the kept children's entries in comparator order, and it is stored under its name |
| `TreeObjects.StoreTreeAsWritten` | src/tree.cpp:159-184 | as written: `treeHash` is the name of `"tree <len>\0"` + payload whether or not the object is stored; when its bucket directory already exists the store is unchanged, so a name write-tree prints can have no object |
| `TreeObjects.CollectEntries` | src/tree.cpp:79-138 | the loop pushes one entry per kept child, in the order the children come, and writes the objects of each |
| `TreeObjects.ChildEntry` | src/tree.cpp:87-130 | each branch builds the entry from the mode, the file name and the raw digest of the blob or subtree it stores |
| `TreeObjects.FileEntryAsWritten` | src/tree.cpp:87-106 | as written, a file whose blob directory already exists gets an empty hash in its entry |
| `TreeObjects.WriteTreeObject` | src/tree.cpp:199-203 | with the corrected bucket write of the first Findings row: write-tree returns the name of the working directory's tree object, which is stored, with everything below it |
| `TreeObjects.TreeContent` | src/tree.cpp:216-224 | the missing-NUL error exactly when there is no NUL |
| `TreeObjects.TreeContentIgnoresHeader` | src/tree.cpp:221-224 | whatever header precedes the first NUL, the entries are parsed from the bytes after it |
| `TreeObjects.TreeContentOfAnyKind` | src/tree.cpp:205-224 | an object of any kind, a blob or a commit too, is parsed as tree entries |
| `TreeObjects.TreeContentOfEncode` | src/tree.cpp:150-164 | round trip: reading the tree object of encodable entries gives back each entry, typed by its mode |
| `TreeObjects.ReadTreeObject` | src/tree.cpp:205-232 | names shorter than 2 or 4 throw, a missing object file throws, a missing NUL throws, and otherwise the entries are those parsed after the NUL (the copy at src/main.cpp:253-280 is the same) |
| `TreeObjects.DirEntriesEncodable` | src/tree.cpp:85-137 | every pushed entry can be written and read back, given NUL-free file names: constant mode, 20-byte digest |
| `TreeObjects.TreeObjectLists` | src/tree.cpp:150-224 | reading a directory's tree object gives its kept children's entries in comparator order |
| `TreeObjects.WriteTreeThenLsTree` | src/main.cpp:222-243 | write-tree followed by ls-tree on the printed name lists the working directory's kept entries in comparator order |
| `TreeObjects.SplitSourcesSkipsGit` | src/tree.cpp:85 | src/tree.cpp pushes no entry named ".git" with the tree mode |
| `TreeObjects.SingleFileKeepsGit` | src/main.cpp:421-479 | src/main.cpp pushes an entry for a ".git" subdirectory, with the tree mode |
| `TreeObjects.DirEntriesDistinct` | src/tree.cpp:79-137 | the pushed entries of a directory whose children have distinct names have distinct names |
| `TreeObjects.DirEntriesOfListing` | src/tree.cpp:79-138 | the entries pushed for a directory's first i children are those its listing's first i children push, one per kept child, in listing order |
| `TreeObjects.KeptEntriesPermute` | src/tree.cpp:79-138 | two listings of the same children push the same entries, as a multiset |
| `TreeObjects.ListingOrderIrrelevant` | src/tree.cpp:79-148 | the tree object of a directory whose children have distinct names does not depend on the order the directory iterator lists them in |
| `TreeObjects.DirEntriesAgree` | src/main.cpp:421-479 | on a work tree with distinct names and no ".git" directory, both copies push the same entries |
| `TreeObjects.ObjectDataAgree` | src/main.cpp:407-537 | on such a work tree, both copies write the same object for every file, link and directory |
| `Commits.Serialize` | src/commit.cpp:37-44 | the identity line replaces what `output` held and ends with a newline |
| `Commits.SerializeRoundTrip` | src/commit.cpp:37-44 | round trip: an identity line reads back into the role, name, e-mail, timestamp and timezone it was written from, when no field holds its terminator |
| `Commits.UserRoundTrip` | src/commit.cpp:40-41 | the fields after the role read back as the user |
| `Commits.StampRoundTrip` | src/commit.cpp:40-41 | the timestamp and timezone read back from "<timestamp> <timezone>" |
| `Commits.ParseLongSignedDecimal` | src/commit.cpp:41 | `std::stol` reads back a signed timestamp written by `operator<<` |
| `Commits.TruncDiv` | src/commit.cpp:24 | C++ division: the quotient truncated toward zero, with the sign of the dividend |
| `Commits.TruncMod` | src/commit.cpp:25 | C++ `%`: the remainder has the sign of the dividend and magnitude below the divisor |
| `Commits.OffsetMinutes` | src/commit.cpp:25 | `minutes` is the whole minutes past the hours of |offset|, always 0..59 |
| `Commits.TwoDigits` | src/commit.cpp:29-30 | a number below 100 is written as exactly two digits that read back as it |
| `Commits.ZoneDigitsValue` | src/commit.cpp:29-30 | the four zone digits read back as the offset's magnitude truncated to whole minutes |
| `Commits.TimeZoneText` | src/commit.cpp:24-32 | the text as written; `TimeZoneTextShape` states its shape, `TimeZoneTextRoundTrip` that it reads back as the offset outside (-3600, 0), and `TimeZoneTextSignSlip`/`HalfHourWest` the wrong sign inside it |
| `Commits.TimeZoneTextSigned` | src/commit.cpp:24-32 | the corrected text, with the sign of the offset; `TimeZoneTextSignedRoundTrip` states that it reads back as the offset truncated to whole minutes for every offset |
| `Commits.TimeZoneTextShape` | src/commit.cpp:27-32 | the timezone text is 5 characters, a sign and four digits, whenever |hours| < 100 |
| `Commits.TimeZoneTextSignSlip` | src/commit.cpp:28 | as written, every offset strictly between -3600 and 0 gets '+', and reads back as the same distance east of UTC |
| `Commits.HalfHourWest` | src/commit.cpp:28 | as written, an offset of -1800 seconds gives "+0030", where "-0030" was meant |
| `Commits.TimeZoneTextRoundTrip` | src/commit.cpp:24-32 | as written, the text reads back as the offset truncated to whole minutes for every offset outside (-3600, 0) |
| `Commits.TimeZoneTextSignedRoundTrip` | src/commit.cpp:24-32 | corrected: with the sign taken from the offset, the text reads back as the offset truncated to whole minutes for every offset |

## Left out

- zlib compression and decompression: a foreign library. An object file holds the decompressed canonical bytes. Nothing models `compressBound`, or the write of `compressedSize` bytes rather than the compressed length in src/blob.cpp:82-83, src/main.cpp:377-378 and src/main.cpp:534 (`zlibCompression` takes the size by value).
- SHA-1: a foreign call. The digest function is a parameter of every operation that names an object.
- File system I/O. Nothing models `directory_iterator`, `access`, `ifstream` or `ofstream`. A directory is a `TreeObjects.Node` that carries its children in iteration order, each file's bytes, its kind and its executable bit.
- A file or dangling link that cannot be opened makes `createBlobObject` throw. The model always has the bytes, so that exception is not modelled.
- Only the path `createTreeHash` is called on is tested for existence. Inside a walk every child exists, so the early returns apply to the root alone.
- The early returns for a file that cannot be created or opened, in `createBlobObject`, `writeToFile` and `createTreeHash`, are not modelled. Only the `create_directories` failure is.
- The command line (`main`), `init`, the exit codes, and the `std::cout`/`std::cerr` messages are not modelled. This includes the names that ls-tree prints: `ReadTreeObject` returns the entries whose names it prints.
- The clock and the local-time lookup of `getLocalTimeZoneOffSet` are not modelled. The offset in seconds and the timestamp are inputs.
- `Commit` in src/commit.h is not modelled: no code of the repository fills or serialises one.
- The `std::string_view` fields of src/main.cpp that point at destroyed temporaries are undefined behaviour. Entries are owned values here.
- Every object write of `TreeObjects.CreateTreeHash`, `WriteDirectory` and `WriteTreeObject`, at every level and for the root tree too, uses the corrected directory creation (see Findings), so their contracts state that each object is stored. As written, a blob whose bucket directory already exists gives its entry an empty hash (`TreeObjects.FileEntryAsWritten`), and a tree whose bucket exists is not written although its name is returned and printed (`TreeObjects.StoreTreeAsWritten`).
- `std::sort`'s order for two entries the src/tree.cpp comparator finds equal (the same name) is unspecified. `Trees.Sorted` is a stable insertion sort, so it fixes one such order.
- TreeObjects.CreateTreeHash: for the objects below the root, it states only that their keys are present, not their bytes. With SHA-1 a parameter, a later write of colliding bytes could replace one. The root object's bytes are stated exactly.
- Trees.StepFrom: its own contract states only progress, so that the function stays cheap to unfold. `StepFromShape` states what an entry it reads looks like; `ParseReads`, `ParseStopsAtTail` and `ParseStopsAtNoNul` state what the loop built from it reads and where it stops.
- Trees.ParsedAll: its own contract states only the length. The entry-by-entry content is its body, which `ParsePayload` uses.

## Findings

| source | as written | input that shows it | evidently intended | confidence | as-written member | corrected member |
|---|---|---|---|---|---|---|
| src/blob.cpp:68-73 | the write is abandoned when `fs::create_directories` returns false, which it does whenever the two-character bucket directory already exists; `hash` is then never set. The same test is at src/helper.cpp:122, src/tree.cpp:180-184, src/main.cpp:364-368 and src/main.cpp:521-525 | hash-object -w on the same file twice: the second call prints nothing (`Blob.HashObjectTwice`); any two objects whose names share their first two hex characters lose the second write, in write-tree the second file's entry gets an empty hash (`TreeObjects.FileEntryAsWritten`), and a tree whose bucket exists is named but not stored (`TreeObjects.StoreTreeAsWritten`) | an existing directory is used as it is, every object is stored, and its name is returned; `Blob.HashObjectThenCatFile` proves cat-file then gives back the bytes | high (not executed) | `Blob.CreateBlobObject` | `Blob.StoreBlob` |
| src/commit.cpp:24-28 | the sign is chosen from `hours = offset_seconds / 3600`, which truncates toward zero to 0 for every offset strictly between -3600 and 0 | an offset of -1800 seconds (UTC-00:30) gives "+0030" (`Commits.HalfHourWest`, `Commits.TimeZoneTextSignSlip`) | the sign of the offset itself: "-0030"; `Commits.TimeZoneTextSignedRoundTrip` proves the text reads back as the offset for every offset | high (not executed) | `Commits.TimeZoneText` | `Commits.TimeZoneTextSigned` |
