/**
 * src/tree.cpp, object level, and its copy in src/main.cpp: createTreeHash
 * (the tree object write-tree stores for a directory, with every blob and
 * subtree under it), writeTreeObject, and readTreeObject (the entries
 * ls-tree --name-only lists).
 */
module TreeObjects {
  import opened Wrappers
  import opened Text
  import opened Helper
  import opened GitObjects
  import opened Store
  import opened Blob
  import opened Trees

  /**
   * A directory entry as the loop of createTreeHash classifies it. The file
   * system is not part of this model: a directory comes with its children in
   * the order std::filesystem::directory_iterator yields them, and a file or
   * link with the bytes createBlobObject reads through its path.
   */
  datatype Node =
    | File(name: Bytes, content: Bytes, executable: bool)   // fs::is_regular_file holds (a link to a regular file too); executable is access(X_OK) == 0
    | Link(name: Bytes, content: Bytes, toDirectory: bool)  // fs::is_symlink holds but is_regular_file does not; toDirectory is is_directory through the link
    | Directory(name: Bytes, children: seq<Node>)
    | Other(name: Bytes)                                    // none of the above: skipped with a message

  /** directory_entry::is_directory, which follows a symbolic link. */
  predicate IsDirectoryEntry(n: Node) {
    n.Directory? || (n.Link? && n.toDirectory)
  }

  /**
   * Whether createTreeHash turns `n` into an entry: an entry of no known kind
   * is skipped everywhere, and src/tree.cpp also skips ".git" when
   * is_directory holds for it.
   */
  predicate Kept(edition: Edition, n: Node) {
    !n.Other? && !(edition == SplitSources && IsDirectoryEntry(n) && n.name == ".git")
  }

  /** The mode each branch of the loop writes. */
  function ModeOf(n: Node): (mode: Bytes)
    requires !n.Other?
    ensures n.File? ==> mode == (if n.executable then ModeExecutable else ModeFile)
    ensures n.Link? ==> mode == ModeSymlink
    ensures mode == ModeTree <==> n.Directory?
    ensures SPACE !in mode
  {
    match n
    case File(_, _, executable) => if executable then ModeExecutable else ModeFile
    case Link(_, _, _) => ModeSymlink
    case Directory(_, _) => ModeTree
  }

  /**
   * The canonical bytes of the object createTreeHash names `n` by: a blob of
   * the bytes read for a file or link, and for a directory the tree whose
   * payload lists its kept children in comparator order.
   */
  function ObjectData(edition: Edition, sha1: Sha1, n: Node): Bytes
    requires !n.Other?
    decreases n, 2
  {
    match n
    case File(_, content, _) => Encode(BlobKind, content)
    case Link(_, content, _) => Encode(BlobKind, content)
    case Directory(_, children) => Encode(TreeKind, Payload(Sorted(edition, DirEntries(edition, sha1, n, |children|))))
  }

  /**
   * The entry pushed for `n`: its mode, its file name and the raw digest
   * hexToByteHash recovers from the object's name. The type field is never
   * set and stays empty.
   */
  function EntryOf(edition: Edition, sha1: Sha1, n: Node): TreeEntry
    requires !n.Other?
    decreases n, 3
  {
    TreeEntry(ModeOf(n), n.name, sha1(ObjectData(edition, sha1, n)), [])
  }

  /** The entries of the first `i` children of `dir`, in the order the loop pushes them. */
  function DirEntries(edition: Edition, sha1: Sha1, dir: Node, i: nat): seq<TreeEntry>
    requires dir.Directory? && i <= |dir.children|
    decreases dir, 1, i
  {
    if i == 0 then []
    else
      var child := dir.children[i - 1];
      if Kept(edition, child) then DirEntries(edition, sha1, dir, i - 1) + [EntryOf(edition, sha1, child)]
      else DirEntries(edition, sha1, dir, i - 1)
  }

  /** The objects createTreeHash writes for `n`: its own and those of everything kept below it. */
  function Written(edition: Edition, sha1: Sha1, n: Node): set<Bytes>
    requires !n.Other?
    decreases n, 2
  {
    match n
    case Directory(_, children) => DirWritten(edition, sha1, n, |children|) + {ObjectData(edition, sha1, n)}
    case _ => {ObjectData(edition, sha1, n)}
  }

  /** The objects written for the kept ones among the first `i` children of `dir`. */
  function DirWritten(edition: Edition, sha1: Sha1, dir: Node, i: nat): set<Bytes>
    requires dir.Directory? && i <= |dir.children|
    decreases dir, 1, i
  {
    if i == 0 then {}
    else
      var child := dir.children[i - 1];
      if Kept(edition, child) then DirWritten(edition, sha1, dir, i - 1) + Written(edition, sha1, child)
      else DirWritten(edition, sha1, dir, i - 1)
  }

  /** Where an object with these canonical bytes is stored. */
  function ObjectKey(sha1: Sha1, data: Bytes): Key {
    SplitName(Sha1Hex(sha1, data))
  }

  /** hexToByteHash into an empty string, on a name getSHA1 produced: the raw digest. */
  method DigestOf(sha1: Sha1, data: Bytes, hexHash: Bytes) returns (binaryHash: Bytes)
    requires hexHash == Sha1Hex(sha1, data)
    ensures binaryHash == sha1(data)
  {
    DecodeHexOf(sha1(data));
    var r := HexToByteHash([], hexHash);
    assert [] + sha1(data) == sha1(data);
    binaryHash := r.value;
  }

  /**
   * createTreeHash on a path that is not an existing directory prints a
   * message and returns, leaving `treeHash` as it was; on a directory it
   * writes the tree object (with the corrected write) and puts its name in
   * `treeHash`.
   */
  method CreateTreeHash(store: ObjectStore, sha1: Sha1, edition: Edition, treeHash: Bytes, path: Option<Node>)
    returns (hashOut: Bytes)
    requires store.Valid()
    modifies store
    ensures store.Valid()
    ensures (path.None? || !path.value.Directory?) ==>
              hashOut == treeHash && store.dirs == old(store.dirs) && store.objects == old(store.objects)
    ensures path.Some? && path.value.Directory? ==>
              var data := ObjectData(edition, sha1, path.value);
              hashOut == Sha1Hex(sha1, data) && ObjectKey(sha1, data) in store.objects
              && store.objects[ObjectKey(sha1, data)] == data
              && (forall d :: d in Written(edition, sha1, path.value) ==> ObjectKey(sha1, d) in store.objects)
    ensures forall k :: k in old(store.objects) ==> k in store.objects
  {
    if path.None? {
      return treeHash;
    }
    if !path.value.Directory? {
      return treeHash;
    }
    hashOut := WriteDirectory(store, sha1, edition, path.value);
  }

  /**
   * The body of createTreeHash past its two early returns: the entries of the
   * kept children, then the sort, the payload, the header, the digest and the
   * write.
   */
  method WriteDirectory(store: ObjectStore, sha1: Sha1, edition: Edition, dir: Node) returns (treeHash: Bytes)
    requires store.Valid() && dir.Directory?
    modifies store
    decreases dir, 1
    ensures store.Valid()
    ensures var data := ObjectData(edition, sha1, dir);
            treeHash == Sha1Hex(sha1, data) && ObjectKey(sha1, data) in store.objects
            && store.objects[ObjectKey(sha1, data)] == data
    ensures forall d :: d in Written(edition, sha1, dir) ==> ObjectKey(sha1, d) in store.objects
    ensures forall k :: k in old(store.objects) ==> k in store.objects
  {
    var tree := new Tree();
    CollectEntries(store, sha1, edition, dir, tree);
    tree.SortEntries(edition);
    var treeContent := BuildPayload(tree.entries);
    var treeData := "tree " + Decimal(|treeContent|) + [NUL] + treeContent;
    TreeDataOf(edition, sha1, dir, treeContent, treeData);
    treeHash := GetSha1(sha1, treeData);
    store.WriteObject(treeHash[..2], treeHash[2..], treeData);
  }

  /** The header and payload createTreeHash concatenates are the directory's tree object. */
  lemma TreeDataOf(edition: Edition, sha1: Sha1, dir: Node, treeContent: Bytes, treeData: Bytes)
    requires dir.Directory?
    requires treeContent == Payload(Sorted(edition, DirEntries(edition, sha1, dir, |dir.children|)))
    requires treeData == "tree " + Decimal(|treeContent|) + [NUL] + treeContent
    ensures treeData == ObjectData(edition, sha1, dir)
  {
  }

  /**
   * The tail of createTreeHash as written, from the sorted payload on:
   * getSHA1 puts the name in `treeHash` before the directory is created, and
   * when that directory already exists the write is abandoned. write-tree then
   * prints a name whose object is not stored.
   */
  method StoreTreeAsWritten(store: ObjectStore, sha1: Sha1, treeContent: Bytes) returns (treeHash: Bytes)
    requires store.Valid()
    modifies store
    ensures store.Valid()
    ensures treeHash == Sha1Hex(sha1, Encode(TreeKind, treeContent))
    ensures var key := ObjectKey(sha1, Encode(TreeKind, treeContent));
            if key.0 in old(store.dirs) then
              store.dirs == old(store.dirs) && store.objects == old(store.objects)
            else
              store.dirs == old(store.dirs) + {key.0} && store.objects == old(store.objects)[key := Encode(TreeKind, treeContent)]
    ensures var key := ObjectKey(sha1, Encode(TreeKind, treeContent));
            key.0 in old(store.dirs) && key !in old(store.objects) ==> key !in store.objects
  {
    var treeData := "tree " + Decimal(|treeContent|) + [NUL] + treeContent;
    assert treeData == Encode(TreeKind, treeContent);
    treeHash := GetSha1(sha1, treeData);
    var written := store.WriteToFile(treeHash[..2], treeHash[2..], treeData);
  }

  /** The loop of createTreeHash: one entry pushed for each child it keeps, in the order the children come. */
  method CollectEntries(store: ObjectStore, sha1: Sha1, edition: Edition, dir: Node, tree: Tree)
    requires store.Valid() && dir.Directory? && tree.entries == []
    modifies store, tree
    decreases dir, 0
    ensures store.Valid()
    ensures tree.entries == DirEntries(edition, sha1, dir, |dir.children|)
    ensures forall d :: d in DirWritten(edition, sha1, dir, |dir.children|) ==> ObjectKey(sha1, d) in store.objects
    ensures forall k :: k in old(store.objects) ==> k in store.objects
  {
    var i := 0;
    while i < |dir.children|
      invariant 0 <= i <= |dir.children|
      invariant store.Valid()
      invariant tree.entries == DirEntries(edition, sha1, dir, i)
      invariant forall d :: d in DirWritten(edition, sha1, dir, i) ==> ObjectKey(sha1, d) in store.objects
      invariant forall k :: k in old(store.objects) ==> k in store.objects
    {
      var child := dir.children[i];
      i := i + 1;
      if edition == SplitSources && IsDirectoryEntry(child) && child.name == ".git" {
        continue;
      }
      if child.Other? {
        continue;
      }
      var entry := ChildEntry(store, sha1, edition, child);
      tree.entries := tree.entries + [entry];
    }
  }

  /**
   * One turn of the loop for a child it keeps: a blob for a regular file or
   * a link (createBlobObject, with the corrected write), the tree of a
   * subdirectory otherwise, and the entry built from the object's name.
   */
  method ChildEntry(store: ObjectStore, sha1: Sha1, edition: Edition, child: Node) returns (entry: TreeEntry)
    requires store.Valid() && !child.Other?
    modifies store
    decreases child, 2
    ensures store.Valid()
    ensures entry == EntryOf(edition, sha1, child)
    ensures forall d :: d in Written(edition, sha1, child) ==> ObjectKey(sha1, d) in store.objects
    ensures forall k :: k in old(store.objects) ==> k in store.objects
  {
    match child
    case File(name, content, executable) =>
      var outputHash := StoreBlob(store, sha1, content);
      var binaryHash := DigestOf(sha1, Encode(BlobKind, content), outputHash);
      entry := TreeEntry(if executable then ModeExecutable else ModeFile, name, binaryHash, []);
    case Link(name, content, _) =>
      var outputHash := StoreBlob(store, sha1, content);
      var binaryHash := DigestOf(sha1, Encode(BlobKind, content), outputHash);
      entry := TreeEntry(ModeSymlink, name, binaryHash, []);
    case Directory(name, _) =>
      var subdirHash := WriteDirectory(store, sha1, edition, child);
      var binaryHash := DigestOf(sha1, ObjectData(edition, sha1, child), subdirHash);
      entry := TreeEntry(ModeTree, name, binaryHash, []);
  }

  /**
   * The regular-file turn of the loop with createBlobObject as written: when
   * the blob's directory already exists, `outputHash` stays empty, and so
   * does the hash the entry records.
   */
  method FileEntryAsWritten(store: ObjectStore, sha1: Sha1, name: Bytes, content: Bytes, executable: bool)
    returns (entry: TreeEntry)
    requires store.Valid()
    modifies store
    ensures store.Valid()
    ensures entry.hash == if ObjectKey(sha1, Encode(BlobKind, content)).0 in old(store.dirs) then [] else sha1(Encode(BlobKind, content))
  {
    var outputHash := CreateBlobObject(store, sha1, [], content);
    DecodeHexOf(sha1(Encode(BlobKind, content)));
    assert DecodeHex([]) == Some([]);
    var binaryHash := HexToByteHash([], outputHash);
    entry := TreeEntry(if executable then ModeExecutable else ModeFile, name, binaryHash.value, []);
  }

  /** writeTreeObject: createTreeHash on the working directory, which exists and is a directory. */
  method WriteTreeObject(store: ObjectStore, sha1: Sha1, edition: Edition, treeHash: Bytes, cwd: Node)
    returns (hashOut: Bytes)
    requires store.Valid() && cwd.Directory?
    modifies store
    ensures store.Valid()
    ensures hashOut == Sha1Hex(sha1, ObjectData(edition, sha1, cwd))
    ensures var data := ObjectData(edition, sha1, cwd);
            ObjectKey(sha1, data) in store.objects && store.objects[ObjectKey(sha1, data)] == data
    ensures forall d :: d in Written(edition, sha1, cwd) ==> ObjectKey(sha1, d) in store.objects
  {
    hashOut := CreateTreeHash(store, sha1, edition, treeHash, Some(cwd));
  }

  /**
   * What readTreeObject collects from the decompressed bytes of an object:
   * the entries parseTree finds after the first NUL. The header is split off
   * but never read, so neither the kind nor the size is checked.
   */
  function TreeContent(data: Bytes): (r: Result<seq<TreeEntry>, ReadError>)
    ensures r.Failure? <==> NUL !in data
    ensures r.Failure? ==> r.error == MissingNul
  {
    match SplitAtNul(data)
    case None => Failure(MissingNul)
    case Some((_, payload)) => Success(ParseEntries(payload))
  }

  /** Whatever header comes before the first NUL, the entries are parsed from the bytes after it. */
  lemma TreeContentIgnoresHeader(header: Bytes, payload: Bytes)
    requires NUL !in header
    ensures TreeContent(header + [NUL] + payload) == Success(ParseEntries(payload))
  {
    SplitAtNulOf(header, payload);
  }

  /** An object of any kind is read as a tree: a blob or a commit is parsed as entries too. */
  lemma TreeContentOfAnyKind(kind: ObjectType, payload: Bytes)
    ensures TreeContent(Encode(kind, payload)) == Success(ParseEntries(payload))
  {
    var header := TypeAsString(kind) + " " + Decimal(|payload|);
    DecimalHasNoSeparator(|payload|);
    assert NUL !in header by {
      assert header == TypeAsString(kind) + [SPACE] + Decimal(|payload|);
    }
    assert Encode(kind, payload) == header + [NUL] + payload;
    TreeContentIgnoresHeader(header, payload);
  }

  /** Round trip: reading the canonical tree object of encodable entries gives back each entry, typed by its mode. */
  lemma TreeContentOfEncode(entries: seq<TreeEntry>)
    requires forall i :: 0 <= i < |entries| ==> Encodable(entries[i])
    ensures TreeContent(Encode(TreeKind, Payload(entries))) == Success(ParsedAll(entries))
  {
    TreeContentOfAnyKind(TreeKind, Payload(entries));
    ParsePayload(entries);
  }

  /**
   * readTreeObject: the name checks and failures of the blob reader, a
   * missing NUL, and otherwise the entries parseTree collects from the
   * payload; ls-tree --name-only prints their names.
   */
  method ReadTreeObject(store: ObjectStore, treeSha: Bytes) returns (output: Result<seq<TreeEntry>, ReadError>)
    ensures |treeSha| < 2 ==> output == Failure(NameOutOfRange)
    ensures 2 <= |treeSha| < 4 ==> output == Failure(NameTooShort)
    ensures |treeSha| >= 4 && SplitName(treeSha) !in store.objects ==> output == Failure(CannotOpen)
    ensures |treeSha| >= 4 && SplitName(treeSha) in store.objects ==>
              output == TreeContent(store.objects[SplitName(treeSha)])
  {
    var made := NewGitObject(treeSha);
    if made.Failure? {
      return Failure(made.error);
    }
    var treeObject := made.value;
    if |treeObject.fileName| < 2 {
      return Failure(NameTooShort);
    }
    var path := (treeObject.dirName, treeObject.fileName);
    if path !in store.objects {
      return Failure(CannotOpen);
    }
    var decompressed := store.objects[path];
    var nullPos := Find(decompressed, NUL, 0);
    if nullPos.None? {
      return Failure(MissingNul);
    }
    treeObject := treeObject.(content := decompressed[nullPos.value + 1..]);
    var tree := new Tree();
    tree.ParseTree(treeObject.content);
    EmptyThen(ParseEntries(treeObject.content));
    output := Success(tree.entries);
  }

  lemma EmptyThen(s: seq<TreeEntry>)
    ensures [] + s == s
  {
  }

  /** Every entry the loop pushes can be written and read back: its mode has no space, its hash is a digest. */
  lemma {:induction false} DirEntriesEncodable(edition: Edition, sha1: Sha1, dir: Node, i: nat)
    requires dir.Directory? && i <= |dir.children|
    requires forall j :: 0 <= j < |dir.children| ==> NUL !in dir.children[j].name
    ensures forall k :: 0 <= k < |DirEntries(edition, sha1, dir, i)| ==> Encodable(DirEntries(edition, sha1, dir, i)[k])
  {
    if i > 0 {
      DirEntriesEncodable(edition, sha1, dir, i - 1);
    }
  }

  /** Sorting keeps every entry encodable: it only reorders them. */
  lemma SortedEncodable(edition: Edition, s: seq<TreeEntry>)
    requires forall i :: 0 <= i < |s| ==> Encodable(s[i])
    ensures forall i :: 0 <= i < |Sorted(edition, s)| ==> Encodable(Sorted(edition, s)[i])
  {
    SortedPermutes(edition, s);
    forall i | 0 <= i < |Sorted(edition, s)| ensures Encodable(Sorted(edition, s)[i]) {
      assert Sorted(edition, s)[i] in multiset(Sorted(edition, s));
    }
  }

  /**
   * Reading the tree object of a directory whose entries have NUL-free names
   * gives back its kept children's entries in comparator order.
   */
  lemma TreeObjectLists(edition: Edition, sha1: Sha1, dir: Node)
    requires dir.Directory?
    requires forall j :: 0 <= j < |dir.children| ==> NUL !in dir.children[j].name
    ensures TreeContent(ObjectData(edition, sha1, dir)) ==
            Success(ParsedAll(Sorted(edition, DirEntries(edition, sha1, dir, |dir.children|))))
  {
    var entries := DirEntries(edition, sha1, dir, |dir.children|);
    DirEntriesEncodable(edition, sha1, dir, |dir.children|);
    SortedEncodable(edition, entries);
    TreeContentOfEncode(Sorted(edition, entries));
  }

  /** write-tree, then ls-tree on the name it printed: the working directory's entries, sorted, come back. */
  method WriteTreeThenLsTree(store: ObjectStore, sha1: Sha1, edition: Edition, cwd: Node)
    returns (treeHash: Bytes, listing: Result<seq<TreeEntry>, ReadError>)
    requires store.Valid() && cwd.Directory?
    requires forall j :: 0 <= j < |cwd.children| ==> NUL !in cwd.children[j].name
    modifies store
    ensures listing == Success(ParsedAll(Sorted(edition, DirEntries(edition, sha1, cwd, |cwd.children|))))
  {
    treeHash := WriteTreeObject(store, sha1, edition, [], cwd);
    listing := ReadTreeObject(store, treeHash);
    TreeObjectLists(edition, sha1, cwd);
  }

  /** src/tree.cpp writes no ".git" subtree: no entry it pushes under that name has the tree mode. */
  lemma {:induction false} SplitSourcesSkipsGit(sha1: Sha1, dir: Node, i: nat)
    requires dir.Directory? && i <= |dir.children|
    ensures forall k :: 0 <= k < |DirEntries(SplitSources, sha1, dir, i)| && DirEntries(SplitSources, sha1, dir, i)[k].name == ".git" ==>
              DirEntries(SplitSources, sha1, dir, i)[k].mode != ModeTree
  {
    if i > 0 {
      SplitSourcesSkipsGit(sha1, dir, i - 1);
    }
  }

  /** src/main.cpp pushes an entry for a ".git" subdirectory like for any other. */
  lemma {:induction false} SingleFileKeepsGit(sha1: Sha1, dir: Node, i: nat, j: nat)
    requires dir.Directory? && j < i <= |dir.children|
    requires dir.children[j].Directory? && dir.children[j].name == ".git"
    ensures EntryOf(SingleFile, sha1, dir.children[j]) in DirEntries(SingleFile, sha1, dir, i)
    ensures EntryOf(SingleFile, sha1, dir.children[j]).mode == ModeTree
  {
    if j < i - 1 {
      SingleFileKeepsGit(sha1, dir, i - 1, j);
    }
  }

  /**
   * A work tree on which the two copies can agree: in every directory the
   * children have distinct names and none named ".git" is a directory.
   */
  predicate Plain(n: Node)
    decreases n
  {
    n.Directory? ==>
      (forall j :: 0 <= j < |n.children| ==> !(IsDirectoryEntry(n.children[j]) && n.children[j].name == ".git"))
      && (forall a, b :: 0 <= a < b < |n.children| ==> n.children[a].name != n.children[b].name)
      && (forall j :: 0 <= j < |n.children| ==> Plain(n.children[j]))
  }

  /** The entries pushed for the first `i` children have distinct names, none of them the name of a later child. */
  lemma {:induction false} DirEntriesDistinct(edition: Edition, sha1: Sha1, dir: Node, i: nat)
    requires dir.Directory? && i <= |dir.children|
    requires forall a, b :: 0 <= a < b < |dir.children| ==> dir.children[a].name != dir.children[b].name
    ensures forall k, j :: 0 <= k < |DirEntries(edition, sha1, dir, i)| && i <= j < |dir.children| ==>
              DirEntries(edition, sha1, dir, i)[k].name != dir.children[j].name
    ensures DistinctNames(DirEntries(edition, sha1, dir, i))
  {
    if i > 0 {
      DirEntriesDistinct(edition, sha1, dir, i - 1);
      var child := dir.children[i - 1];
      if Kept(edition, child) {
        var prev := DirEntries(edition, sha1, dir, i - 1);
        var cur := DirEntries(edition, sha1, dir, i);
        assert cur == prev + [EntryOf(edition, sha1, child)];
        forall a, b | 0 <= a < b < |cur| ensures cur[a].name != cur[b].name {
          assert cur[a] == prev[a];
        }
      }
    }
  }

  /** On a plain work tree both copies produce the same object for every file, link and directory. */
  lemma {:induction false} ObjectDataAgree(sha1: Sha1, n: Node)
    requires !n.Other? && Plain(n)
    ensures ObjectData(SplitSources, sha1, n) == ObjectData(SingleFile, sha1, n)
    decreases n, 1
  {
    if n.Directory? {
      DirEntriesAgree(sha1, n, |n.children|);
      DirEntriesDistinct(SingleFile, sha1, n, |n.children|);
      SortedAgree(DirEntries(SingleFile, sha1, n, |n.children|));
    }
  }

  /** On a plain directory both copies push the same entries. */
  lemma {:induction false} DirEntriesAgree(sha1: Sha1, dir: Node, i: nat)
    requires dir.Directory? && i <= |dir.children| && Plain(dir)
    ensures DirEntries(SplitSources, sha1, dir, i) == DirEntries(SingleFile, sha1, dir, i)
    decreases dir, 0, i
  {
    if i > 0 {
      DirEntriesAgree(sha1, dir, i - 1);
      var child := dir.children[i - 1];
      if !child.Other? {
        ObjectDataAgree(sha1, child);
      }
    }
  }

  /** The entries the loop pushes for a listing of children, in listing order. */
  function KeptEntries(edition: Edition, sha1: Sha1, cs: seq<Node>): seq<TreeEntry>
    decreases |cs|
  {
    if cs == [] then []
    else
      var child := cs[|cs| - 1];
      KeptEntries(edition, sha1, cs[..|cs| - 1]) + if Kept(edition, child) then [EntryOf(edition, sha1, child)] else []
  }

  /** The entries of a directory's first i children are those of its listing's first i. */
  lemma {:induction false} DirEntriesOfListing(edition: Edition, sha1: Sha1, dir: Node, i: nat)
    requires dir.Directory? && i <= |dir.children|
    ensures DirEntries(edition, sha1, dir, i) == KeptEntries(edition, sha1, dir.children[..i])
  {
    if i > 0 {
      DirEntriesOfListing(edition, sha1, dir, i - 1);
      assert dir.children[..i][..i - 1] == dir.children[..i - 1];
    }
  }

  /** Listing a after b pushes a's entries, then b's. */
  lemma {:induction false} KeptEntriesAppend(edition: Edition, sha1: Sha1, a: seq<Node>, b: seq<Node>)
    ensures KeptEntries(edition, sha1, a + b) == KeptEntries(edition, sha1, a) + KeptEntries(edition, sha1, b)
    decreases |b|
  {
    if b == [] {
      assert a + b == a;
    } else {
      var init := b[..|b| - 1];
      assert (a + b)[..|a + b| - 1] == a + init;
      KeptEntriesAppend(edition, sha1, a, init);
    }
  }

  /** Taking the k-th child out of a listing takes it out of its multiset. */
  lemma RemoveAt(cs: seq<Node>, k: nat)
    requires k < |cs|
    ensures multiset(cs[..k] + cs[k + 1..]) == multiset(cs) - multiset{cs[k]}
  {
    assert cs == cs[..k] + [cs[k]] + cs[k + 1..];
  }

  /** The entries a listing pushes are those without its k-th child, plus that child's own. */
  lemma {:induction false} KeptEntriesRemove(edition: Edition, sha1: Sha1, cs: seq<Node>, k: nat)
    requires k < |cs|
    ensures multiset(KeptEntries(edition, sha1, cs))
         == multiset(KeptEntries(edition, sha1, cs[..k] + cs[k + 1..])) + multiset(KeptEntries(edition, sha1, [cs[k]]))
  {
    var before, x, after := cs[..k], cs[k], cs[k + 1..];
    assert cs == before + [x] + after;
    KeptEntriesAppend(edition, sha1, before + [x], after);
    KeptEntriesAppend(edition, sha1, before, [x]);
    KeptEntriesAppend(edition, sha1, before, after);
  }

  /** Two listings of the same children push the same entries, in whatever order. */
  lemma {:induction false} KeptEntriesPermute(edition: Edition, sha1: Sha1, cs1: seq<Node>, cs2: seq<Node>)
    requires multiset(cs1) == multiset(cs2)
    ensures multiset(KeptEntries(edition, sha1, cs1)) == multiset(KeptEntries(edition, sha1, cs2))
    decreases |cs1|
  {
    assert |cs1| == |multiset(cs1)| == |multiset(cs2)| == |cs2|;
    if cs1 != [] {
      var n := |cs1| - 1;
      assert cs1[n] in multiset(cs2);
      var k :| 0 <= k < |cs2| && cs2[k] == cs1[n];
      var rest1, rest2 := cs1[..n] + cs1[n + 1..], cs2[..k] + cs2[k + 1..];
      RemoveAt(cs1, n);
      RemoveAt(cs2, k);
      KeptEntriesPermute(edition, sha1, rest1, rest2);
      KeptEntriesRemove(edition, sha1, cs1, n);
      KeptEntriesRemove(edition, sha1, cs2, k);
    }
  }

  /**
   * The tree object of a directory does not depend on the order the directory
   * iterator lists its children in, when their names are distinct: any other
   * listing of the same children gives the same bytes, and so the same name.
   */
  lemma ListingOrderIrrelevant(edition: Edition, sha1: Sha1, name: Bytes, cs1: seq<Node>, cs2: seq<Node>)
    requires multiset(cs1) == multiset(cs2)
    requires forall a, b :: 0 <= a < b < |cs1| ==> cs1[a].name != cs1[b].name
    ensures ObjectData(edition, sha1, Directory(name, cs1)) == ObjectData(edition, sha1, Directory(name, cs2))
  {
    var d1, d2 := Directory(name, cs1), Directory(name, cs2);
    DirEntriesOfListing(edition, sha1, d1, |cs1|);
    DirEntriesOfListing(edition, sha1, d2, |cs2|);
    assert cs1[..|cs1|] == cs1 && cs2[..|cs2|] == cs2;
    KeptEntriesPermute(edition, sha1, cs1, cs2);
    DirEntriesDistinct(edition, sha1, d1, |cs1|);
    SortedIndependent(edition, DirEntries(edition, sha1, d1, |cs1|), DirEntries(edition, sha1, d2, |cs2|));
  }
}
