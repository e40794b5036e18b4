/**
 * src/blob.cpp: storing a file's bytes as a blob object (createBlobObject) and
 * reading a blob's payload back by object name (readBlobObject).
 */
module Blob {
  import opened Wrappers
  import opened Text
  import opened Helper
  import opened GitObjects
  import opened Store

  /**
   * What readBlobObject outputs for the decompressed bytes of an object: the
   * bytes after the first NUL, provided std::stol can read the size in the
   * header. The size is read but never compared with the payload.
   */
  function BlobContent(data: Bytes): (r: Result<Bytes, ReadError>)
    ensures r.Success? <==> SplitAtNul(data).Some? && ParseHeader(SplitAtNul(data).value.0).Some?
    ensures NUL !in data ==> r == Failure(MissingNul)
    ensures r.Success? ==> exists header :: NUL !in header && data == header + [NUL] + r.value
  {
    match SplitAtNul(data)
    case None => Failure(MissingNul)
    case Some((header, payload)) =>
      if ParseHeader(header).None? then Failure(BadSize) else Success(payload)
  }

  /** Round trip: the payload of a canonical blob encoding is the file's bytes. */
  lemma BlobContentOfEncode(temp: Bytes)
    requires |temp| <= LongMax
    ensures BlobContent(Encode(BlobKind, temp)) == Success(temp)
  {
    EncodeRoundTrip(BlobKind, temp);
  }

  /** The payload comes back whatever size the header states. */
  lemma BlobContentIgnoresSize(size: nat, payload: Bytes)
    requires size <= LongMax
    ensures BlobContent("blob " + Decimal(size) + [NUL] + payload) == Success(payload)
  {
    DecimalHasNoSeparator(size);
    var header := "blob " + Decimal(size);
    assert NUL !in header by {
      assert header == "blob" + [SPACE] + Decimal(size);
    }
    SplitAtNulOf(header, payload);
    FindFirst(header, SPACE, 0, 4);
    assert header[5..] == Decimal(size) + [];
    ParseLongDecimal(size, []);
  }

  /**
   * readBlobObject. The name must be at least 4 characters: the GitObject
   * constructor throws below 2 and the file name part is checked for 2 more.
   * A missing object file, a missing NUL and an unreadable size throw too; on
   * success the output is the payload after the first NUL. A Failure leaves the
   * caller's `output` as it was.
   */
  method ReadBlobObject(store: ObjectStore, fileName: Bytes) returns (output: Result<Bytes, ReadError>)
    ensures |fileName| < 2 ==> output == Failure(NameOutOfRange)
    ensures 2 <= |fileName| < 4 ==> output == Failure(NameTooShort)
    ensures |fileName| >= 4 && SplitName(fileName) !in store.objects ==> output == Failure(CannotOpen)
    ensures |fileName| >= 4 && SplitName(fileName) in store.objects ==>
              output == BlobContent(store.objects[SplitName(fileName)])
  {
    var made := NewGitObject(fileName);
    if made.Failure? {
      return Failure(made.error);
    }
    var blobObject := made.value;
    if |blobObject.fileName| < 2 {
      return Failure(NameTooShort);
    }
    var path := (blobObject.dirName, blobObject.fileName);
    if path !in store.objects {
      return Failure(CannotOpen);
    }
    var decompressed := store.objects[path];
    var nullPos := Find(decompressed, NUL, 0);
    if nullPos.None? {
      return Failure(MissingNul);
    }
    blobObject := blobObject.(content := decompressed[nullPos.value + 1..]);
    var header := decompressed[..nullPos.value];
    var spacePos := Find(header, SPACE, 0);
    blobObject := blobObject.(typeName := if spacePos.None? then header else header[..spacePos.value]);
    var size := ParseLong(if spacePos.None? then header else header[spacePos.value + 1..]);
    if size.None? {
      return Failure(BadSize);
    }
    blobObject := blobObject.(size := size.value);
    output := Success(blobObject.content);
  }

  /**
   * createBlobObject as written. The canonical bytes "blob <size>\0<content>"
   * are named by their SHA-1 in hex and written under name[..2]/name[2..]; if
   * that directory already exists the function returns early, and `hash` keeps
   * whatever the caller had in it.
   */
  method CreateBlobObject(store: ObjectStore, sha1: Sha1, hash: Bytes, temp: Bytes) returns (hashOut: Bytes)
    requires store.Valid()
    modifies store
    ensures store.Valid()
    ensures var name := Sha1Hex(sha1, Encode(BlobKind, temp));
            var key := SplitName(name);
            if key.0 in old(store.dirs) then
              hashOut == hash && store.dirs == old(store.dirs) && store.objects == old(store.objects)
            else
              hashOut == name && store.dirs == old(store.dirs) + {key.0}
              && store.objects == old(store.objects)[key := Encode(BlobKind, temp)]
  {
    var uncompressed := "blob " + Decimal(|temp|) + [NUL] + temp;
    assert uncompressed == Encode(BlobKind, temp);
    var hashStr := GetSha1(sha1, uncompressed);
    var dirNamePart := hashStr[..2];
    var fileNamePart := hashStr[2..];
    var written := store.WriteToFile(dirNamePart, fileNamePart, uncompressed);
    if !written {
      return hash;
    }
    hashOut := hashStr;
  }

  /** createBlobObject with the corrected write: the object is always stored and its name always returned. */
  method StoreBlob(store: ObjectStore, sha1: Sha1, temp: Bytes) returns (hash: Bytes)
    requires store.Valid()
    modifies store
    ensures store.Valid()
    ensures hash == Sha1Hex(sha1, Encode(BlobKind, temp))
    ensures store.dirs == old(store.dirs) + {SplitName(hash).0}
    ensures store.objects == old(store.objects)[SplitName(hash) := Encode(BlobKind, temp)]
  {
    var uncompressed := "blob " + Decimal(|temp|) + [NUL] + temp;
    assert uncompressed == Encode(BlobKind, temp);
    hash := GetSha1(sha1, uncompressed);
    store.WriteObject(hash[..2], hash[2..], uncompressed);
  }

  /** hash-object -w then cat-file -p on the returned name gives back the file's bytes. */
  method HashObjectThenCatFile(store: ObjectStore, sha1: Sha1, temp: Bytes) returns (hash: Bytes, output: Result<Bytes, ReadError>)
    requires store.Valid()
    requires |temp| <= LongMax
    modifies store
    ensures output == Success(temp)
  {
    hash := StoreBlob(store, sha1, temp);
    output := ReadBlobObject(store, hash);
    BlobContentOfEncode(temp);
  }

  /**
   * hash-object -w twice on the same file, with createBlobObject as written and
   * an empty `hash` each time as the command line passes it: the second call
   * finds the directory the first one made and reports no name at all.
   */
  method HashObjectTwice(store: ObjectStore, sha1: Sha1, temp: Bytes) returns (first: Bytes, second: Bytes)
    requires store.Valid()
    modifies store
    ensures var name := Sha1Hex(sha1, Encode(BlobKind, temp));
            first == if SplitName(name).0 in old(store.dirs) then [] else name
    ensures second == []
  {
    first := CreateBlobObject(store, sha1, [], temp);
    second := CreateBlobObject(store, sha1, [], temp);
  }

  /**
   * hash-object -w, with createBlobObject as written, on a file whose object is
   * already in the store: every object file lies in an existing directory, so
   * the write is abandoned, nothing changes and no name is reported.
   */
  method HashStoredBlob(store: ObjectStore, sha1: Sha1, temp: Bytes) returns (hash: Bytes)
    requires store.Valid()
    requires SplitName(Sha1Hex(sha1, Encode(BlobKind, temp))) in store.objects
    modifies store
    ensures store.Valid()
    ensures hash == []
    ensures store.dirs == old(store.dirs) && store.objects == old(store.objects)
  {
    hash := CreateBlobObject(store, sha1, [], temp);
  }
}
