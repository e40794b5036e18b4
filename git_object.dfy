/**
 * src/git_object.h: the object kinds and their names, the GitObject record
 * whose constructor splits an object name into its storage key, and the
 * canonical object encoding "<kind> <decimal length>\0<payload>" with the
 * header/payload split that the readers perform.
 */
module GitObjects {
  import opened Wrappers
  import opened Text

  /** The enum ObjectType. */
  datatype ObjectType = BlobKind | CommitKind | TreeKind

  /**
   * GitObject: the storage key split from an object name, and the fields the
   * readers fill in. The constructor leaves content and type empty and size
   * unset (0 here).
   */
  datatype GitObject = GitObject(dirName: Bytes, fileName: Bytes, content: Bytes, typeName: Bytes, size: int)

  /** Why reading an object throws. */
  datatype ReadError =
    | NameOutOfRange  // std::out_of_range from name.substr(2) on a name shorter than 2
    | NameTooShort    // the runtime_error for a file name part shorter than 2
    | CannotOpen      // zlibDecompression's runtime_error: no file at the object's path
    | MissingNul      // the runtime_error for decompressed bytes without a NUL
    | BadSize         // std::stol cannot read the size in the header

  /** Header::typeAsString. */
  function TypeAsString(t: ObjectType): (s: Bytes)
    ensures ParseTypeName(s) == Some(t)
    ensures SPACE !in s && NUL !in s
  {
    match t
    case BlobKind => "blob"
    case CommitKind => "commit"
    case TreeKind => "tree"
  }

  /** The kind a type name stands for: the inverse of typeAsString. */
  function ParseTypeName(s: Bytes): (r: Option<ObjectType>)
    ensures r.Some? ==> s in {"blob", "commit", "tree"}
  {
    if s == "blob" then Some(BlobKind)
    else if s == "commit" then Some(CommitKind)
    else if s == "tree" then Some(TreeKind)
    else None
  }

  /** typeAsString gives the three kinds three different names. */
  lemma TypeAsStringInjective(a: ObjectType, b: ObjectType)
    requires TypeAsString(a) == TypeAsString(b)
    ensures a == b
  {
    assert ParseTypeName(TypeAsString(a)) == Some(a);
  }

  /** substr(0, 2) and substr(2): the object directory and the file name inside it. */
  function SplitName(name: Bytes): (key: (Bytes, Bytes))
    requires |name| >= 2
    ensures key.0 + key.1 == name && |key.0| == 2
  {
    (name[..2], name[2..])
  }

  /** The GitObject constructor; substr(2) throws when the name is shorter than 2. */
  function NewGitObject(name: Bytes): (r: Result<GitObject, ReadError>)
    ensures r.Success? <==> |name| >= 2
    ensures r.Failure? ==> r.error == NameOutOfRange
    ensures r.Success? ==> r.value.dirName + r.value.fileName == name && |r.value.dirName| == 2
    ensures r.Success? && |name| == 40 ==> |r.value.fileName| == 38
  {
    if |name| < 2 then Failure(NameOutOfRange)
    else
      var (dir, file) := SplitName(name);
      Success(GitObject(dir, file, [], [], 0))
  }

  /** The canonical bytes of an object: "<kind> <decimal payload length>\0" followed by the payload. */
  function Encode(kind: ObjectType, payload: Bytes): Bytes {
    TypeAsString(kind) + " " + Decimal(|payload|) + [NUL] + payload
  }

  /** The header an encoding carries in front of its NUL. */
  function HeaderText(kind: ObjectType, size: nat): Bytes {
    TypeAsString(kind) + " " + Decimal(size)
  }

  /** The split on read: the header before the first NUL and the payload after it; None when there is no NUL. */
  function SplitAtNul(data: Bytes): (r: Option<(Bytes, Bytes)>)
    ensures r.None? <==> NUL !in data
    ensures r.Some? ==> data == r.value.0 + [NUL] + r.value.1 && NUL !in r.value.0
  {
    SplitAt(data, NUL)
  }

  /**
   * The header split at its first space: the type name before it and the size
   * that std::stol reads after it (None when stol throws). With no space, find
   * returns npos and npos + 1 wraps to 0, so both parts are the whole header.
   */
  function ParseHeader(header: Bytes): (r: Option<(Bytes, int)>)
    ensures r.Some? ==> r.value.0 <= header && SPACE !in r.value.0
    ensures r.Some? && r.value.0 != header ==> header[|r.value.0|] == SPACE
    ensures r.Some? ==> LongMin <= r.value.1 <= LongMax
  {
    match Find(header, SPACE, 0)
    case None =>
      (match ParseLong(header) case None => None case Some(n) => Some((header, n)))
    case Some(p) =>
      (match ParseLong(header[p + 1..]) case None => None case Some(n) => Some((header[..p], n)))
  }

  /**
   * Whatever a NUL-free header says, the split returns exactly it and the bytes
   * after it: the size in the header is never compared with the payload.
   */
  lemma SplitAtNulOf(header: Bytes, payload: Bytes)
    requires NUL !in header
    ensures SplitAtNul(header + [NUL] + payload) == Some((header, payload))
  {
    SplitAtOf(header, NUL, payload);
  }

  /** Round trip: the reader splits the canonical encoding into its kind, its payload length and its payload. */
  lemma EncodeRoundTrip(kind: ObjectType, payload: Bytes)
    requires |payload| <= LongMax
    ensures SplitAtNul(Encode(kind, payload)) == Some((HeaderText(kind, |payload|), payload))
    ensures ParseHeader(HeaderText(kind, |payload|)) == Some((TypeAsString(kind), |payload|))
  {
    var name := TypeAsString(kind);
    var size := Decimal(|payload|);
    var header := HeaderText(kind, |payload|);
    DecimalHasNoSeparator(|payload|);
    assert NUL !in header by {
      assert header == name + [SPACE] + size;
    }
    assert Encode(kind, payload) == header + [NUL] + payload;
    SplitAtNulOf(header, payload);
    FindFirst(header, SPACE, 0, |name|);
    assert header[|name| + 1..] == size + [];
    ParseLongDecimal(|payload|, []);
    assert header[..|name|] == name;
  }
}
