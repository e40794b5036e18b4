/**
 * src/tree.cpp and the older copies of the same routines in src/main.cpp: the
 * tree payload "mode name\0<20 raw hash bytes>" per entry, its parser
 * Tree::parseTree, the entry order and mode choice of createTreeHash, and
 * readTreeObject.
 */
module Trees {
  import opened Wrappers
  import opened Text
  import opened Helper

  /**
   * TreeEntries. Entries built by createTreeHash hold the 20 raw hash bytes
   * and leave the type empty; entries parsed by parseTree hold the hash as
   * hex and the type "tree" or "blob".
   */
  datatype TreeEntry = TreeEntry(mode: Bytes, name: Bytes, hash: Bytes, typeName: Bytes)

  const ModeTree: Bytes := "40000"
  const ModeFile: Bytes := "100644"
  const ModeExecutable: Bytes := "100755"
  const ModeSymlink: Bytes := "120000"

  /** The type parseTree gives an entry: "tree" for mode 40000 and "blob" for every other mode. */
  function EntryType(mode: Bytes): (t: Bytes)
    ensures t == "tree" <==> mode == ModeTree
    ensures t != "tree" ==> t == "blob"
  {
    if mode == ModeTree then "tree" else if mode == ModeFile then "blob" else "blob"
  }

  /**
   * One turn of parseTree's loop from `pos`: the mode up to the next space, the
   * name up to the NUL after it, then up to 20 bytes of hash, fewer when the
   * payload ends sooner; the turn ends 20 bytes after the NUL. None where the
   * loop breaks.
   */
  function StepFrom(content: Bytes, pos: nat): (r: Option<(TreeEntry, nat)>)
    ensures r.Some? ==> pos < r.value.1
  {
    match Find(content, SPACE, pos)
    case None => None
    case Some(sp) =>
      match Find(content, NUL, sp + 1)
      case None => None
      case Some(np) =>
        var mode := content[pos..sp];
        Some((TreeEntry(mode, content[sp + 1..np], HashAt(content, np + 1), EntryType(mode)), np + 1 + SHA_DIGEST_LENGTH))
  }

  /** content.substr(start, 20) rendered as hex: 40 characters when 20 bytes remain, fewer otherwise. */
  function HashAt(content: Bytes, start: nat): Bytes
    requires start <= |content|
  {
    var end := if start + SHA_DIGEST_LENGTH <= |content| then start + SHA_DIGEST_LENGTH else |content|;
    HexOf(content[start..end])
  }

  /** The turn that finds the space at sp and the NUL at np. */
  lemma StepFromOf(content: Bytes, pos: nat, sp: nat, np: nat)
    requires Find(content, SPACE, pos) == Some(sp)
    requires Find(content, NUL, sp + 1) == Some(np)
    ensures StepFrom(content, pos) ==
            Some((TreeEntry(content[pos..sp], content[sp + 1..np], HashAt(content, np + 1), EntryType(content[pos..sp])),
                  np + 1 + SHA_DIGEST_LENGTH))
  {
  }

  /** What parseTree appends when it starts at `pos`: entries until the bytes run out or a separator is missing. */
  function ParseFrom(content: Bytes, pos: nat): seq<TreeEntry>
    decreases |content| - pos
  {
    if pos >= |content| then []
    else match StepFrom(content, pos)
      case None => []
      case Some((entry, next)) => [entry] + ParseFrom(content, next)
  }

  /**
   * What one turn reads: the type is "tree" exactly for mode 40000 and "blob"
   * otherwise; the hash has 40 hex characters, fewer only when the payload ends
   * inside it.
   */
  lemma StepFromShape(content: Bytes, pos: nat)
    ensures StepFrom(content, pos).Some? ==>
              var (entry, next) := StepFrom(content, pos).value;
              (entry.typeName == "tree" <==> entry.mode == ModeTree) &&
              (entry.typeName == "tree" || entry.typeName == "blob") &&
              |entry.hash| <= 2 * SHA_DIGEST_LENGTH &&
              (next <= |content| ==> |entry.hash| == 2 * SHA_DIGEST_LENGTH)
  {
  }

  /** Every entry parseTree reads has the type its mode gives and a hash of at most 40 hex characters. */
  lemma {:induction false} ParseFromShape(content: Bytes, pos: nat)
    ensures forall i :: 0 <= i < |ParseFrom(content, pos)| ==>
              (ParseFrom(content, pos)[i].typeName == "tree" <==> ParseFrom(content, pos)[i].mode == ModeTree) &&
              |ParseFrom(content, pos)[i].hash| <= 2 * SHA_DIGEST_LENGTH
    decreases |content| - pos
  {
    if pos < |content| {
      StepFromShape(content, pos);
      ParseFromStep(content, pos);
      if StepFrom(content, pos).Some? {
        var (entry, next) := StepFrom(content, pos).value;
        ParseFromShape(content, next);
        var r := ParseFrom(content, pos);
        forall i | 0 <= i < |r|
          ensures (r[i].typeName == "tree" <==> r[i].mode == ModeTree) && |r[i].hash| <= 2 * SHA_DIGEST_LENGTH
        {
          if i > 0 {
            assert r[i] == ParseFrom(content, next)[i - 1];
          }
        }
      }
    }
  }

  /** ParseFrom takes one turn at a time. */
  lemma ParseFromStep(content: Bytes, pos: nat)
    requires pos < |content|
    ensures StepFrom(content, pos).None? ==> ParseFrom(content, pos) == []
    ensures StepFrom(content, pos).Some? ==>
              ParseFrom(content, pos) == [StepFrom(content, pos).value.0] + ParseFrom(content, StepFrom(content, pos).value.1)
  {
  }

  /** A turn that reads `entry` and moves to `next` puts `entry` in front of what follows. */
  lemma ParseFromTurn(content: Bytes, pos: nat, entry: TreeEntry, next: nat)
    requires pos < |content| && StepFrom(content, pos) == Some((entry, next))
    ensures ParseFrom(content, pos) == [entry] + ParseFrom(content, next)
  {
  }

  /** What parseTree appends for a whole payload. */
  function ParseEntries(content: Bytes): seq<TreeEntry> {
    ParseFrom(content, 0)
  }

  /**
   * The two copies of createTreeHash: src/tree.cpp skips a ".git" directory and
   * orders entries by name alone; src/main.cpp keeps ".git" and breaks ties
   * between equal names by mode.
   */
  datatype Edition = SplitSources | SingleFile

  /** The comparator handed to std::sort: operator< on names, and in the single-file copy on modes when the names are equal. */
  predicate Less(edition: Edition, a: TreeEntry, b: TreeEntry) {
    match edition
    case SplitSources => Below(a.name, b.name)
    case SingleFile => if a.name == b.name then Below(a.mode, b.mode) else Below(a.name, b.name)
  }

  /** Neither comparator puts an entry before itself, and none puts two entries before each other. */
  lemma LessAsymmetric(edition: Edition, a: TreeEntry, b: TreeEntry)
    requires Less(edition, a, b)
    ensures !Less(edition, b, a)
  {
    if a.name == b.name {
      BelowIrreflexive(a.name);
      if edition == SingleFile {
        BelowAsymmetric(a.mode, b.mode);
      }
    } else {
      BelowAsymmetric(a.name, b.name);
    }
  }

  /** Ascending order under the comparator: no entry is less than the one before it. */
  predicate Ordered(edition: Edition, s: seq<TreeEntry>) {
    forall i :: 0 < i < |s| ==> !Less(edition, s[i], s[i - 1])
  }

  /** `x` placed into the ordered `s` after every entry it is not less than. */
  function Insert(edition: Edition, s: seq<TreeEntry>, x: TreeEntry): (r: seq<TreeEntry>)
    ensures |r| == |s| + 1
    decreases |s|
  {
    if s == [] || !Less(edition, x, s[|s| - 1]) then s + [x]
    else Insert(edition, s[..|s| - 1], x) + [s[|s| - 1]]
  }

  /** The order std::sort leaves the entries in: insertion of each entry in turn into the sorted prefix. */
  function Sorted(edition: Edition, s: seq<TreeEntry>): (r: seq<TreeEntry>)
    ensures |r| == |s|
    decreases |s|
  {
    if s == [] then [] else Insert(edition, Sorted(edition, s[..|s| - 1]), s[|s| - 1])
  }

  /** Insertion adds exactly `x`. */
  lemma {:induction false} InsertPermutes(edition: Edition, s: seq<TreeEntry>, x: TreeEntry)
    ensures multiset(Insert(edition, s, x)) == multiset(s) + multiset{x}
    decreases |s|
  {
    if s != [] && Less(edition, x, s[|s| - 1]) {
      var init := s[..|s| - 1];
      assert s == init + [s[|s| - 1]];
      InsertPermutes(edition, init, x);
    }
  }

  /** Insertion ends with `x` or with the old last entry. */
  lemma {:induction false} InsertLast(edition: Edition, s: seq<TreeEntry>, x: TreeEntry)
    ensures var r := Insert(edition, s, x); r[|r| - 1] == x || (s != [] && r[|r| - 1] == s[|s| - 1])
  {
  }

  /** Insertion keeps a sequence ordered. */
  lemma {:induction false} InsertOrdered(edition: Edition, s: seq<TreeEntry>, x: TreeEntry)
    requires Ordered(edition, s)
    ensures Ordered(edition, Insert(edition, s, x))
    decreases |s|
  {
    if s != [] && Less(edition, x, s[|s| - 1]) {
      var init := s[..|s| - 1];
      var last := s[|s| - 1];
      assert Ordered(edition, init);
      InsertOrdered(edition, init, x);
      InsertLast(edition, init, x);
      var r0 := Insert(edition, init, x);
      LessAsymmetric(edition, x, last);
      if init != [] {
        assert !Less(edition, last, init[|init| - 1]);
      }
      assert !Less(edition, last, r0[|r0| - 1]);
      var r := r0 + [last];
      forall i | 0 < i < |r|
        ensures !Less(edition, r[i], r[i - 1])
      {
        if i < |r0| {
          assert r[i] == r0[i] && r[i - 1] == r0[i - 1];
        }
      }
    }
  }

  /** Sorting one more entry inserts it into the sorted prefix. */
  lemma SortedPrefix(edition: Edition, s: seq<TreeEntry>, i: nat)
    requires i < |s|
    ensures Sorted(edition, s[..i + 1]) == Insert(edition, Sorted(edition, s[..i]), s[i])
  {
    assert s[..i + 1][..i] == s[..i];
  }

  /** Moving `x` one place further left when it is less than the entry before it. */
  lemma InsertStep(edition: Edition, p: seq<TreeEntry>, j: nat, x: TreeEntry)
    requires 0 < j <= |p| && Less(edition, x, p[j - 1])
    requires Insert(edition, p, x) == Insert(edition, p[..j], x) + p[j..]
    ensures Insert(edition, p, x) == Insert(edition, p[..j - 1], x) + p[j - 1..]
  {
    assert p[..j][..j - 1] == p[..j - 1];
    assert [p[j - 1]] + p[j..] == p[j - 1..];
  }

  /** Where `x` stops: at the front, or after an entry it is not less than. */
  lemma InsertStop(edition: Edition, p: seq<TreeEntry>, j: nat, x: TreeEntry)
    requires j <= |p| && (j == 0 || !Less(edition, x, p[j - 1]))
    requires Insert(edition, p, x) == Insert(edition, p[..j], x) + p[j..]
    ensures Insert(edition, p, x) == p[..j] + [x] + p[j..]
  {
  }

  /** The sort puts the entries in ascending order. */
  lemma {:induction false} SortedOrdered(edition: Edition, s: seq<TreeEntry>)
    ensures Ordered(edition, Sorted(edition, s))
    decreases |s|
  {
    if s != [] {
      var init := s[..|s| - 1];
      SortedOrdered(edition, init);
      InsertOrdered(edition, Sorted(edition, init), s[|s| - 1]);
    }
  }

  /** A permutation of `init` with `last` added is a permutation of `init + [last]`. */
  lemma MultisetStep(r: seq<TreeEntry>, p: seq<TreeEntry>, s: seq<TreeEntry>)
    requires s != []
    requires multiset(r) == multiset(p) + multiset{s[|s| - 1]} && multiset(p) == multiset(s[..|s| - 1])
    ensures multiset(r) == multiset(s)
  {
    assert s == s[..|s| - 1] + [s[|s| - 1]];
  }

  /** Sorting one more entry adds exactly that entry. */
  lemma SortedStepPermutes(edition: Edition, s: seq<TreeEntry>)
    requires s != []
    ensures multiset(Sorted(edition, s)) == multiset(Sorted(edition, s[..|s| - 1])) + multiset{s[|s| - 1]}
  {
    InsertPermutes(edition, Sorted(edition, s[..|s| - 1]), s[|s| - 1]);
  }

  /** The sort is a permutation of the entries. */
  lemma {:induction false} SortedPermutes(edition: Edition, s: seq<TreeEntry>)
    ensures multiset(Sorted(edition, s)) == multiset(s)
    decreases |s|
  {
    if s != [] {
      var init := s[..|s| - 1];
      SortedPermutes(edition, init);
      SortedStepPermutes(edition, s);
      MultisetStep(Sorted(edition, s), Sorted(edition, init), s);
    }
  }

  /**
   * On two entries with the same name the copies part ways: src/tree.cpp's
   * comparator puts neither first, so std::sort may leave them either way
   * round, while src/main.cpp's orders them by mode.
   */
  lemma ComparatorsOnTies(a: TreeEntry, b: TreeEntry)
    requires a.name == b.name
    ensures !Less(SplitSources, a, b) && !Less(SplitSources, b, a)
    ensures Less(SingleFile, a, b) <==> Below(a.mode, b.mode)
  {
    BelowIrreflexive(a.name);
  }

  /** No two entries share a name, as in the listing of one directory. */
  predicate DistinctNames(s: seq<TreeEntry>) {
    forall i, j :: 0 <= i < j < |s| ==> s[i].name != s[j].name
  }

  /** Inserting an entry whose name no other entry has goes the same way under both comparators. */
  lemma {:induction false} InsertAgree(s: seq<TreeEntry>, x: TreeEntry)
    requires forall i :: 0 <= i < |s| ==> s[i].name != x.name
    ensures Insert(SplitSources, s, x) == Insert(SingleFile, s, x)
    decreases |s|
  {
    if s != [] {
      InsertAgree(s[..|s| - 1], x);
    }
  }

  /** With distinct names the two copies sort the entries into the same order. */
  lemma {:induction false} SortedAgree(s: seq<TreeEntry>)
    requires DistinctNames(s)
    ensures Sorted(SplitSources, s) == Sorted(SingleFile, s)
    decreases |s|
  {
    if s != [] {
      var init := s[..|s| - 1];
      var x := s[|s| - 1];
      SortedAgree(init);
      var p := Sorted(SplitSources, init);
      SortedPermutes(SplitSources, init);
      forall i | 0 <= i < |p| ensures p[i].name != x.name {
        assert p[i] in multiset(p);
        var a :| 0 <= a < |init| && init[a] == p[i];
        assert s[a] == p[i];
      }
      InsertAgree(p, x);
    }
  }

  /** A sequence with distinct names holds each entry at most once. */
  lemma {:induction false} DistinctCountsOnce(s: seq<TreeEntry>, x: TreeEntry)
    requires DistinctNames(s)
    ensures multiset(s)[x] <= 1
    decreases |s|
  {
    if s != [] {
      var init := s[..|s| - 1];
      assert s == init + [s[|s| - 1]];
      DistinctCountsOnce(init, x);
      if x == s[|s| - 1] {
        forall i | 0 <= i < |init| ensures init[i] != x {
          assert s[i] == init[i];
        }
      }
    }
  }

  /** An entry at i that recurs at j is counted twice. */
  lemma CountAtTwo(r: seq<TreeEntry>, i: nat, j: nat)
    requires i < j < |r|
    ensures multiset(r)[r[i]] >= if r[i] == r[j] then 2 else 1
  {
    assert r == r[..j] + r[j..];
    assert r[..j][i] == r[i];
    assert r[j..][0] == r[j];
  }

  /** A permutation of entries with distinct names has distinct names. */
  lemma PermutedDistinct(s: seq<TreeEntry>, r: seq<TreeEntry>)
    requires multiset(s) == multiset(r) && DistinctNames(s)
    ensures DistinctNames(r)
  {
    forall i, j | 0 <= i < j < |r| ensures r[i].name != r[j].name {
      CountAtTwo(r, i, j);
      DistinctCountsOnce(s, r[i]);
      assert r[i] in multiset(s) && r[j] in multiset(s);
      var a :| 0 <= a < |s| && s[a] == r[i];
      var b :| 0 <= b < |s| && s[b] == r[j];
      assert a != b;
    }
  }

  /** In comparator order with distinct names, every name is below every later one. */
  lemma {:induction false} OrderedAscends(edition: Edition, r: seq<TreeEntry>)
    requires Ordered(edition, r) && DistinctNames(r)
    ensures Ascending(r)
    decreases |r|
  {
    if |r| > 1 {
      var n := |r| - 1;
      var init := r[..n];
      OrderedAscends(edition, init);
      assert !Less(edition, r[n], r[n - 1]);
      BelowTotal(r[n - 1].name, r[n].name);
      forall i | 0 <= i < n - 1 ensures Below(r[i].name, r[n].name) {
        assert init[i] == r[i] && init[n - 1] == r[n - 1];
        BelowTransitive(r[i].name, r[n - 1].name, r[n].name);
      }
      forall i, j | 0 <= i < j < n ensures Below(r[i].name, r[j].name) {
        assert init[i] == r[i] && init[j] == r[j];
      }
    }
  }

  /** Every name is below every later one. */
  predicate Ascending(r: seq<TreeEntry>) {
    forall i, j :: 0 <= i < j < |r| ==> Below(r[i].name, r[j].name)
  }

  /** The rest of an ascending arrangement is ascending. */
  lemma AscendingTail(r: seq<TreeEntry>)
    requires r != [] && Ascending(r)
    ensures Ascending(r[1..])
  {
    forall i, j | 0 <= i < j < |r| - 1 ensures Below(r[1..][i].name, r[1..][j].name) {
      assert r[1..][i] == r[i + 1] && r[1..][j] == r[j + 1];
    }
  }

  /** Two ascending arrangements of the same entries start with the same entry. */
  lemma AscendingHead(r1: seq<TreeEntry>, r2: seq<TreeEntry>)
    requires r1 != [] && multiset(r1) == multiset(r2)
    requires Ascending(r1) && Ascending(r2)
    ensures r1[0] == r2[0]
  {
    var x, y := r1[0], r2[0];
    assert x in multiset(r2) && y in multiset(r1);
    var k :| 0 <= k < |r2| && r2[k] == x;
    var m :| 0 <= m < |r1| && r1[m] == y;
    if k > 0 && m > 0 {
      BelowAsymmetric(x.name, y.name);
      assert false;
    }
  }

  /** Two strictly ascending arrangements of the same entries are the same sequence. */
  lemma {:induction false} AscendingUnique(r1: seq<TreeEntry>, r2: seq<TreeEntry>)
    requires multiset(r1) == multiset(r2)
    requires Ascending(r1) && Ascending(r2)
    ensures r1 == r2
    decreases |r1|
  {
    assert |r1| == |multiset(r1)| == |multiset(r2)| == |r2|;
    if r1 != [] {
      AscendingHead(r1, r2);
      DropHead(r1);
      DropHead(r2);
      AscendingTail(r1);
      AscendingTail(r2);
      AscendingUnique(r1[1..], r2[1..]);
      assert r1 == [r1[0]] + r1[1..] && r2 == [r2[0]] + r2[1..];
    }
  }

  lemma DropHead(r: seq<TreeEntry>)
    requires r != []
    ensures r == [r[0]] + r[1..]
    ensures multiset(r[1..]) == multiset(r) - multiset{r[0]}
  {
    assert r == [r[0]] + r[1..];
  }

  /**
   * The sort's result depends only on which entries there are, not on the
   * order they come in, when their names are distinct: the tree object of a
   * directory is the same whatever order the listing yields.
   */
  lemma SortedIndependent(edition: Edition, s: seq<TreeEntry>, t: seq<TreeEntry>)
    requires multiset(s) == multiset(t) && DistinctNames(s)
    ensures Sorted(edition, s) == Sorted(edition, t)
  {
    var r1, r2 := Sorted(edition, s), Sorted(edition, t);
    SortedPermutes(edition, s);
    SortedPermutes(edition, t);
    SortedOrdered(edition, s);
    SortedOrdered(edition, t);
    PermutedDistinct(s, r1);
    PermutedDistinct(s, r2);
    OrderedAscends(edition, r1);
    OrderedAscends(edition, r2);
    AscendingUnique(r1, r2);
  }

  /** One entry of the tree payload: mode, a space, name, a NUL, then the raw hash bytes. */
  function EntryBytes(e: TreeEntry): Bytes {
    e.mode + [SPACE] + e.name + [NUL] + e.hash
  }

  /** The tree payload: the entries' bytes one after the other, in the order given. */
  function Payload(entries: seq<TreeEntry>): Bytes {
    if entries == [] then [] else EntryBytes(entries[0]) + Payload(entries[1..])
  }

  /** Appending an entry appends its bytes to the payload. */
  lemma {:induction false} PayloadSnoc(entries: seq<TreeEntry>, e: TreeEntry)
    ensures Payload(entries + [e]) == Payload(entries) + EntryBytes(e)
  {
    if entries == [] {
      assert entries + [e] == [e];
    } else {
      assert (entries + [e])[1..] == entries[1..] + [e];
      PayloadSnoc(entries[1..], e);
    }
  }

  /** An entry the payload can carry so that parseTree reads it back: no space in the mode, no NUL in the name, a 20-byte hash. */
  predicate Encodable(e: TreeEntry) {
    SPACE !in e.mode && NUL !in e.name && |e.hash| == SHA_DIGEST_LENGTH
  }

  /** The entry parseTree reads back for a built one: the hash as hex, and the type its mode gives. */
  function Parsed(e: TreeEntry): TreeEntry {
    TreeEntry(e.mode, e.name, HexOf(e.hash), EntryType(e.mode))
  }

  function ParsedAll(entries: seq<TreeEntry>): (r: seq<TreeEntry>)
    ensures |r| == |entries|
  {
    if entries == [] then [] else [Parsed(entries[0])] + ParsedAll(entries[1..])
  }

  /** A window of `content` that equals `w` holds w's slices at the same offsets. */
  lemma WindowSlice(content: Bytes, pos: nat, w: Bytes, i: nat, j: nat)
    requires pos + |w| <= |content| && content[pos..pos + |w|] == w
    requires i <= j <= |w|
    ensures content[pos + i..pos + j] == w[i..j]
  {
    forall k | 0 <= k < j - i ensures content[pos + i..pos + j][k] == w[i..j][k] {
      assert content[pos + i + k] == content[pos..pos + |w|][i + k];
    }
  }

  /** find(c, a) lands on b when the bytes from a up to b hold no c and b holds c. */
  lemma FindAfterRun(s: Bytes, c: Byte, a: nat, b: nat)
    requires a <= b < |s| && s[b] == c && c !in s[a..b]
    ensures Find(s, c, a) == Some(b)
  {
    forall i | a <= i < b ensures s[i] != c {
      assert s[i] == s[a..b][i - a];
    }
    FindFirst(s, c, a, b);
  }

  /** A turn of parseTree over a mode with no space, a name with no NUL and 20 hash bytes, laid out at `pos`. */
  lemma TurnOn(content: Bytes, pos: nat, mode: Bytes, name: Bytes, hash: Bytes)
    requires SPACE !in mode && NUL !in name && |hash| == SHA_DIGEST_LENGTH
    requires pos + |mode| + |name| + 2 + |hash| <= |content|
    requires content[pos..pos + |mode|] == mode && content[pos + |mode|] == SPACE
    requires content[pos + |mode| + 1..pos + |mode| + 1 + |name|] == name && content[pos + |mode| + 1 + |name|] == NUL
    requires content[pos + |mode| + |name| + 2..pos + |mode| + |name| + 2 + |hash|] == hash
    ensures StepFrom(content, pos) ==
            Some((TreeEntry(mode, name, HexOf(hash), EntryType(mode)), pos + |mode| + |name| + 2 + |hash|))
  {
    var sp := pos + |mode|;
    var np := sp + 1 + |name|;
    FindAfterRun(content, SPACE, pos, sp);
    FindAfterRun(content, NUL, sp + 1, np);
    StepFromParts(content, pos, sp, np, mode, name, hash);
  }

  /** The turn that finds the space at sp and the NUL at np, in terms of what lies between them. */
  lemma StepFromParts(content: Bytes, pos: nat, sp: nat, np: nat, mode: Bytes, name: Bytes, hash: Bytes)
    requires Find(content, SPACE, pos) == Some(sp) && Find(content, NUL, sp + 1) == Some(np)
    requires content[pos..sp] == mode && content[sp + 1..np] == name
    requires np + 1 + SHA_DIGEST_LENGTH <= |content| && content[np + 1..np + 1 + SHA_DIGEST_LENGTH] == hash
    ensures StepFrom(content, pos) == Some((TreeEntry(mode, name, HexOf(hash), EntryType(mode)), np + 1 + SHA_DIGEST_LENGTH))
  {
    StepFromOf(content, pos, sp, np);
  }

  /** The bytes of an entry laid out at `pos`: its mode, a space, its name, a NUL and its hash, at their offsets. */
  lemma EntryWindow(content: Bytes, pos: nat, e: TreeEntry)
    requires pos + |EntryBytes(e)| <= |content| && content[pos..pos + |EntryBytes(e)|] == EntryBytes(e)
    ensures |EntryBytes(e)| == |e.mode| + |e.name| + 2 + |e.hash|
    ensures content[pos..pos + |e.mode|] == e.mode && content[pos + |e.mode|] == SPACE
    ensures content[pos + |e.mode| + 1..pos + |e.mode| + 1 + |e.name|] == e.name
    ensures content[pos + |e.mode| + 1 + |e.name|] == NUL
    ensures content[pos + |e.mode| + |e.name| + 2..pos + |e.mode| + |e.name| + 2 + |e.hash|] == e.hash
  {
    var w := EntryBytes(e);
    var m := |e.mode|;
    var n := m + 1 + |e.name|;
    EntryBytesParts(e);
    WindowSlice(content, pos, w, 0, m);
    WindowSlice(content, pos, w, m + 1, n);
    WindowSlice(content, pos, w, n + 1, |w|);
    WindowIndex(content, pos, w, m);
    WindowIndex(content, pos, w, n);
  }

  /** Where the mode, the space, the name, the NUL and the hash sit in an entry's bytes. */
  lemma EntryBytesParts(e: TreeEntry)
    ensures var w := EntryBytes(e);
            var m := |e.mode|;
            var n := m + 1 + |e.name|;
            |w| == n + 1 + |e.hash| &&
            w[..m] == e.mode && w[m] == SPACE && w[m + 1..n] == e.name && w[n] == NUL && w[n + 1..] == e.hash
  {
    var a := e.mode + [SPACE];
    var b := a + e.name;
    var c := b + [NUL];
    assert EntryBytes(e) == c + e.hash;
    assert c[..|b|] == b && b[..|a|] == a;
  }

  /** A window of `content` that equals `w` holds w's bytes at the same offsets. */
  lemma WindowIndex(content: Bytes, pos: nat, w: Bytes, i: nat)
    requires pos + |w| <= |content| && content[pos..pos + |w|] == w
    requires i < |w|
    ensures content[pos + i] == w[i]
  {
    assert content[pos + i] == content[pos..pos + |w|][i];
  }

  /** A turn of parseTree that starts on an encoded entry reads that entry and ends just after its hash. */
  lemma EntryTurn(content: Bytes, pos: nat, e: TreeEntry)
    requires Encodable(e)
    requires pos + |EntryBytes(e)| <= |content| && content[pos..pos + |EntryBytes(e)|] == EntryBytes(e)
    ensures StepFrom(content, pos) == Some((Parsed(e), pos + |EntryBytes(e)|))
  {
    EntryWindow(content, pos, e);
    TurnOn(content, pos, e.mode, e.name, e.hash);
  }

  /** A suffix that starts with `w` holds `w` as a window, and what follows it as the next suffix. */
  lemma SuffixSplit(content: Bytes, pos: nat, w: Bytes, rest: Bytes)
    requires pos <= |content| && content[pos..] == w + rest
    ensures pos + |w| <= |content|
    ensures content[pos..pos + |w|] == w && content[pos + |w|..] == rest
  {
    assert content[pos..pos + |w|] == content[pos..][..|w|];
    assert content[pos + |w|..] == content[pos..][|w|..];
  }

  /** Two turns of the parse chain into one: what is read from `pos` to `next`, then from `next` to `after`. */
  lemma ParseChain(content: Bytes, pos: nat, next: nat, after: nat, x: TreeEntry, a: seq<TreeEntry>, b: seq<TreeEntry>)
    requires b == [x] + a
    requires ParseFrom(content, pos) == [x] + ParseFrom(content, next)
    requires ParseFrom(content, next) == a + ParseFrom(content, after)
    ensures ParseFrom(content, pos) == b + ParseFrom(content, after)
  {
    ConcatAssoc([x], a, ParseFrom(content, after));
  }

  lemma ConcatAssoc(a: seq<TreeEntry>, b: seq<TreeEntry>, c: seq<TreeEntry>)
    ensures a + (b + c) == (a + b) + c
  {
  }

  /** Encodable entries laid out one after the other from `pos`. */
  predicate PayloadAt(content: Bytes, pos: nat, entries: seq<TreeEntry>)
    decreases |entries|
  {
    entries == [] ||
    (Encodable(entries[0]) &&
     pos + |EntryBytes(entries[0])| <= |content| &&
     content[pos..pos + |EntryBytes(entries[0])|] == EntryBytes(entries[0]) &&
     PayloadAt(content, pos + |EntryBytes(entries[0])|, entries[1..]))
  }

  /** The payload of encodable entries, followed by anything, lays them out from where it starts. */
  lemma {:induction false} PayloadLaysOut(content: Bytes, pos: nat, entries: seq<TreeEntry>, tail: Bytes)
    requires forall i :: 0 <= i < |entries| ==> Encodable(entries[i])
    requires pos <= |content| && content[pos..] == Payload(entries) + tail
    ensures pos + |Payload(entries)| <= |content|
    ensures PayloadAt(content, pos, entries)
    decreases |entries|
  {
    if entries != [] {
      var w := EntryBytes(entries[0]);
      var rest := Payload(entries[1..]);
      assert Payload(entries) == w + rest;
      assert content[pos..] == w + (rest + tail);
      SuffixSplit(content, pos, w, rest + tail);
      PayloadLaysOut(content, pos + |w|, entries[1..], tail);
    }
  }

  /** Each turn of parseTree from `pos` reads the next of `entries` and ends where the entry after it starts. */
  predicate Reads(content: Bytes, pos: nat, entries: seq<TreeEntry>)
    decreases |entries|
  {
    entries == [] ||
    (pos < |content| &&
     StepFrom(content, pos) == Some((Parsed(entries[0]), pos + |EntryBytes(entries[0])|)) &&
     Reads(content, pos + |EntryBytes(entries[0])|, entries[1..]))
  }

  /** Laid-out entries are read back turn by turn. */
  lemma {:induction false} LaidOutReads(content: Bytes, pos: nat, entries: seq<TreeEntry>)
    requires PayloadAt(content, pos, entries)
    ensures Reads(content, pos, entries)
    decreases |entries|
  {
    if entries != [] {
      LaidOutReads(content, pos + |EntryBytes(entries[0])|, entries[1..]);
      ReadsCons(content, pos, entries);
    }
  }

  /** A window holding the first entry, followed by turns that read the rest. */
  lemma ReadsCons(content: Bytes, pos: nat, entries: seq<TreeEntry>)
    requires entries != [] && Encodable(entries[0])
    requires pos + |EntryBytes(entries[0])| <= |content|
    requires content[pos..pos + |EntryBytes(entries[0])|] == EntryBytes(entries[0])
    requires Reads(content, pos + |EntryBytes(entries[0])|, entries[1..])
    ensures Reads(content, pos, entries)
  {
    EntryTurn(content, pos, entries[0]);
    assert |EntryBytes(entries[0])| > 0;
  }

  /** parseTree collects what its turns read, then carries on with whatever follows them. */
  lemma {:induction false} ParseReads(content: Bytes, pos: nat, entries: seq<TreeEntry>, after: nat)
    requires Reads(content, pos, entries)
    requires after == pos + |Payload(entries)|
    ensures ParseFrom(content, pos) == ParsedAll(entries) + ParseFrom(content, after)
    decreases |entries|
  {
    if entries == [] {
      assert ParsedAll(entries) + ParseFrom(content, pos) == ParseFrom(content, pos);
    } else {
      var e := entries[0];
      var next := pos + |EntryBytes(e)|;
      assert |Payload(entries)| == |EntryBytes(e)| + |Payload(entries[1..])|;
      ParseFromTurn(content, pos, Parsed(e), next);
      ParseReads(content, next, entries[1..], after);
      ParseChain(content, pos, next, after, Parsed(e), ParsedAll(entries[1..]), ParsedAll(entries));
    }
  }

  /**
   * Round trip: parseTree reads the payload of encodable entries back as the
   * same modes and names in the same order, with the hashes in hex and the
   * type their mode gives.
   */
  lemma ParsePayload(entries: seq<TreeEntry>)
    requires forall i :: 0 <= i < |entries| ==> Encodable(entries[i])
    ensures ParseEntries(Payload(entries)) == ParsedAll(entries)
  {
    assert Payload(entries) + [] == Payload(entries);
    ParseStopsAtTail(entries, []);
  }

  /** A tail without `c` leaves no `c` after the prefix it follows. */
  lemma AbsentAfter(prefix: Bytes, tail: Bytes, c: Byte)
    requires c !in tail
    ensures forall k :: |prefix| <= k < |prefix + tail| ==> (prefix + tail)[k] != c
  {
    forall k | |prefix| <= k < |prefix + tail| ensures (prefix + tail)[k] != c {
      assert (prefix + tail)[k] == tail[k - |prefix|];
    }
  }

  /** Where no space is left, parseTree's loop breaks at once. */
  lemma NoSpaceStops(content: Bytes, pos: nat)
    requires forall k :: pos <= k < |content| ==> content[k] != SPACE
    ensures ParseFrom(content, pos) == []
  {
    if pos < |content| {
      assert Find(content, SPACE, pos).None?;
      ParseFromStep(content, pos);
    }
  }

  /**
   * parseTree stops silently at a tail with no space in it: the entries read
   * before it are kept and nothing is reported.
   */
  lemma ParseStopsAtTail(entries: seq<TreeEntry>, tail: Bytes)
    requires forall i :: 0 <= i < |entries| ==> Encodable(entries[i])
    requires SPACE !in tail
    ensures ParseEntries(Payload(entries) + tail) == ParsedAll(entries)
  {
    var c := Payload(entries) + tail;
    var q := |Payload(entries)|;
    DropNone(c);
    PayloadLaysOut(c, 0, entries, tail);
    LaidOutReads(c, 0, entries);
    ParseReads(c, 0, entries, q);
    AbsentAfter(Payload(entries), tail, SPACE);
    NoSpaceStops(c, q);
    AppendNothing(ParsedAll(entries));
  }

  /** Where no NUL is left, parseTree's loop breaks at once: at the missing space, or at the missing NUL after it. */
  lemma NoNulStops(content: Bytes, pos: nat)
    requires forall k :: pos <= k < |content| ==> content[k] != NUL
    ensures ParseFrom(content, pos) == []
  {
    if pos < |content| {
      match Find(content, SPACE, pos)
      case None =>
      case Some(sp) =>
        assert Find(content, NUL, sp + 1).None?;
    }
  }

  /**
   * parseTree stops silently at a tail with no NUL in it, such as an entry cut
   * off inside its name: the entries read before it are kept and nothing is
   * reported.
   */
  lemma ParseStopsAtNoNul(entries: seq<TreeEntry>, tail: Bytes)
    requires forall i :: 0 <= i < |entries| ==> Encodable(entries[i])
    requires NUL !in tail
    ensures ParseEntries(Payload(entries) + tail) == ParsedAll(entries)
  {
    var c := Payload(entries) + tail;
    var q := |Payload(entries)|;
    DropNone(c);
    PayloadLaysOut(c, 0, entries, tail);
    LaidOutReads(c, 0, entries);
    ParseReads(c, 0, entries, q);
    AbsentAfter(Payload(entries), tail, NUL);
    NoNulStops(c, q);
    AppendNothing(ParsedAll(entries));
  }

  lemma DropNone(s: Bytes)
    ensures s[0..] == s
  {
  }

  lemma AppendNothing(s: seq<TreeEntry>)
    ensures s + [] == s
  {
  }

  /** The treeContent loop of createTreeHash: each entry's mode, a space, its name, a NUL and its hash bytes, appended in order. */
  method BuildPayload(entries: seq<TreeEntry>) returns (treeContent: Bytes)
    ensures treeContent == Payload(entries)
  {
    treeContent := [];
    for i := 0 to |entries|
      invariant treeContent == Payload(entries[..i])
    {
      var treeEntry := entries[i];
      treeContent := treeContent + treeEntry.mode;
      treeContent := treeContent + [SPACE];
      treeContent := treeContent + treeEntry.name;
      treeContent := treeContent + [NUL];
      treeContent := treeContent + treeEntry.hash;
      AppendEntry(Payload(entries[..i]), treeEntry);
      PayloadSnoc(entries[..i], treeEntry);
      TakeOneMore(entries, i);
    }
    FullSlice(entries);
  }

  /** Appending an entry's parts one by one appends its bytes. */
  lemma AppendEntry(t: Bytes, e: TreeEntry)
    ensures t + e.mode + [SPACE] + e.name + [NUL] + e.hash == t + EntryBytes(e)
  {
  }

  lemma TakeOneMore(s: seq<TreeEntry>, i: nat)
    requires i < |s|
    ensures s[..i + 1] == s[..i] + [s[i]]
  {
  }

  /** content.substr(start, 20), as parseTree hands it to byteToHexHash. */
  method HashBytes(content: Bytes, start: nat) returns (hexHash: Bytes)
    requires start <= |content|
    ensures hexHash == HashAt(content, start)
  {
    var end := if start + SHA_DIGEST_LENGTH <= |content| then start + SHA_DIGEST_LENGTH else |content|;
    var byteHash := content[start..end];
    hexHash := ByteToHexHash(byteHash);
  }

  /**
   * One turn of parseTree's loop from `pos`: the entry it appends and where the
   * next turn starts, or None where the loop breaks.
   */
  method ReadEntry(content: Bytes, pos: nat) returns (r: Option<(TreeEntry, nat)>)
    requires pos < |content|
    ensures r == StepFrom(content, pos)
  {
    var spacePos := Find(content, SPACE, pos);
    if spacePos.None? {
      return None;
    }
    var mode := content[pos..spacePos.value];
    var nullPos := Find(content, NUL, spacePos.value + 1);
    if nullPos.None? {
      return None;
    }
    var name := content[spacePos.value + 1..nullPos.value];
    var hexHash := HashBytes(content, nullPos.value + 1);
    StepFromOf(content, pos, spacePos.value, nullPos.value);
    return Some((TreeEntry(mode, name, hexHash, EntryType(mode)), nullPos.value + 1 + SHA_DIGEST_LENGTH));
  }

  /**
   * std::sort with createTreeHash's comparator, as an insertion sort by swaps:
   * each entry in turn moves left past the entries it is less than.
   */
  method SortByComparator(edition: Edition, entries: seq<TreeEntry>) returns (s: seq<TreeEntry>)
    ensures s == Sorted(edition, entries)
  {
    s := entries;
    for i := 0 to |entries|
      invariant |s| == |entries|
      invariant s[..i] == Sorted(edition, entries[..i])
      invariant s[i..] == entries[i..]
    {
      SortedPrefix(edition, entries, i);
      TailStep(s, entries, i);
      s := SiftLeft(edition, s, i);
    }
    FullSlice(s);
    FullSlice(entries);
  }

  /** Sequences that agree from i on agree at i and from i + 1 on. */
  lemma TailStep(s: seq<TreeEntry>, t: seq<TreeEntry>, i: nat)
    requires i < |s| == |t| && s[i..] == t[i..]
    ensures s[i] == t[i] && s[i + 1..] == t[i + 1..]
  {
    assert s[i] == s[i..][0];
    assert s[i + 1..] == s[i..][1..];
    assert t[i + 1..] == t[i..][1..];
  }

  lemma FullSlice(s: seq<TreeEntry>)
    ensures s[..|s|] == s
  {
  }

  /** The inner loop of the insertion: s[i] swapped leftwards while it is less than its left neighbour. */
  method SiftLeft(edition: Edition, s0: seq<TreeEntry>, i: nat) returns (s: seq<TreeEntry>)
    requires i < |s0|
    ensures |s| == |s0|
    ensures s[..i + 1] == Insert(edition, s0[..i], s0[i])
    ensures s[i + 1..] == s0[i + 1..]
  {
    ghost var p := s0[..i];
    ghost var x := s0[i];
    s := s0;
    var j := i;
    assert s[..i + 1] == p[..j] + [x] + p[j..];
    assert p[..j] == p && p[j..] == [];
    while j > 0 && Less(edition, s[j], s[j - 1])
      invariant 0 <= j <= i && |s| == |s0|
      invariant s[..i + 1] == p[..j] + [x] + p[j..]
      invariant s[i + 1..] == s0[i + 1..]
      invariant Insert(edition, p, x) == Insert(edition, p[..j], x) + p[j..]
    {
      SwapLeft(s, i, p, j, x);
      InsertStep(edition, p, j, x);
      s := s[j - 1 := s[j]][j := s[j - 1]];
      j := j - 1;
    }
    InsertStop(edition, p, j, x);
  }

  /** Swapping positions j - 1 and j moves `x` one place left in the prefix and leaves the rest alone. */
  lemma SwapLeft(s: seq<TreeEntry>, i: nat, p: seq<TreeEntry>, j: nat, x: TreeEntry)
    requires 0 < j <= i < |s| && |p| == i
    requires s[..i + 1] == p[..j] + [x] + p[j..]
    ensures s[j] == x && s[j - 1] == p[j - 1]
    ensures var t := s[j - 1 := s[j]][j := s[j - 1]];
            t[..i + 1] == p[..j - 1] + [x] + p[j - 1..] && t[i + 1..] == s[i + 1..]
  {
    assert s[j] == s[..i + 1][j];
    assert s[j - 1] == s[..i + 1][j - 1];
  }

  /** Tree: the entries it has collected. */
  class Tree {
    var entries: seq<TreeEntry>

    constructor ()
      ensures entries == []
    {
      entries := [];
    }

    /**
     * Tree::parseTree: walks the payload, appending one entry per turn, and
     * stops without an error at a missing space or NUL, keeping what it
     * appended before.
     */
    method ParseTree(content: Bytes)
      modifies this
      ensures entries == old(entries) + ParseEntries(content)
    {
      var l := |content|;
      var pos := 0;
      while pos < l
        invariant old(entries) + ParseEntries(content) == entries + ParseFrom(content, pos)
      {
        ParseFromStep(content, pos);
        var turn := ReadEntry(content, pos);
        if turn.None? {
          break;
        }
        var (entry, next) := turn.value;
        assert entries + ([entry] + ParseFrom(content, next)) == (entries + [entry]) + ParseFrom(content, next);
        entries := entries + [entry];
        pos := next;
      }
    }

    /** The std::sort call of createTreeHash. */
    method SortEntries(edition: Edition)
      modifies this
      ensures entries == Sorted(edition, old(entries))
    {
      entries := SortByComparator(edition, entries);
    }
  }
}
