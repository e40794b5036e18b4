/**
 * The parts of std::string and of the C library's number conversions that the
 * object codec relies on: byte strings, find, to_string, stol, zero padding and
 * the byte-wise order of operator<.
 */
module Text {
  import opened Wrappers

  /** One byte of a std::string. */
  type Byte = c: char | c as int < 256
  type Bytes = seq<Byte>

  const NUL: Byte := '\0'
  const SPACE: Byte := ' '

  const LongMin: int := -0x8000_0000_0000_0000
  const LongMax: int := 0x7FFF_FFFF_FFFF_FFFF

  /** The byte whose unsigned value is `n`. */
  function ByteOf(n: nat): (b: Byte)
    requires n < 256
    ensures b as int == n
  {
    n as char
  }

  /** std::string::find(c, from): the first position at or after `from` that holds `c`. */
  function Find(s: Bytes, c: Byte, from: nat): (r: Option<nat>)
    ensures r.Some? ==> from <= r.value < |s| && s[r.value] == c
    ensures r.Some? ==> forall i :: from <= i < r.value ==> s[i] != c
    ensures r.None? ==> forall i :: from <= i < |s| ==> s[i] != c
    decreases |s| - from
  {
    if from >= |s| then None
    else if s[from] == c then Some(from)
    else Find(s, c, from + 1)
  }

  /** A byte that is found first at position p is found there from any start up to p. */
  lemma {:induction false} FindFirst(s: Bytes, c: Byte, from: nat, p: nat)
    requires from <= p < |s| && s[p] == c
    requires forall i :: from <= i < p ==> s[i] != c
    ensures Find(s, c, from) == Some(p)
    decreases p - from
  {
    if from < p {
      FindFirst(s, c, from + 1, p);
    }
  }

  /** The text before the first c and the text after it; None when s holds no c. */
  function SplitAt(s: Bytes, c: Byte): (r: Option<(Bytes, Bytes)>)
    ensures r.None? <==> c !in s
    ensures r.Some? ==> s == r.value.0 + [c] + r.value.1 && c !in r.value.0
  {
    match Find(s, c, 0)
    case None => None
    case Some(p) =>
      assert s == s[..p] + [c] + s[p + 1..];
      Some((s[..p], s[p + 1..]))
  }

  /** Splitting u + [c] + v at c gives back u and v when u holds no c. */
  lemma SplitAtOf(u: Bytes, c: Byte, v: Bytes)
    requires c !in u
    ensures SplitAt(u + [c] + v, c) == Some((u, v))
  {
    var s := u + [c] + v;
    FindFirst(s, c, 0, |u|);
    assert s[..|u|] == u && s[|u| + 1..] == v;
  }

  predicate IsDigit(c: Byte) {
    '0' <= c <= '9'
  }

  predicate AllDigits(s: Bytes) {
    forall i :: 0 <= i < |s| ==> IsDigit(s[i])
  }

  /** isspace in the "C" locale. */
  predicate IsSpace(c: Byte) {
    c == ' ' || c == '\t' || c == '\n' || c == '\U{B}' || c == '\U{C}' || c == '\r'
  }

  function DigitChar(d: nat): (c: Byte)
    requires d < 10
    ensures IsDigit(c) && c as int - '0' as int == d
  {
    ('0' as int + d) as char
  }

  function DigitValue(c: Byte): nat
    requires IsDigit(c)
  {
    c as int - '0' as int
  }

  /** The number a string of decimal digits denotes, most significant digit first. */
  function DigitsValue(s: Bytes): nat
    requires AllDigits(s)
  {
    if s == [] then 0 else DigitsValue(s[..|s| - 1]) * 10 + DigitValue(s[|s| - 1])
  }

  /** std::to_string of an unsigned value: its decimal digits, with no leading zero. */
  function Decimal(n: nat): (r: Bytes)
    ensures 0 < |r| && AllDigits(r)
    ensures DigitsValue(r) == n
    ensures r[0] == '0' ==> r == "0"
  {
    if n < 10 then [DigitChar(n)]
    else
      var s := Decimal(n / 10);
      assert (s + [DigitChar(n % 10)])[..|s|] == s;
      s + [DigitChar(n % 10)]
  }

  /** A decimal text holds neither a NUL nor a space. */
  lemma DecimalHasNoSeparator(n: nat)
    ensures NUL !in Decimal(n) && SPACE !in Decimal(n)
  {
    var r := Decimal(n);
    assert forall i :: 0 <= i < |r| ==> r[i] != NUL && r[i] != SPACE by {
      forall i | 0 <= i < |r| ensures r[i] != NUL && r[i] != SPACE {
        assert IsDigit(r[i]);
      }
    }
  }

  /** `operator<<` of a signed long onto a stream: a minus sign for negative values, then the digits. */
  function SignedDecimal(t: int): (r: Bytes)
    ensures 0 < |r|
    ensures t < 0 <==> r[0] == '-'
    ensures t >= 0 ==> r == Decimal(t)
  {
    if t < 0 then "-" + Decimal(-t) else Decimal(t)
  }

  /** std::setw(2) with std::setfill('0') in front of a number's text. */
  function ZeroPad2(s: Bytes): (r: Bytes)
    ensures |r| == if |s| < 2 then 2 else |s|
    ensures r[|r| - |s|..] == s
    ensures forall i :: 0 <= i < |r| - |s| ==> r[i] == '0'
  {
    if |s| == 0 then "00" else if |s| == 1 then "0" + s else s
  }

  /** The longest prefix made of decimal digits. */
  function DigitPrefix(s: Bytes): (r: Bytes)
    ensures r <= s && AllDigits(r)
    ensures |r| < |s| ==> !IsDigit(s[|r|])
  {
    if s != [] && IsDigit(s[0]) then [s[0]] + DigitPrefix(s[1..]) else []
  }

  /**
   * std::stol(s): leading white space, an optional sign and at least one
   * decimal digit; the text after the digits is ignored. No digits, or a value
   * outside the range of a 64-bit long, makes it throw (None).
   */
  function ParseLong(s: Bytes): (r: Option<int>)
    ensures r.Some? ==> LongMin <= r.value <= LongMax
  {
    if s != [] && IsSpace(s[0]) then ParseLong(s[1..]) else ParseSigned(s)
  }

  /** std::stol once the leading white space is skipped: one optional sign, then the digits. */
  function ParseSigned(t: Bytes): (r: Option<int>)
    ensures r.Some? ==> LongMin <= r.value <= LongMax
  {
    if t != [] && (t[0] == '-' || t[0] == '+') then ParseMagnitude(t[1..], t[0] == '-')
    else ParseMagnitude(t, false)
  }

  /** The value of the leading digits of `u`, negated when `negative`; None without digits or out of range. */
  function ParseMagnitude(u: Bytes, negative: bool): (r: Option<int>)
    ensures r.Some? ==> LongMin <= r.value <= LongMax
  {
    var d := DigitPrefix(u);
    if d == [] then None
    else
      var magnitude: int := DigitsValue(d);
      var v := if negative then -magnitude else magnitude;
      if LongMin <= v <= LongMax then Some(v) else None
  }

  /** The digit prefix of a string of digits is the whole string. */
  lemma {:induction false} DigitPrefixOfDigits(s: Bytes)
    requires AllDigits(s)
    ensures DigitPrefix(s) == s
  {
    if s != [] {
      DigitPrefixOfDigits(s[1..]);
    }
  }

  /** std::stol reads back what std::to_string wrote, and ignores what follows a non-digit. */
  lemma ParseLongDecimal(n: nat, rest: Bytes)
    requires n <= LongMax
    requires rest == [] || !IsDigit(rest[0])
    ensures ParseLong(Decimal(n) + rest) == Some(n)
  {
    var s := Decimal(n) + rest;
    assert !IsSpace(s[0]) by { assert IsDigit(s[0]); }
    DigitPrefixAppend(Decimal(n), rest);
  }

  lemma {:induction false} DigitPrefixAppend(s: Bytes, rest: Bytes)
    requires AllDigits(s)
    requires rest == [] || !IsDigit(rest[0])
    ensures DigitPrefix(s + rest) == s
  {
    if s == [] {
      assert s + rest == rest;
    } else {
      assert (s + rest)[1..] == s[1..] + rest;
      DigitPrefixAppend(s[1..], rest);
    }
  }

  /** std::string's operator<: byte-wise lexicographic order (char_traits<char>::lt compares bytes unsigned). */
  predicate Below(a: Bytes, b: Bytes)
    decreases |a|
  {
    if a == [] then b != []
    else if b == [] then false
    else a[0] < b[0] || (a[0] == b[0] && Below(a[1..], b[1..]))
  }

  lemma {:induction false} BelowIrreflexive(a: Bytes)
    ensures !Below(a, a)
  {
    if a != [] {
      BelowIrreflexive(a[1..]);
    }
  }

  lemma {:induction false} BelowTransitive(a: Bytes, b: Bytes, c: Bytes)
    requires Below(a, b) && Below(b, c)
    ensures Below(a, c)
    decreases |a|
  {
    if a != [] && a[0] == b[0] && b[0] == c[0] {
      BelowTransitive(a[1..], b[1..], c[1..]);
    }
  }

  lemma {:induction false} BelowTotal(a: Bytes, b: Bytes)
    requires a != b
    ensures Below(a, b) || Below(b, a)
    decreases |a|
  {
    if a != [] && b != [] && a[0] == b[0] {
      assert a == [a[0]] + a[1..] && b == [b[0]] + b[1..];
      BelowTotal(a[1..], b[1..]);
    }
  }

  lemma BelowAsymmetric(a: Bytes, b: Bytes)
    requires Below(a, b)
    ensures !Below(b, a)
  {
    if Below(b, a) {
      BelowTransitive(a, b, a);
      BelowIrreflexive(a);
    }
  }
}
