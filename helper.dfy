/**
 * src/helper.cpp: the lowercase base16 codec between raw digests and the
 * 40-character object names (section 8 of RFC 4648, lowercase alphabet), and
 * the hex rendering of a SHA-1 digest.
 */
module Helper {
  import opened Wrappers
  import opened Text

  const SHA_DIGEST_LENGTH: nat := 20

  /** A SHA-1 digest: SHA_DIGEST_LENGTH raw bytes. */
  type Digest = s: Bytes | |s| == SHA_DIGEST_LENGTH witness seq(20, _ => NUL)

  /**
   * OpenSSL's SHA1 is not part of this model; every operation that needs a
   * digest takes the digest function as a parameter.
   */
  type Sha1 = Bytes -> Digest

  /** Why hexToByteHash throws. */
  datatype HexError =
    | OddLength    // the runtime_error for an odd number of characters
    | NotHexDigit  // std::invalid_argument from std::stoul on a pair it cannot read

  /** A character of the lowercase alphabet that byteToHexHash writes. */
  predicate IsLowerHex(c: Byte) {
    '0' <= c <= '9' || 'a' <= c <= 'f'
  }

  /** isxdigit in the "C" locale: std::stoul with base 16 also reads upper case. */
  predicate IsHexDigit(c: Byte) {
    '0' <= c <= '9' || 'a' <= c <= 'f' || 'A' <= c <= 'F'
  }

  function HexValue(c: Byte): (v: nat)
    requires IsHexDigit(c)
    ensures v < 16
  {
    if c <= '9' then c as int - '0' as int
    else if c <= 'F' then c as int - 'A' as int + 10
    else c as int - 'a' as int + 10
  }

  /** The lowercase digit std::hex writes for a value below 16. */
  function HexDigit(d: nat): (c: Byte)
    requires d < 16
    ensures IsLowerHex(c) && IsHexDigit(c) && HexValue(c) == d
  {
    if d < 10 then DigitChar(d) else ByteOf('a' as int + d - 10)
  }

  /** What `std::hex << std::setw(2) << std::setfill('0') << (int) b` writes: two digits, high nibble first. */
  function HexPair(b: Byte): Bytes {
    [HexDigit(b as int / 16), HexDigit(b as int % 16)]
  }

  /** The lowercase hex rendering of a byte string. */
  function HexOf(bytes: Bytes): (hex: Bytes)
    ensures |hex| == 2 * |bytes|
    ensures forall i :: 0 <= i < |bytes| ==>
              hex[2 * i] == HexDigit(bytes[i] as int / 16) && hex[2 * i + 1] == HexDigit(bytes[i] as int % 16)
  {
    if bytes == [] then [] else HexPair(bytes[0]) + HexOf(bytes[1..])
  }

  lemma {:induction false} HexOfAppend(a: Bytes, b: Bytes)
    ensures HexOf(a + b) == HexOf(a) + HexOf(b)
  {
    if a != [] {
      assert (a + b)[0] == a[0];
      assert (a + b)[1..] == a[1..] + b;
      HexOfAppend(a[1..], b);
    } else {
      assert a + b == b;
    }
  }

  /** Every character of a rendering is a lowercase hex digit. */
  lemma HexOfIsLowerHex(bytes: Bytes)
    ensures forall k :: 0 <= k < |HexOf(bytes)| ==> IsLowerHex(HexOf(bytes)[k])
  {
    var hex := HexOf(bytes);
    forall k | 0 <= k < |hex| ensures IsLowerHex(hex[k]) {
      var i := k / 2;
      assert hex[2 * i] == HexDigit(bytes[i] as int / 16);
      assert k == 2 * i || k == 2 * i + 1;
    }
  }

  /**
   * byteToHexHash: the rendering of the `len` input bytes, two lowercase digits
   * per byte in input order; byte i becomes characters 2i and 2i+1.
   */
  method ByteToHexHash(byteHash: Bytes) returns (hexHash: Bytes)
    ensures hexHash == HexOf(byteHash)
    ensures |hexHash| == 2 * |byteHash|
  {
    var charHash: Bytes := [];
    for i := 0 to |byteHash|
      invariant charHash == HexOf(byteHash[..i])
    {
      HexOfAppend(byteHash[..i], [byteHash[i]]);
      assert byteHash[..i + 1] == byteHash[..i] + [byteHash[i]];
      charHash := charHash + HexPair(byteHash[i]);
    }
    assert byteHash[..|byteHash|] == byteHash;
    hexHash := charHash;
  }

  /**
   * `static_cast<unsigned char>(std::stoul(pair, nullptr, 16))` on a two-character
   * pair. strtoul skips leading white space, takes one optional sign, then reads
   * hex digits up to the first other character ("0x" reads as 0); with no digit
   * std::stoul throws (None). A minus sign negates modulo 2^64, and the cast keeps
   * the low byte.
   */
  function PairValue(hi: Byte, lo: Byte): Option<Byte> {
    if IsHexDigit(hi) then
      Some(if IsHexDigit(lo) then ByteOf(16 * HexValue(hi) + HexValue(lo)) else ByteOf(HexValue(hi)))
    else if (IsSpace(hi) || hi == '+') && IsHexDigit(lo) then Some(ByteOf(HexValue(lo)))
    else if hi == '-' && IsHexDigit(lo) then Some(ByteOf((256 - HexValue(lo)) % 256))
    else None
  }

  /** The bytes hexToByteHash appends for an even-length `hex`: one per pair, in order; None at the first pair stoul rejects. */
  function DecodeHex(hex: Bytes): Option<Bytes>
    requires |hex| % 2 == 0
    decreases |hex|
  {
    if hex == [] then Some([])
    else
      match PairValue(hex[0], hex[1])
      case None => None
      case Some(b) =>
        match DecodeHex(hex[2..])
        case None => None
        case Some(rest) => Some([b] + rest)
  }

  /** Decoding succeeds exactly when every pair is readable, and then gives one byte per pair, in order. */
  lemma {:induction false} DecodeHexPairs(hex: Bytes)
    requires |hex| % 2 == 0
    ensures DecodeHex(hex).Some? <==> forall k :: 0 <= k < |hex| / 2 ==> PairValue(hex[2 * k], hex[2 * k + 1]).Some?
    ensures DecodeHex(hex).Some? ==> |DecodeHex(hex).value| == |hex| / 2
    ensures DecodeHex(hex).Some? ==>
              forall k :: 0 <= k < |hex| / 2 ==> DecodeHex(hex).value[k] == PairValue(hex[2 * k], hex[2 * k + 1]).value
    decreases |hex|
  {
    if hex != [] {
      var tail := hex[2..];
      DecodeHexPairs(tail);
      match PairValue(hex[0], hex[1])
      case None =>
        assert PairValue(hex[2 * 0], hex[2 * 0 + 1]).None?;
      case Some(b) =>
        match DecodeHex(tail)
        case None =>
          var k :| 0 <= k < |tail| / 2 && PairValue(tail[2 * k], tail[2 * k + 1]).None?;
          assert hex[2 * (k + 1)] == tail[2 * k] && hex[2 * (k + 1) + 1] == tail[2 * k + 1];
        case Some(rest) =>
          forall k | 0 <= k < |hex| / 2
            ensures PairValue(hex[2 * k], hex[2 * k + 1]).Some?
            ensures ([b] + rest)[k] == PairValue(hex[2 * k], hex[2 * k + 1]).value
          {
            if k > 0 {
              assert hex[2 * k] == tail[2 * (k - 1)] && hex[2 * k + 1] == tail[2 * (k - 1) + 1];
            }
          }
    }
  }

  /**
   * hexToByteHash: throws on an odd length before touching `byteHash`; otherwise
   * appends one byte per two-character pair, keeping what `byteHash` held as a
   * prefix, and throws at the first pair std::stoul cannot read. A throw leaves
   * the caller's string to the exception path, so it is a Failure here.
   */
  method HexToByteHash(byteHash: Bytes, hexHash: Bytes) returns (r: Result<Bytes, HexError>)
    ensures |hexHash| % 2 != 0 ==> r == Failure(OddLength)
    ensures |hexHash| % 2 == 0 ==>
              r == match DecodeHex(hexHash) case None => Failure(NotHexDigit) case Some(bs) => Success(byteHash + bs)
    ensures r.Success? ==> |r.value| == |byteHash| + |hexHash| / 2 && r.value[..|byteHash|] == byteHash
  {
    if |hexHash| % 2 != 0 {
      return Failure(OddLength);
    }
    var out := byteHash;
    var i := 0;
    while i < |hexHash|
      invariant i % 2 == 0 && 0 <= i <= |hexHash|
      invariant |out| == |byteHash| + i / 2 && out[..|byteHash|] == byteHash
      invariant forall k :: 0 <= k < i / 2 ==> PairValue(hexHash[2 * k], hexHash[2 * k + 1]).Some?
      invariant forall k :: 0 <= k < i / 2 ==> out[|byteHash| + k] == PairValue(hexHash[2 * k], hexHash[2 * k + 1]).value
    {
      var b := PairValue(hexHash[i], hexHash[i + 1]);
      if b.None? {
        assert hexHash[2 * (i / 2)] == hexHash[i];
        DecodeHexPairs(hexHash);
        return Failure(NotHexDigit);
      }
      out := out + [b.value];
      i := i + 2;
    }
    DecodeHexPairs(hexHash);
    var bs := DecodeHex(hexHash).value;
    assert out == byteHash + bs;
    return Success(out);
  }

  /** Round trip: decoding a rendering gives back the bytes. */
  lemma {:induction false} DecodeHexOf(bytes: Bytes)
    ensures DecodeHex(HexOf(bytes)) == Some(bytes)
  {
    if bytes != [] {
      var hex := HexOf(bytes);
      assert hex[2..] == HexOf(bytes[1..]);
      DecodeHexOf(bytes[1..]);
      var v := bytes[0] as int;
      assert 16 * (v / 16) + v % 16 == v;
      assert PairValue(hex[0], hex[1]) == Some(bytes[0]);
      assert [bytes[0]] + bytes[1..] == bytes;
    }
  }

  /** Round trip the other way: a lowercase hex string of even length is the rendering of what it decodes to. */
  lemma {:induction false} HexOfDecodeHex(hex: Bytes)
    requires |hex| % 2 == 0
    requires forall k :: 0 <= k < |hex| ==> IsLowerHex(hex[k])
    ensures DecodeHex(hex).Some? && HexOf(DecodeHex(hex).value) == hex
    decreases |hex|
  {
    if hex != [] {
      HexOfDecodeHex(hex[2..]);
      var b := PairValue(hex[0], hex[1]).value;
      var v := 16 * HexValue(hex[0]) + HexValue(hex[1]);
      assert b as int == v;
      assert v / 16 == HexValue(hex[0]) && v % 16 == HexValue(hex[1]);
      assert HexDigit(HexValue(hex[0])) == hex[0] by { LowerHexDigitValue(hex[0]); }
      assert HexDigit(HexValue(hex[1])) == hex[1] by { LowerHexDigitValue(hex[1]); }
      assert HexPair(b) == hex[..2];
      assert hex == hex[..2] + hex[2..];
    }
  }

  lemma LowerHexDigitValue(c: Byte)
    requires IsLowerHex(c)
    ensures HexDigit(HexValue(c)) == c
  {
    if c > '9' {
      assert ByteOf(c as int) == c;
    } else {
      assert DigitChar(c as int - '0' as int) as int == c as int;
    }
  }

  /** The hex rendering getSHA1 computes for `data`. */
  function Sha1Hex(sha1: Sha1, data: Bytes): (name: Bytes)
    ensures |name| == 2 * SHA_DIGEST_LENGTH
    ensures forall k :: 0 <= k < |name| ==> IsLowerHex(name[k])
  {
    HexOfIsLowerHex(sha1(data));
    HexOf(sha1(data))
  }

  /** getSHA1: the digest of `data` rendered as 40 lowercase hex characters. */
  method GetSha1(sha1: Sha1, data: Bytes) returns (shaHash: Bytes)
    ensures shaHash == Sha1Hex(sha1, data)
    ensures |shaHash| == 40 && forall k :: 0 <= k < 40 ==> IsLowerHex(shaHash[k])
    ensures DecodeHex(shaHash) == Some(sha1(data))
  {
    var byteHash := sha1(data);
    shaHash := ByteToHexHash(byteHash);
    DecodeHexOf(byteHash);
  }
}
