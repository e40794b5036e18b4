/**
 * src/commit.cpp: the identity line a commit carries for its author and
 * committer (User::serialize) and the "+HHMM" text of a timezone offset
 * (getLocalTimeZoneOffSet, from the offset in seconds onwards).
 */
module Commits {
  import opened Wrappers
  import opened Text

  /** User: who acted, when (seconds since the epoch) and in which timezone. */
  datatype User = User(name: Bytes, email: Bytes, timestamp: int, timezone: Bytes)

  /** User::serialize: "<role> <name> <<email>> <timestamp> <timezone>\n", replacing what `output` held. */
  function Serialize(user: User, role: Bytes): (output: Bytes)
    ensures 0 < |output| && output[|output| - 1] == '\n'
  {
    role + " " + user.name + " <" + user.email + "> " + SignedDecimal(user.timestamp) + " " + user.timezone + "\n"
  }

  /** A field may not hold the byte that ends it on the identity line. */
  predicate Parsable(user: User, role: Bytes) {
    && SPACE !in role
    && '<' !in user.name
    && '>' !in user.email
    && LongMin <= user.timestamp <= LongMax
  }

  /**
   * Reads an identity line back: the role up to the first space, the name up to
   * " <", the e-mail up to "> ", the timestamp up to the next space and the
   * timezone up to the final newline.
   */
  function ParseIdentityLine(line: Bytes): Option<(Bytes, User)> {
    if |line| == 0 || line[|line| - 1] != '\n' then None
    else
      match SplitAt(line[..|line| - 1], ' ')
      case None => None
      case Some((role, rest)) =>
        match ParseUser(rest)
        case None => None
        case Some(user) => Some((role, user))
  }

  /** The fields of an identity line after its role. */
  function ParseUser(rest: Bytes): Option<User> {
    match SplitAt(rest, '<')
    case None => None
    case Some((nameSpace, afterLt)) =>
      if nameSpace == [] || nameSpace[|nameSpace| - 1] != ' ' then None
      else
        match SplitAt(afterLt, '>')
        case None => None
        case Some((email, afterGt)) =>
          if afterGt == [] || afterGt[0] != ' ' then None
          else
            match ParseStamp(afterGt[1..])
            case None => None
            case Some((timestamp, timezone)) => Some(User(nameSpace[..|nameSpace| - 1], email, timestamp, timezone))
  }

  /** The timestamp up to the first space, read by std::stol, and the timezone after that space. */
  function ParseStamp(rest: Bytes): Option<(int, Bytes)> {
    match SplitAt(rest, ' ')
    case None => None
    case Some((text, timezone)) =>
      match ParseLong(text)
      case None => None
      case Some(timestamp) => Some((timestamp, timezone))
  }

  /** Round trip: an identity line reads back into the role and user it was written from. */
  lemma {:induction false} SerializeRoundTrip(user: User, role: Bytes)
    requires Parsable(user, role)
    ensures ParseIdentityLine(Serialize(user, role)) == Some((role, user))
  {
    var rest := user.name + " <" + user.email + "> " + SignedDecimal(user.timestamp) + " " + user.timezone;
    var line := Serialize(user, role);
    assert line == (role + [' '] + rest) + "\n";
    assert line[..|line| - 1] == role + [' '] + rest;
    SplitAtOf(role, ' ', rest);
    UserRoundTrip(user, rest);
  }

  lemma {:induction false} UserRoundTrip(user: User, rest: Bytes)
    requires '<' !in user.name && '>' !in user.email && LongMin <= user.timestamp <= LongMax
    requires rest == user.name + " <" + user.email + "> " + SignedDecimal(user.timestamp) + " " + user.timezone
    ensures ParseUser(rest) == Some(user)
  {
    var afterGt := [' '] + SignedDecimal(user.timestamp) + " " + user.timezone;
    var afterLt := user.email + ['>'] + afterGt;
    NameSplit(user, rest, afterLt);
    SplitAtOf(user.email, '>', afterGt);
    StampAfterSpace(user.timestamp, user.timezone, afterGt);
    ParseUserOf(rest, user.name + [' '], afterLt, afterGt, user);
  }

  lemma {:induction false} NameSplit(user: User, rest: Bytes, afterLt: Bytes)
    requires '<' !in user.name
    requires rest == user.name + " <" + afterLt
    ensures SplitAt(rest, '<') == Some((user.name + [' '], afterLt))
  {
    var nameSpace := user.name + [' '];
    assert rest == nameSpace + ['<'] + afterLt;
    assert '<' !in nameSpace;
    SplitAtOf(nameSpace, '<', afterLt);
  }

  lemma {:induction false} StampAfterSpace(timestamp: int, timezone: Bytes, afterGt: Bytes)
    requires LongMin <= timestamp <= LongMax
    requires afterGt == [' '] + SignedDecimal(timestamp) + " " + timezone
    ensures afterGt != [] && afterGt[0] == ' '
    ensures ParseStamp(afterGt[1..]) == Some((timestamp, timezone))
  {
    assert afterGt[1..] == SignedDecimal(timestamp) + [' '] + timezone;
    StampRoundTrip(timestamp, timezone);
  }

  /** ParseUser once the three separators are found and the timestamp read. */
  lemma {:induction false} ParseUserOf(rest: Bytes, nameSpace: Bytes, afterLt: Bytes, afterGt: Bytes, user: User)
    requires SplitAt(rest, '<') == Some((nameSpace, afterLt))
    requires nameSpace == user.name + [' ']
    requires SplitAt(afterLt, '>') == Some((user.email, afterGt))
    requires afterGt != [] && afterGt[0] == ' '
    requires ParseStamp(afterGt[1..]) == Some((user.timestamp, user.timezone))
    ensures ParseUser(rest) == Some(user)
  {
    assert nameSpace[..|nameSpace| - 1] == user.name;
  }

  lemma {:induction false} StampRoundTrip(timestamp: int, timezone: Bytes)
    requires LongMin <= timestamp <= LongMax
    ensures ParseStamp(SignedDecimal(timestamp) + [' '] + timezone) == Some((timestamp, timezone))
  {
    SignedDecimalHasNoSpace(timestamp);
    SplitAtOf(SignedDecimal(timestamp), ' ', timezone);
    ParseLongSignedDecimal(timestamp);
  }

  lemma SignedDecimalHasNoSpace(t: int)
    ensures SPACE !in SignedDecimal(t)
  {
    DecimalHasNoSeparator(if t < 0 then -t else t);
    if t < 0 {
      assert SignedDecimal(t) == "-" + Decimal(-t);
    }
  }

  /** std::stol reads back a signed long written by operator<<. */
  lemma ParseLongSignedDecimal(t: int)
    requires LongMin <= t <= LongMax
    ensures ParseLong(SignedDecimal(t)) == Some(t)
  {
    if t < 0 {
      var s := SignedDecimal(t);
      assert s[1..] == Decimal(-t);
      DigitPrefixOfDigits(Decimal(-t));
    } else {
      ParseLongDecimal(t, []);
      assert Decimal(t) + [] == Decimal(t);
    }
  }

  function Abs(x: int): nat {
    if x < 0 then -x else x
  }

  /** C++ integer division: the quotient truncated toward zero. */
  function TruncDiv(a: int, b: int): (q: int)
    requires b > 0
    ensures Abs(q) == Abs(a) / b
    ensures a >= 0 ==> q >= 0
    ensures a < 0 ==> q <= 0
  {
    if a >= 0 then a / b else -((-a) / b)
  }

  /** C++ %: the remainder takes the sign of the dividend. */
  function TruncMod(a: int, b: int): (r: int)
    requires b > 0
    ensures Abs(r) == Abs(a) % b
    ensures a >= 0 ==> r >= 0
    ensures a < 0 ==> r <= 0
  {
    a - b * TruncDiv(a, b)
  }

  const IntMin: int := -0x8000_0000
  const IntMax: int := 0x7FFF_FFFF

  /** `int hours = offset_seconds / 3600`, truncated toward zero. */
  function OffsetHours(offsetSeconds: int): int {
    TruncDiv(offsetSeconds, 3600)
  }

  /** `std::abs((offset_seconds % 3600) / 60)`: the whole minutes past the hours, always 0..59. */
  function OffsetMinutes(offsetSeconds: int): (m: nat)
    ensures m < 60
    ensures m == (Abs(offsetSeconds) % 3600) / 60
  {
    Abs(TruncDiv(TruncMod(offsetSeconds, 3600), 60))
  }

  /** |hours| and the minutes, each padded to two digits with '0'. */
  function ZoneDigits(offsetSeconds: int): Bytes
    requires IntMin < OffsetHours(offsetSeconds) <= IntMax
  {
    ZeroPad2(Decimal(Abs(OffsetHours(offsetSeconds)))) + ZeroPad2(Decimal(OffsetMinutes(offsetSeconds)))
  }

  /**
   * The text getLocalTimeZoneOffSet builds as written: '+' when the truncated
   * hours are not negative, '-' otherwise, then the zone digits. The hours must
   * fit an int whose std::abs is defined.
   */
  function TimeZoneText(offsetSeconds: int): Bytes
    requires IntMin < OffsetHours(offsetSeconds) <= IntMax
  {
    [if OffsetHours(offsetSeconds) >= 0 then '+' else '-'] + ZoneDigits(offsetSeconds)
  }

  /** The timezone text with the sign taken from the offset itself. */
  function TimeZoneTextSigned(offsetSeconds: int): Bytes
    requires IntMin < OffsetHours(offsetSeconds) <= IntMax
  {
    [if offsetSeconds >= 0 then '+' else '-'] + ZoneDigits(offsetSeconds)
  }

  /** The offset in seconds a "+HHMM" or "-HHMM" text stands for. */
  function ZoneSeconds(tz: Bytes): Option<int> {
    if |tz| != 5 || (tz[0] != '+' && tz[0] != '-') || !AllDigits(tz[1..]) then None
    else
      var magnitude := DigitsValue(tz[1..3]) * 3600 + DigitsValue(tz[3..]) * 60;
      Some(if tz[0] == '-' then -magnitude else magnitude)
  }

  /** Two digits of a number below 100, padded as setw(2) setfill('0') does. */
  lemma {:induction false} TwoDigits(n: nat)
    requires n < 100
    ensures var t := ZeroPad2(Decimal(n)); |t| == 2 && AllDigits(t) && DigitsValue(t) == n
  {
    var d := Decimal(n);
    var t := ZeroPad2(d);
    if n < 10 {
      assert t == ['0'] + d;
      assert t[..1] == ['0'];
    } else {
      assert Decimal(n / 10) == [DigitChar(n / 10)];
      assert t == d;
    }
  }

  /** Whole minutes: the hours and the minutes past them make up the offset truncated to minutes. */
  lemma MinutesOf(a: nat)
    ensures (a / 3600) * 3600 + ((a % 3600) / 60) * 60 == (a / 60) * 60
  {
    var q := a / 3600;
    var r := a % 3600;
    assert a == 3600 * q + r;
    assert (3600 * q + r) / 60 == 60 * q + r / 60;
  }

  /** The zone digits are four digits that read back as the offset's magnitude truncated to whole minutes. */
  lemma {:induction false} ZoneDigitsValue(offsetSeconds: int)
    requires Abs(OffsetHours(offsetSeconds)) < 100
    ensures var d := ZoneDigits(offsetSeconds);
            |d| == 4 && AllDigits(d)
            && DigitsValue(d[..2]) * 3600 + DigitsValue(d[2..]) * 60 == (Abs(offsetSeconds) / 60) * 60
  {
    var h := Abs(OffsetHours(offsetSeconds));
    var m := OffsetMinutes(offsetSeconds);
    TwoDigits(h);
    TwoDigits(m);
    var hh := ZeroPad2(Decimal(h));
    var mm := ZeroPad2(Decimal(m));
    var d := ZoneDigits(offsetSeconds);
    assert d == hh + mm;
    assert d[..2] == hh && d[2..] == mm;
    var a := Abs(offsetSeconds);
    assert h == a / 3600;
    MinutesOf(a);
  }

  /** What ZoneSeconds reads from a sign and four digits. */
  lemma {:induction false} ZoneSecondsOf(sign: Byte, d: Bytes)
    requires sign == '+' || sign == '-'
    requires |d| == 4 && AllDigits(d)
    ensures var magnitude := DigitsValue(d[..2]) * 3600 + DigitsValue(d[2..]) * 60;
            ZoneSeconds([sign] + d) == Some(if sign == '-' then -magnitude else magnitude)
  {
    var tz := [sign] + d;
    assert tz[1..] == d && tz[1..3] == d[..2] && tz[3..] == d[2..];
  }

  /** The shape of the text: five characters, a sign then four digits, whenever |hours| < 100. */
  lemma {:induction false} TimeZoneTextShape(offsetSeconds: int)
    requires Abs(OffsetHours(offsetSeconds)) < 100
    ensures var tz := TimeZoneText(offsetSeconds);
            |tz| == 5 && AllDigits(tz[1..])
            && (tz[0] == '+' <==> OffsetHours(offsetSeconds) >= 0)
            && (tz[0] == '-' <==> OffsetHours(offsetSeconds) < 0)
  {
    ZoneDigitsValue(offsetSeconds);
    var tz := TimeZoneText(offsetSeconds);
    assert tz[1..] == ZoneDigits(offsetSeconds);
  }

  /**
   * With the sign taken from the offset, the text reads back as the offset
   * truncated toward zero to whole minutes.
   */
  lemma {:induction false} TimeZoneTextSignedRoundTrip(offsetSeconds: int)
    requires Abs(OffsetHours(offsetSeconds)) < 100
    ensures ZoneSeconds(TimeZoneTextSigned(offsetSeconds)) == Some(TruncDiv(offsetSeconds, 60) * 60)
  {
    ZoneDigitsValue(offsetSeconds);
    ZoneSecondsOf(if offsetSeconds >= 0 then '+' else '-', ZoneDigits(offsetSeconds));
  }

  /** As written, the text reads back the same way except for offsets strictly between -3600 and 0. */
  lemma {:induction false} TimeZoneTextRoundTrip(offsetSeconds: int)
    requires Abs(OffsetHours(offsetSeconds)) < 100
    requires !(-3600 < offsetSeconds < 0)
    ensures ZoneSeconds(TimeZoneText(offsetSeconds)) == Some(TruncDiv(offsetSeconds, 60) * 60)
  {
    ZoneDigitsValue(offsetSeconds);
    ZoneSecondsOf(if OffsetHours(offsetSeconds) >= 0 then '+' else '-', ZoneDigits(offsetSeconds));
  }

  /**
   * As written, every offset strictly between one hour west of UTC and UTC gets
   * '+': the text reads back as the same distance east of UTC.
   */
  lemma {:induction false} TimeZoneTextSignSlip(offsetSeconds: int)
    requires -3600 < offsetSeconds < 0
    ensures TimeZoneText(offsetSeconds)[0] == '+' && TimeZoneTextSigned(offsetSeconds)[0] == '-'
    ensures ZoneSeconds(TimeZoneText(offsetSeconds)) == Some(-(TruncDiv(offsetSeconds, 60) * 60))
  {
    assert OffsetHours(offsetSeconds) == 0;
    ZoneDigitsValue(offsetSeconds);
    ZoneSecondsOf('+', ZoneDigits(offsetSeconds));
  }

  /** Half an hour west of UTC: "+0030" as written, "-0030" with the offset's own sign. */
  lemma {:induction false} HalfHourWest(offsetSeconds: int)
    requires offsetSeconds == -1800
    ensures TimeZoneText(offsetSeconds) == "+0030"
    ensures TimeZoneTextSigned(offsetSeconds) == "-0030"
    ensures ZoneSeconds(TimeZoneText(offsetSeconds)) == Some(1800)
  {
    var d := ZoneDigits(offsetSeconds);
    assert d == "0030" by {
      assert OffsetHours(offsetSeconds) == 0;
      assert OffsetMinutes(offsetSeconds) == 30;
      assert Decimal(0) == "0";
      assert Decimal(30) == "30" by {
        assert Decimal(3) == "3";
      }
    }
    assert TimeZoneText(offsetSeconds) == ['+'] + d;
    assert TimeZoneTextSigned(offsetSeconds) == ['-'] + d;
    TimeZoneTextSignSlip(offsetSeconds);
  }
}
