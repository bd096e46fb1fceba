/** The RFC 3339 cursor parser of src/time.rs: it accepts exactly the printed
    forms of valid timestamps and returns their instant rounded up. */
module Rfc3339 {
  import opened Basics
  import opened Calendar
  import opened Digits

  const PLUS: byte := 43
  const MINUS: byte := 45
  const DOT: byte := 46
  const COLON: byte := 58
  const UPPER_T: byte := 84
  const UPPER_Z: byte := 90
  const LOWER_T: byte := 116
  const LOWER_Z: byte := 122

  // ---- section 5.6 of RFC 3339: what a timestamp is and how it is written ----

  datatype Zone = Zulu(marker: byte) | Offset(sign: byte, hour: int, minute: int)

  /** A timestamp as written; `fraction` holds the digits after the point, none when there is no point. */
  datatype Timestamp = Timestamp(
    date: Date, separator: byte, hour: int, minute: int, second: int, fraction: Bytes, zone: Zone)

  predicate ValidZone(z: Zone) {
    match z
    case Zulu(m) => m == UPPER_Z || m == LOWER_Z
    case Offset(sign, h, m) => (sign == PLUS || sign == MINUS) && 0 <= h <= 23 && 0 <= m <= 59
  }

  predicate ValidTimestamp(ts: Timestamp) {
    && 0 <= ts.date.year <= 9999 && ValidDate(ts.date)
    && (ts.separator == UPPER_T || ts.separator == LOWER_T)
    && 0 <= ts.hour <= 23 && 0 <= ts.minute <= 59 && 0 <= ts.second <= 59
    && (forall b :: b in ts.fraction ==> IsDigit(b))
    && ValidZone(ts.zone)
  }

  function Digit(v: int): byte {
    ZERO + v % 10
  }

  function PrintDate(d: Date): (b: Bytes)
    ensures |b| == 10
  {
    [Digit(d.year / 1000), Digit(d.year / 100), Digit(d.year / 10), Digit(d.year), MINUS,
     Digit(d.month / 10), Digit(d.month), MINUS, Digit(d.day / 10), Digit(d.day)]
  }

  function PrintTime(sep: byte, h: int, mi: int, s: int): (b: Bytes)
    ensures |b| == 9
  {
    [sep, Digit(h / 10), Digit(h), COLON, Digit(mi / 10), Digit(mi), COLON, Digit(s / 10), Digit(s)]
  }

  function PrintFraction(digits: Bytes): Bytes {
    if digits == [] then [] else [DOT] + digits
  }

  function PrintZone(z: Zone): (b: Bytes)
    ensures b != [] && (ValidZone(z) ==> !IsDigit(b[0]) && b[0] != DOT)
  {
    match z
    case Zulu(m) => [m]
    case Offset(sign, h, m) => [sign, Digit(h / 10), Digit(h), COLON, Digit(m / 10), Digit(m)]
  }

  function Print(ts: Timestamp): Bytes {
    PrintDate(ts.date) + PrintTime(ts.separator, ts.hour, ts.minute, ts.second)
    + (PrintFraction(ts.fraction) + PrintZone(ts.zone))
  }

  function OffsetSeconds(z: Zone): int {
    match z
    case Zulu(_) => 0
    case Offset(sign, h, m) => if sign == MINUS then -(h * 3600 + m * 60) else h * 3600 + m * 60
  }

  /** Whole unix seconds of the written fields, without the fraction. */
  function WholeSeconds(ts: Timestamp): int {
    DaysFromCivil(ts.date) * 86_400 + (ts.hour * 3600 + ts.minute * 60 + ts.second) - OffsetSeconds(ts.zone)
  }

  /** The value of the digits after the point. */
  ghost function FractionValue(digits: Bytes): real {
    if digits == [] then 0.0
    else (digits[0] as real - 48.0 + FractionValue(digits[1..])) / 10.0
  }

  /** The real instant a timestamp denotes, in unix seconds. */
  ghost function Instant(ts: Timestamp): real {
    WholeSeconds(ts) as real + FractionValue(ts.fraction)
  }

  predicate HasNonzero(digits: Bytes) {
    exists i :: 0 <= i < |digits| && digits[i] != ZERO
  }

  /** What the parser computes: a nonzero fraction counts as a whole second. */
  function RoundedSeconds(ts: Timestamp): int {
    WholeSeconds(ts) + if HasNonzero(ts.fraction) then 1 else 0
  }

  // ---- reading ----

  function Pair(s: Bytes, i: nat): int
    requires i + 2 <= |s|
  {
    (s[i] - ZERO) * 10 + (s[i + 1] - ZERO)
  }

  predicate DigitsAt(s: Bytes, i: nat, n: nat) {
    i + n <= |s| && forall k :: i <= k < i + n ==> IsDigit(s[k])
  }

  lemma PairValue(s: Bytes, i: nat)
    requires i + 2 <= |s|
    ensures DigitsValue(s[i..i + 2]) == Pair(s, i)
  {
    var t := s[i..i + 2];
    assert DigitsValue(t[..1][..0]) == 0;
    assert DigitsValue(t[..1]) == s[i] - ZERO;
  }

  lemma QuadValue(s: Bytes)
    requires 4 <= |s|
    ensures DigitsValue(s[0..4]) == Pair(s, 0) * 100 + Pair(s, 2)
  {
    var t := s[0..4];
    assert t[..3][..2] == s[0..2];
    PairValue(s, 0);
    assert DigitsValue(t) == DigitsValue(t[..3]) * 10 + (t[3] - ZERO);
  }

  /** The number of leading digits. */
  function DigitRun(s: Bytes): (n: nat)
    ensures n <= |s|
    ensures forall k :: 0 <= k < n ==> IsDigit(s[k])
    ensures n < |s| ==> !IsDigit(s[n])
  {
    if s == [] || !IsDigit(s[0]) then 0
    else
      var n := DigitRun(s[1..]);
      assert forall k :: 1 <= k < n + 1 ==> s[k] == s[1..][k - 1];
      n + 1
  }

  function ScanDate(s: Bytes): Date
    requires |s| >= 20
  {
    Date(Pair(s, 0) * 100 + Pair(s, 2), Pair(s, 5), Pair(s, 8))
  }

  predicate DateOk(s: Bytes)
    requires |s| >= 20
  {
    DigitsAt(s, 0, 4) && s[4] == MINUS && DigitsAt(s, 5, 2) && s[7] == MINUS && DigitsAt(s, 8, 2) &&
    ValidDate(ScanDate(s))
  }

  predicate TimeOk(s: Bytes)
    requires |s| >= 20
  {
    && (s[10] == UPPER_T || s[10] == LOWER_T)
    && DigitsAt(s, 11, 2) && s[13] == COLON && DigitsAt(s, 14, 2) && s[16] == COLON && DigitsAt(s, 17, 2)
    && Pair(s, 11) <= 23 && Pair(s, 14) <= 59 && Pair(s, 17) <= 59
  }

  /** The checks on the first 19 bytes. */
  predicate HeadOk(s: Bytes)
    requires |s| >= 20
  {
    DateOk(s) && TimeOk(s)
  }

  /** Where the zone starts; `None` for a point without digits. */
  function ZoneStart(s: Bytes): (pos: Option<nat>)
    requires |s| >= 20
    ensures pos.Some? ==> 19 <= pos.value <= |s|
  {
    if s[19] != DOT then Some(19)
    else
      var n := DigitRun(s[20..]);
      if n == 0 then None else Some(20 + n)
  }

  function ScanZone(s: Bytes): Option<Zone> {
    if s == [] then None
    else if s[0] == UPPER_Z || s[0] == LOWER_Z then
      if |s| == 1 then Some(Zulu(s[0])) else None
    else if s[0] == PLUS || s[0] == MINUS then
      if |s| == 6 && DigitsAt(s, 1, 2) && s[3] == COLON && DigitsAt(s, 4, 2) && Pair(s, 1) <= 23 && Pair(s, 4) <= 59
      then Some(Offset(s[0], Pair(s, 1), Pair(s, 4))) else None
    else None
  }

  function Fraction(s: Bytes, pos: nat): Bytes
    requires 19 <= pos <= |s|
  {
    if pos == 19 then [] else s[20..pos]
  }

  /** The timestamp written in `s`, if any. */
  function Scan(s: Bytes): Option<Timestamp> {
    if |s| < 20 || !HeadOk(s) then None
    else
      var pos := ZoneStart(s);
      if pos.None? then None
      else
        var zone := ScanZone(s[pos.value..]);
        if zone.None? then None
        else
          Some(Timestamp(ScanDate(s), s[10], Pair(s, 11), Pair(s, 14), Pair(s, 17), Fraction(s, pos.value), zone.value))
  }

  /** Two digits read and written again. */
  lemma PairDigits(s: Bytes, i: nat)
    requires DigitsAt(s, i, 2)
    ensures 0 <= Pair(s, i) <= 99 && Digit(Pair(s, i) / 10) == s[i] && Digit(Pair(s, i)) == s[i + 1]
  {
    assert IsDigit(s[i]) && IsDigit(s[i + 1]);
  }

  lemma Tens(q: int, r: int)
    requires 0 <= r < 10
    ensures (q * 10 + r) / 10 == q && (q * 10 + r) % 10 == r
  {
  }

  lemma Hundreds(q: int, r: int)
    requires 0 <= r < 100
    ensures (q * 100 + r) / 100 == q && (q * 100 + r) % 100 == r
  {
  }

  lemma Thousands(q: int, r: int)
    requires 0 <= r < 1000
    ensures (q * 1000 + r) / 1000 == q
  {
  }

  /** A four-digit number and its digits. */
  lemma QuadDigits(a: int, b: int, c: int, d: int, y: int)
    requires 0 <= a <= 9 && 0 <= b <= 9 && 0 <= c <= 9 && 0 <= d <= 9
    requires y == a * 1000 + b * 100 + c * 10 + d
    ensures y / 1000 % 10 == a && y / 100 % 10 == b && y / 10 % 10 == c && y % 10 == d
  {
    Thousands(a, b * 100 + c * 10 + d);
    Hundreds(a * 10 + b, c * 10 + d);
    Tens(a * 100 + b * 10 + c, d);
    Tens(a, b);
    Tens(a * 10 + b, c);
  }

  lemma DateSound(s: Bytes)
    requires |s| >= 20 && DateOk(s)
    ensures 0 <= ScanDate(s).year <= 9999 && PrintDate(ScanDate(s)) == s[..10]
  {
    assert IsDigit(s[0]) && IsDigit(s[1]) && IsDigit(s[2]) && IsDigit(s[3]);
    QuadDigits(s[0] - ZERO, s[1] - ZERO, s[2] - ZERO, s[3] - ZERO, ScanDate(s).year);
    PairDigits(s, 5);
    PairDigits(s, 8);
  }

  lemma TimeSound(s: Bytes)
    requires |s| >= 20 && TimeOk(s)
    ensures Pair(s, 11) >= 0 && Pair(s, 14) >= 0 && Pair(s, 17) >= 0
    ensures PrintTime(s[10], Pair(s, 11), Pair(s, 14), Pair(s, 17)) == s[10..19]
  {
    PairDigits(s, 11);
    PairDigits(s, 14);
    PairDigits(s, 17);
  }

  /** The quotients of a four-digit number, one digit at a time. */
  lemma YearQuotients(y: int)
    ensures y / 100 == y / 10 / 10 && y / 1000 == y / 100 / 10
  {
  }

  lemma YearDigits(y: int)
    requires 0 <= y <= 9999
    ensures (y / 1000 % 10 * 10 + y / 100 % 10) * 100 + (y / 10 % 10 * 10 + y % 10) == y
  {
    YearQuotients(y);
    var tens, hundreds, thousands := y / 10, y / 100, y / 1000;
    assert y == tens * 10 + y % 10;
    assert tens == hundreds * 10 + tens % 10;
    assert hundreds == thousands * 10 + hundreds % 10;
    assert thousands < 10;
  }

  lemma FourSlices(s: Bytes, pos: nat)
    requires 19 <= pos <= |s|
    ensures s == s[..10] + s[10..19] + (s[19..pos] + s[pos..])
  {
  }

  lemma FractionSound(s: Bytes)
    requires |s| >= 20 && ZoneStart(s).Some?
    ensures var pos := ZoneStart(s).value;
            && (forall b :: b in Fraction(s, pos) ==> IsDigit(b))
            && PrintFraction(Fraction(s, pos)) == s[19..pos]
  {
    var pos := ZoneStart(s).value;
    if pos > 19 {
      assert s[19..pos] == [DOT] + s[20..pos];
      forall b | b in Fraction(s, pos)
        ensures IsDigit(b)
      {
        var k :| 0 <= k < |Fraction(s, pos)| && Fraction(s, pos)[k] == b;
        assert s[20..][k] == b;
      }
    }
  }

  lemma ScanZoneSound(s: Bytes)
    requires ScanZone(s).Some?
    ensures ValidZone(ScanZone(s).value) && PrintZone(ScanZone(s).value) == s
  {
    if ScanZone(s).value.Offset? {
      PairDigits(s, 1);
      PairDigits(s, 4);
      assert s == [s[0], s[1], s[2], s[3], s[4], s[5]];
    }
  }

  /** The written form determines the timestamp it was scanned from. */
  lemma ScanSound(s: Bytes)
    requires Scan(s).Some?
    ensures ValidTimestamp(Scan(s).value) && Print(Scan(s).value) == s
  {
    var pos := ZoneStart(s).value;
    DateSound(s);
    TimeSound(s);
    FractionSound(s);
    ScanZoneSound(s[pos..]);
    FourSlices(s, pos);
  }

  lemma PairWritten(v: int)
    requires 0 <= v <= 99
    ensures IsDigit(Digit(v / 10)) && IsDigit(Digit(v))
    ensures (Digit(v / 10) - ZERO) * 10 + (Digit(v) - ZERO) == v
  {
  }

  lemma DateComplete(s: Bytes, d: Date)
    requires 0 <= d.year <= 9999 && ValidDate(d) && |s| >= 20 && s[..10] == PrintDate(d)
    ensures DateOk(s) && ScanDate(s) == d
  {
    var date := PrintDate(d);
    assert forall k :: 0 <= k < 10 ==> s[k] == date[k];
    YearDigits(d.year);
    PairWritten(d.month);
    PairWritten(d.day);
  }

  lemma TimeComplete(s: Bytes, sep: byte, h: int, mi: int, sec: int)
    requires (sep == UPPER_T || sep == LOWER_T) && 0 <= h <= 23 && 0 <= mi <= 59 && 0 <= sec <= 59
    requires |s| >= 20 && s[10..19] == PrintTime(sep, h, mi, sec)
    ensures TimeOk(s) && s[10] == sep && Pair(s, 11) == h && Pair(s, 14) == mi && Pair(s, 17) == sec
  {
    var time := PrintTime(sep, h, mi, sec);
    assert forall k :: 0 <= k < 9 ==> s[10..19][k] == s[k + 10];
    assert s[10] == time[0] && s[11] == time[1] && s[12] == time[2] && s[13] == time[3] && s[14] == time[4];
    assert s[15] == time[5] && s[16] == time[6] && s[17] == time[7] && s[18] == time[8];
    PairWritten(h);
    PairWritten(mi);
    PairWritten(sec);
  }

  lemma ScanZoneComplete(z: Zone)
    requires ValidZone(z)
    ensures ScanZone(PrintZone(z)) == Some(z)
  {
    if z.Offset? {
      PairWritten(z.hour);
      PairWritten(z.minute);
    }
  }

  lemma RunOfDigits(digits: Bytes, zone: Bytes)
    requires forall b :: b in digits ==> IsDigit(b)
    requires zone != [] && !IsDigit(zone[0])
    ensures DigitRun(digits + zone) == |digits|
  {
    assert (digits + zone)[|digits|] == zone[0];
    assert forall k :: 0 <= k < |digits| ==> (digits + zone)[k] in digits;
  }

  lemma DigitsBetween(s: Bytes, digits: Bytes, zone: Bytes)
    requires |s| >= 20 && s[19..] == [DOT] + digits + zone
    ensures s[19] == DOT && s[20..] == digits + zone
    ensures |s| - |zone| == 20 + |digits| && s[|s| - |zone|..] == zone && s[20..|s| - |zone|] == digits
  {
  }

  lemma FractionComplete(s: Bytes, digits: Bytes, zone: Bytes)
    requires |s| >= 20 && s[19..] == PrintFraction(digits) + zone
    requires forall b :: b in digits ==> IsDigit(b)
    requires zone != [] && !IsDigit(zone[0]) && zone[0] != DOT
    ensures ZoneStart(s) == Some(|s| - |zone|)
    ensures s[|s| - |zone|..] == zone && Fraction(s, |s| - |zone|) == digits
  {
    if digits == [] {
      assert s[19] == s[19..][0];
    } else {
      DigitsBetween(s, digits, zone);
      RunOfDigits(digits, zone);
    }
  }

  /** Scanning inverts printing. */
  lemma ScanComplete(ts: Timestamp)
    requires ValidTimestamp(ts)
    ensures Scan(Print(ts)) == Some(ts)
  {
    var s := Print(ts);
    var rest := PrintFraction(ts.fraction) + PrintZone(ts.zone);
    assert s[..10] == PrintDate(ts.date);
    assert s[10..19] == PrintTime(ts.separator, ts.hour, ts.minute, ts.second);
    DateComplete(s, ts.date);
    TimeComplete(s, ts.separator, ts.hour, ts.minute, ts.second);
    assert s[19..] == rest;
    FractionComplete(s, ts.fraction, PrintZone(ts.zone));
    ScanZoneComplete(ts.zone);
  }

  // ---- the parser ----

  /** `read_digits`: exactly `n` digits from `start`, or nothing. */
  method ReadDigits(bytes: Bytes, start: nat, n: nat) returns (value: Option<int>)
    ensures value.Some? <==> DigitsAt(bytes, start, n)
    ensures value.Some? ==> value.value == DigitsValue(bytes[start..start + n])
  {
    if start + n > |bytes| {
      return None;
    }
    var v := 0;
    var i := start;
    while i < start + n
      invariant start <= i <= start + n
      invariant forall k :: start <= k < i ==> IsDigit(bytes[k])
      invariant v == DigitsValue(bytes[start..i])
    {
      if !IsDigit(bytes[i]) {
        return None;
      }
      assert bytes[start..i + 1][..i - start] == bytes[start..i];
      v := v * 10 + (bytes[i] - ZERO);
      i := i + 1;
    }
    return Some(v);
  }

  method ReadPair(bytes: Bytes, start: nat) returns (value: Option<int>)
    ensures value.Some? <==> DigitsAt(bytes, start, 2)
    ensures value.Some? ==> value.value == Pair(bytes, start)
  {
    value := ReadDigits(bytes, start, 2);
    if value.Some? {
      PairValue(bytes, start);
    }
  }

  /** The date and time of day; `None` is one of the structural or range errors. */
  method ReadHead(bytes: Bytes) returns (r: Option<(Date, int)>)
    requires |bytes| >= 20
    ensures r.Some? <==> HeadOk(bytes)
    ensures r.Some? ==> r.value == (ScanDate(bytes), Pair(bytes, 11) * 3600 + Pair(bytes, 14) * 60 + Pair(bytes, 17))
  {
    var year := ReadDigits(bytes, 0, 4);
    if year.None? || bytes[4] != MINUS { return None; }
    QuadValue(bytes);
    var month := ReadPair(bytes, 5);
    if month.None? || bytes[7] != MINUS { return None; }
    var day := ReadPair(bytes, 8);
    if day.None? || (bytes[10] != UPPER_T && bytes[10] != LOWER_T) { return None; }
    var hour := ReadPair(bytes, 11);
    if hour.None? || bytes[13] != COLON { return None; }
    var minute := ReadPair(bytes, 14);
    if minute.None? || bytes[16] != COLON { return None; }
    var second := ReadPair(bytes, 17);
    if second.None? { return None; }
    if !(1 <= month.value <= 12) { return None; }
    if day.value < 1 || day.value > DaysInMonth(year.value, month.value) { return None; }
    if hour.value > 23 || minute.value > 59 || second.value > 59 { return None; }
    return Some((Date(year.value, month.value, day.value), hour.value * 3600 + minute.value * 60 + second.value));
  }

  /** The optional fraction after position 19: where the zone starts, and whether to round up. */
  method ReadFraction(bytes: Bytes) returns (r: Option<(nat, bool)>)
    requires |bytes| >= 20
    ensures r.Some? <==> ZoneStart(bytes).Some?
    ensures r.Some? ==> r.value.0 == ZoneStart(bytes).value
    ensures r.Some? ==> r.value.1 == HasNonzero(Fraction(bytes, r.value.0))
  {
    var pos := 19;
    var nonzero := false;
    if bytes[pos] == DOT {
      pos := pos + 1;
      while pos < |bytes| && IsDigit(bytes[pos])
        invariant 20 <= pos <= |bytes|
        invariant pos - 20 + DigitRun(bytes[pos..]) == DigitRun(bytes[20..])
        invariant nonzero <==> exists i :: 20 <= i < pos && bytes[i] != ZERO
      {
        assert bytes[pos..][1..] == bytes[pos + 1..];
        if bytes[pos] != ZERO {
          nonzero := true;
        }
        pos := pos + 1;
      }
      assert DigitRun(bytes[pos..]) == 0;
      if pos == 20 {
        return None;
      }
      assert forall i :: 0 <= i < pos - 20 ==> bytes[20..pos][i] == bytes[20 + i];
      if nonzero {
        var i :| 20 <= i < pos && bytes[i] != ZERO;
        assert bytes[20..pos][i - 20] != ZERO;
      }
    }
    return Some((pos, nonzero));
  }

  /** The zone from `pos` to the end of the text, as an offset in seconds. */
  method ReadZone(bytes: Bytes, start: nat) returns (r: Option<int>)
    requires start <= |bytes|
    ensures r.Some? <==> ScanZone(bytes[start..]).Some?
    ensures r.Some? ==> r.value == OffsetSeconds(ScanZone(bytes[start..]).value)
  {
    var pos := start;
    if pos >= |bytes| {
      return None;
    }
    ghost var zone := bytes[start..];
    var seconds: int;
    if bytes[pos] == UPPER_Z || bytes[pos] == LOWER_Z {
      pos := pos + 1;
      seconds := 0;
    } else if bytes[pos] == PLUS || bytes[pos] == MINUS {
      var sign := bytes[pos];
      pos := pos + 1;
      var hour := ReadPair(bytes, pos);
      assert DigitsAt(bytes, pos, 2) <==> DigitsAt(zone, 1, 2) by {
        assert forall k :: pos <= k < |bytes| ==> bytes[k] == zone[k - start];
        assert forall k :: 1 <= k < |zone| ==> zone[k] == bytes[k + start];
      }
      if hour.None? { return None; }
      pos := pos + 2;
      if pos >= |bytes| || bytes[pos] != COLON { return None; }
      pos := pos + 1;
      var minute := ReadPair(bytes, pos);
      assert DigitsAt(bytes, pos, 2) <==> DigitsAt(zone, 4, 2) by {
        assert forall k :: pos <= k < |bytes| ==> bytes[k] == zone[k - start];
        assert forall k :: 4 <= k < |zone| ==> zone[k] == bytes[k + start];
      }
      if minute.None? { return None; }
      pos := pos + 2;
      if hour.value > 23 || minute.value > 59 { return None; }
      var magnitude := hour.value * 3600 + minute.value * 60;
      seconds := if sign == MINUS then -magnitude else magnitude;
    } else {
      return None;
    }
    if pos != |bytes| {
      return None;
    }
    return Some(seconds);
  }

  /** `parse_rfc3339`: accepts exactly the printed forms of valid timestamps, and returns the rounded
      unix time of the one that was printed. */
  method ParseRfc3339(bytes: Bytes) returns (r: Option<int>)
    ensures r.Some? <==> Scan(bytes).Some?
    ensures r.Some? ==> r.value == RoundedSeconds(Scan(bytes).value)
    ensures r.Some? <==> exists ts :: ValidTimestamp(ts) && Print(ts) == bytes
    ensures forall ts :: ValidTimestamp(ts) && Print(ts) == bytes ==> r == Some(RoundedSeconds(ts))
  {
    forall ts | ValidTimestamp(ts) && Print(ts) == bytes
      ensures Scan(bytes) == Some(ts)
    {
      ScanComplete(ts);
    }
    if Scan(bytes).Some? {
      ScanSound(bytes);
    }
    if |bytes| < 20 {
      return None;
    }
    var head := ReadHead(bytes);
    if head.None? {
      return None;
    }
    var fraction := ReadFraction(bytes);
    if fraction.None? {
      return None;
    }
    var (pos, nonzero) := fraction.value;
    var offset := ReadZone(bytes, pos);
    if offset.None? {
      return None;
    }
    var (date, timeOfDay) := head.value;
    var unixTime := DaysFromCivil(date) * 86_400 + timeOfDay - offset.value;
    if nonzero {
      unixTime := unixTime + 1;
    }
    return Some(unixTime);
  }

  // ---- rounding up ----

  lemma {:induction false} FractionRange(digits: Bytes)
    requires forall b :: b in digits ==> IsDigit(b)
    ensures 0.0 <= FractionValue(digits) < 1.0
    ensures FractionValue(digits) > 0.0 <==> HasNonzero(digits)
  {
    if digits != [] {
      var rest := digits[1..];
      assert IsDigit(digits[0]);
      FractionRange(rest);
      if HasNonzero(digits) && digits[0] == ZERO {
        var i :| 0 <= i < |digits| && digits[i] != ZERO;
        assert rest[i - 1] != ZERO;
      }
      if HasNonzero(rest) {
        var i :| 0 <= i < |rest| && rest[i] != ZERO;
        assert digits[i + 1] != ZERO;
      }
    }
  }

  /** `r` is the least integer at or above `b`. */
  ghost predicate IsCeiling(r: int, b: real) {
    r as real - 1.0 < b <= r as real
  }

  /** The parsed second is the ceiling of the real instant, for any number of fraction digits. */
  lemma RoundedIsCeiling(ts: Timestamp)
    requires ValidTimestamp(ts)
    ensures IsCeiling(RoundedSeconds(ts), Instant(ts))
  {
    FractionRange(ts.fraction);
  }

  /** For whole-second evidence a bound may be replaced by its ceiling, at either end of a window. */
  lemma CeilingBoundExact(b: real, r: int, t: int)
    requires IsCeiling(r, b)
    ensures t as real >= b <==> t >= r
    ensures (t as real) < b <==> t < r
  {
  }

  // ---- what an instant is, told by clocks ----

  /** Minutes on the wall clock since midnight of 1970-01-01, for a date and time of day as written. */
  function WallMinutes(ts: Timestamp): int {
    DaysFromCivil(ts.date) * 1440 + ts.hour * 60 + ts.minute
  }

  /** A local time ahead of UTC denotes the UTC time that many minutes earlier on the clock, and a local time
      behind UTC the one that many minutes later (section 4.2 of RFC 3339). */
  lemma OffsetDenotesUtc(ts: Timestamp, u: Timestamp)
    requires ts.zone.Offset? && ValidZone(ts.zone) && u.zone.Zulu?
    requires u.second == ts.second && u.fraction == ts.fraction
    requires ts.zone.sign == PLUS ==> WallMinutes(ts) == WallMinutes(u) + 60 * ts.zone.hour + ts.zone.minute
    requires ts.zone.sign == MINUS ==> WallMinutes(ts) == WallMinutes(u) - 60 * ts.zone.hour - ts.zone.minute
    ensures Instant(ts) == Instant(u) && RoundedSeconds(ts) == RoundedSeconds(u)
  {
  }

  /** The clock one second later, in the same zone. */
  function Tick(ts: Timestamp): Timestamp {
    if ts.second < 59 then ts.(second := ts.second + 1)
    else if ts.minute < 59 then ts.(minute := ts.minute + 1, second := 0)
    else if ts.hour < 23 then ts.(hour := ts.hour + 1, minute := 0, second := 0)
    else ts.(date := NextDay(ts.date), hour := 0, minute := 0, second := 0)
  }

  lemma TickSeconds(ts: Timestamp)
    requires ts.hour <= 23 && ts.minute <= 59 && ts.second <= 59 && ts.hour >= 0
    requires DaysFromCivil(NextDay(ts.date)) == DaysFromCivil(ts.date) + 1
    ensures WholeSeconds(Tick(ts)) == WholeSeconds(ts) + 1
  {
  }

  /** One second on the clock is one second of time, across minutes, hours, days, months and years. */
  lemma TickIsOneSecond(ts: Timestamp)
    requires ValidTimestamp(ts)
    ensures Instant(Tick(ts)) == Instant(ts) + 1.0
  {
    NextDayIsNextNumber(ts.date);
    TickSeconds(ts);
  }

  /** Midnight UTC at the start of 1970 reads zero. */
  lemma EpochInstant(ts: Timestamp)
    requires ts.date == Date(1970, 1, 1) && ts.hour == 0 && ts.minute == 0 && ts.second == 0
    requires ts.fraction == [] && ts.zone.Zulu?
    ensures Instant(ts) == 0.0
  {
    EpochIsDayZero();
    assert WholeSeconds(ts) == 0;
  }

  const NINE_HOURS_AHEAD := Timestamp(Date(2021, 1, 1), UPPER_T, 0, 0, 0, [], Offset(PLUS, 9, 0))
  const FIVE_HOURS_BEHIND := Timestamp(Date(2021, 1, 1), UPPER_T, 0, 0, 0, [], Offset(MINUS, 5, 0))

  lemma OffsetTexts()
    ensures PrintZone(NINE_HOURS_AHEAD.zone) == Ascii("+09:00")
    ensures PrintZone(FIVE_HOURS_BEHIND.zone) == Ascii("-05:00")
    ensures PrintTime(UPPER_T, 12, 34, 56) == Ascii("T12:34:56")
  {
  }

  /** `2021-01-01T00:00:00+09:00` and `2021-01-01T00:00:00-05:00`. */
  lemma OffsetExamples()
    ensures RoundedSeconds(NINE_HOURS_AHEAD) == 1_609_426_800
    ensures RoundedSeconds(FIVE_HOURS_BEHIND) == 1_609_477_200
  {
  }
}
