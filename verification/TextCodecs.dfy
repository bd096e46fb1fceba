/** Decimal, hexadecimal, base64 and JSON-string encodings, as the signed-message
    builders and the checkpoint parser use them. */
module TextCodecs {
  import opened Basics
  import opened Digits
  import opened Primitives

  // ---- decimal numerals ----

  /** The decimal numeral of `n`, without leading zeros. */
  function Decimal(n: nat): (s: Bytes)
    ensures s != [] && AllDigits(s)
    ensures |s| > 1 ==> s[0] != ZERO
  {
    if n < 10 then [ZERO + n] else Decimal(n / 10) + [ZERO + n % 10]
  }

  lemma {:induction false} DecimalValue(n: nat)
    ensures DigitsValue(Decimal(n)) == n
  {
    var s := Decimal(n);
    if n < 10 {
      assert DigitsValue(s[..0]) == 0;
    } else {
      DecimalValue(n / 10);
      assert s[..|s| - 1] == Decimal(n / 10);
    }
  }

  lemma DecimalInjective(a: nat, b: nat)
    requires Decimal(a) == Decimal(b)
    ensures a == b
  {
    DecimalValue(a);
    DecimalValue(b);
  }

  // ---- the numerals that are accepted ----

  const PLUS: byte := 43

  /** The standard library's `u64` parse: an optional `+`, then at least one digit, below 2^64. */
  function ParseU64(s: Bytes): Option<nat> {
    var digits := if s != [] && s[0] == PLUS then s[1..] else s;
    if digits != [] && AllDigits(digits) && 0 <= DigitsValue(digits) < U64_LIMIT
    then Some(DigitsValue(digits)) else None
  }

  lemma ParseU64OfDecimal(n: nat)
    requires n < U64_LIMIT
    ensures ParseU64(Decimal(n)) == Some(n)
  {
    DecimalValue(n);
    assert IsDigit(Decimal(n)[0]);
  }

  function Zeros(k: nat): (z: Bytes)
    ensures |z| == k && AllDigits(z)
    ensures k > 0 ==> z[0] == ZERO
  {
    if k == 0 then [] else Zeros(k - 1) + [ZERO]
  }

  /** Dropping and appending the last digit. */
  lemma LastDigit(front: Bytes, d: byte)
    ensures DigitsValue(front + [d]) == DigitsValue(front) * 10 + (d - ZERO)
    ensures AllDigits(front + [d]) <==> AllDigits(front) && IsDigit(d)
  {
    assert (front + [d])[..|front|] == front;
    assert forall k :: 0 <= k < |front| ==> (front + [d])[k] == front[k];
  }

  lemma Append(z: Bytes, front: Bytes, last: Bytes)
    ensures z + (front + last) == (z + front) + last
  {
  }

  lemma FrontAndLast(s: Bytes)
    requires s != []
    ensures s == s[..|s| - 1] + [s[|s| - 1]]
  {
  }

  lemma {:induction false} ZerosAreWorthNothing(z: nat)
    ensures DigitsValue(Zeros(z)) == 0
  {
    if z > 0 {
      ZerosAreWorthNothing(z - 1);
      LastDigit(Zeros(z - 1), ZERO);
    }
  }

  /** Leading zeros do not change the value. */
  lemma {:induction false} ZerosAreSilent(z: nat, n: nat)
    ensures DigitsValue(Zeros(z) + Decimal(n)) == n && AllDigits(Zeros(z) + Decimal(n))
    decreases n
  {
    if n < 10 {
      ZerosAreWorthNothing(z);
      LastDigit(Zeros(z), ZERO + n);
    } else {
      ZerosAreSilent(z, n / 10);
      Append(Zeros(z), Decimal(n / 10), [ZERO + n % 10]);
      LastDigit(Zeros(z) + Decimal(n / 10), ZERO + n % 10);
    }
  }

  lemma DecimalStep(v: nat, d: byte)
    requires v > 0 && IsDigit(d)
    ensures Decimal(v * 10 + (d - ZERO)) == Decimal(v) + [d]
  {
  }

  lemma OneDigit(d: byte, v: nat) returns (z: nat)
    requires IsDigit(d) && v == d - ZERO
    ensures Decimal(v) == [d] && Zeros(z) + Decimal(v) == [d]
  {
    z := 0;
  }

  /** One more digit lengthens the numeral, or the zeros when the numeral was zero. */
  lemma OneMoreDigit(z: nat, v: nat, d: byte, n: nat) returns (z': nat)
    requires IsDigit(d) && n == v * 10 + (d - ZERO)
    ensures Zeros(z) + Decimal(v) + [d] == Zeros(z') + Decimal(n)
  {
    if v == 0 {
      var _ := OneDigit(d, n);
      var _ := OneDigit(ZERO, v);
      z' := z + 1;
    } else {
      DecimalStep(v, d);
      Append(Zeros(z), Decimal(v), [d]);
      z' := z;
    }
  }

  /** Any digits are zeros and then the numeral of their value. */
  lemma {:induction false} ZerosThenDecimal(s: Bytes) returns (z: nat, n: nat)
    requires s != [] && AllDigits(s)
    ensures DigitsValue(s) == n && s == Zeros(z) + Decimal(n)
  {
    FrontAndLast(s);
    var front, d := s[..|s| - 1], s[|s| - 1];
    LastDigit(front, d);
    if front == [] {
      n := d - ZERO;
      z := OneDigit(d, n);
    } else {
      var z', v := ZerosThenDecimal(front);
      n := v * 10 + (d - ZERO);
      z := OneMoreDigit(z', v, d, n);
    }
  }

  /** A numeral as the parse admits it: an optional plus, any number of zeros, the decimal numeral. */
  function Admitted(plus: bool, z: nat, n: nat): Bytes {
    (if plus then [PLUS] else []) + (Zeros(z) + Decimal(n))
  }

  lemma AfterSign(sign: byte, digits: Bytes)
    ensures ([sign] + digits)[0] == sign && ([sign] + digits)[1..] == digits && [] + digits == digits
  {
  }

  lemma SignedDigitsParse(plus: bool, digits: Bytes, n: nat)
    requires digits != [] && AllDigits(digits) && DigitsValue(digits) == n < U64_LIMIT
    ensures ParseU64((if plus then [PLUS] else []) + digits) == Some(n)
  {
    AfterSign(PLUS, digits);
    assert IsDigit(digits[0]);
  }

  lemma AdmittedParses(plus: bool, z: nat, n: nat)
    requires n < U64_LIMIT
    ensures ParseU64(Admitted(plus, z, n)) == Some(n)
  {
    ZerosAreSilent(z, n);
    SignedDigitsParse(plus, Zeros(z) + Decimal(n), n);
  }

  /** The accepted texts of a number are exactly these. */
  lemma ParseU64Exact(s: Bytes, n: nat)
    ensures ParseU64(s) == Some(n) <==> n < U64_LIMIT && exists plus, z :: s == Admitted(plus, z, n)
  {
    if ParseU64(s) == Some(n) {
      var plus := s != [] && s[0] == PLUS;
      var z, v := ZerosThenDecimal(if plus then s[1..] else s);
      assert s == Admitted(plus, z, n);
    }
    if n < U64_LIMIT && exists plus, z :: s == Admitted(plus, z, n) {
      var plus, z :| s == Admitted(plus, z, n);
      AdmittedParses(plus, z, n);
    }
  }

  /** The parse is strict in the documented sense, accepting only the numeral that would be printed, exactly for
      texts without a plus and without a zero before another digit. */
  lemma ParseU64CanonicalIff(s: Bytes, n: nat)
    requires ParseU64(s) == Some(n)
    ensures s != [] && (s == Decimal(n) <==> s[0] != PLUS && (s[0] != ZERO || |s| == 1))
  {
    ParseU64Exact(s, n);
    var plus, z :| s == Admitted(plus, z, n);
    if !plus {
      assert s == Zeros(z) + Decimal(n);
      if z == 0 {
        assert s == Decimal(n);
      } else {
        assert s[0] == Zeros(z)[0] == ZERO && |s| > 1;
      }
    } else {
      assert IsDigit(Decimal(n)[0]);
    }
  }

  /** The two smallest departures: a plus, and a leading zero. */
  lemma ParseU64AcceptsPlusAndZeros()
    ensures ParseU64([PLUS, 53]) == ParseU64([ZERO, 53]) == ParseU64([53]) == Some(5)
  {
    assert [PLUS, 53] == Admitted(true, 0, 5) && [ZERO, 53] == Admitted(false, 1, 5) && [53] == Admitted(false, 0, 5);
    ParseU64Exact([PLUS, 53], 5);
    ParseU64Exact([ZERO, 53], 5);
    ParseU64Exact([53], 5);
  }

  /** The number whose numeral a text is: digits without sign and without a zero in front. */
  function ReadNumeral(s: Bytes): Option<int> {
    if s != [] && AllDigits(s) && (|s| == 1 || s[0] != ZERO) then Some(DigitsValue(s)) else None
  }

  lemma LeadingZero(z: nat, digits: Bytes)
    ensures z > 0 && digits != [] ==> |Zeros(z) + digits| > 1 && (Zeros(z) + digits)[0] == ZERO
  {
  }

  /** A numeral is read exactly when it is the one that would be written. */
  lemma ReadNumeralExact(s: Bytes, n: nat)
    ensures ReadNumeral(s) == Some(n) <==> s == Decimal(n)
  {
    DecimalValue(n);
    if ReadNumeral(s) == Some(n) {
      var z, v := ZerosThenDecimal(s);
      LeadingZero(z, Decimal(v));
    }
  }

  lemma DecimalAvoids(n: nat, stop: byte)
    requires !IsDigit(stop)
    ensures stop !in Decimal(n)
  {
  }

  /** Numerals followed by the same non-digit are equal when the texts are. */
  lemma DecimalPrefix(a: nat, b: nat, stop: byte, x: Bytes, y: Bytes)
    requires !IsDigit(stop) && Decimal(a) + [stop] + x == Decimal(b) + [stop] + y
    ensures a == b && x == y
  {
    DecimalAvoids(a, stop);
    DecimalAvoids(b, stop);
    SplitAtStop(stop, Decimal(a), x, Decimal(b), y);
    DecimalInjective(a, b);
  }

  // ---- lowercase hexadecimal (section 8 of RFC 4648) ----

  function HexDigit(v: int): (b: byte)
    requires 0 <= v < 16
    ensures b != 34
  {
    if v < 10 then 48 + v else 87 + v
  }

  function Hex(s: Bytes): (h: Bytes)
    ensures |h| == 2 * |s| && 34 !in h
  {
    if s == [] then [] else [HexDigit(s[0] / 16), HexDigit(s[0] % 16)] + Hex(s[1..])
  }

  lemma HexDigitInjective(v: int, w: int)
    requires 0 <= v < 16 && 0 <= w < 16 && HexDigit(v) == HexDigit(w)
    ensures v == w
  {
  }

  /** The value of a lowercase hexadecimal digit. */
  function HexValue(b: byte): Option<int> {
    if '0' as int <= b <= '9' as int then Some(b - '0' as int)
    else if 'a' as int <= b <= 'f' as int then Some(b - 'a' as int + 10)
    else None
  }

  /** Two digits for each byte, the high one first. */
  predicate IsHexOf(h: Bytes, s: Bytes) {
    |h| == 2 * |s|
    && forall i :: 0 <= i < |s| ==> HexValue(h[2 * i]) == Some(s[i] / 16) && HexValue(h[2 * i + 1]) == Some(s[i] % 16)
  }

  lemma HexDigitExact(b: byte, v: int)
    requires 0 <= v < 16
    ensures b == HexDigit(v) <==> HexValue(b) == Some(v)
  {
  }

  lemma IsHexOfCons(h: Bytes, s: Bytes)
    requires s != [] && |h| == 2 * |s|
    ensures IsHexOf(h, s)
        <==> HexValue(h[0]) == Some(s[0] / 16) && HexValue(h[1]) == Some(s[0] % 16) && IsHexOf(h[2..], s[1..])
  {
    assert forall i :: 0 <= i < |s| - 1 ==> s[1..][i] == s[i + 1];
    assert forall i :: 1 <= i < |s| ==> s[i] == s[1..][i - 1];
  }

  /** The hexadecimal text is read back digit by digit, and is the only one that is. */
  lemma {:induction false} HexExact(h: Bytes, s: Bytes)
    ensures h == Hex(s) <==> IsHexOf(h, s)
  {
    if s != [] && |h| == 2 * |s| {
      HexExact(h[2..], s[1..]);
      IsHexOfCons(h, s);
      HexDigitExact(h[0], s[0] / 16);
      HexDigitExact(h[1], s[0] % 16);
      assert h == [h[0], h[1]] + h[2..];
    }
  }

  lemma HexInjective(s: Bytes, t: Bytes)
    requires Hex(s) == Hex(t)
    ensures s == t
  {
    HexExact(Hex(s), s);
    HexExact(Hex(s), t);
    forall i | 0 <= i < |s|
      ensures s[i] == t[i]
    {
      assert s[i] / 16 == t[i] / 16 && s[i] % 16 == t[i] % 16;
    }
  }

  // ---- padded base64 (section 4 of RFC 4648) ----

  const PAD: byte := 61

  function SextetValue(b: byte): (v: Option<int>)
    ensures v.Some? ==> 0 <= v.value < 64
  {
    if 65 <= b <= 90 then Some(b - 65)
    else if 97 <= b <= 122 then Some(b - 71)
    else if 48 <= b <= 57 then Some(b + 4)
    else if b == 43 then Some(62)
    else if b == 47 then Some(63)
    else None
  }

  function Sextet(v: int): (b: byte)
    requires 0 <= v < 64
    ensures b != PAD && b > 32 && b != 34 && b != 92 && SextetValue(b) == Some(v)
  {
    if v < 26 then 65 + v
    else if v < 52 then 71 + v
    else if v < 62 then v - 4
    else if v == 62 then 43
    else 47
  }

  lemma SextetOfValue(b: byte)
    requires SextetValue(b).Some?
    ensures Sextet(SextetValue(b).value) == b
  {
  }

  // The four sextets that three bytes are cut into, and the three bytes that four sextets are joined to.

  function Cut0(a: byte): (v: int)
    ensures 0 <= v < 64
  {
    a / 4
  }

  function Cut1(a: byte, b: byte): (v: int)
    ensures 0 <= v < 64
  {
    a % 4 * 16 + b / 16
  }

  function Cut2(b: byte, c: byte): (v: int)
    ensures 0 <= v < 64
  {
    b % 16 * 4 + c / 64
  }

  function Cut3(c: byte): (v: int)
    ensures 0 <= v < 64
  {
    c % 64
  }

  /** The sextets that end a last group: their low bits are zero. */
  function LastCut1(a: byte): (v: int)
    ensures 0 <= v < 64
  {
    a % 4 * 16
  }

  function LastCut2(b: byte): (v: int)
    ensures 0 <= v < 64
  {
    b % 16 * 4
  }

  type sextet = v: int | 0 <= v < 64

  function Join0(v0: sextet, v1: sextet): byte {
    v0 * 4 + v1 / 16
  }

  function Join1(v1: sextet, v2: sextet): byte {
    v1 % 16 * 16 + v2 / 4
  }

  function Join2(v2: sextet, v3: sextet): byte {
    v2 % 4 * 64 + v3
  }

  /** Base64 text holds no quotes, backslashes or control characters. */
  predicate Printable(s: Bytes) {
    forall k :: 0 <= k < |s| ==> s[k] > 32 && s[k] != 34 && s[k] != 92
  }

  lemma PrintableTogether(s: Bytes, t: Bytes)
    requires Printable(s) && Printable(t)
    ensures Printable(s + t)
  {
  }

  function Triple(a: byte, b: byte, c: byte): (r: Bytes)
    ensures |r| == 4 && Printable(r)
  {
    [Sextet(Cut0(a)), Sextet(Cut1(a, b)), Sextet(Cut2(b, c)), Sextet(Cut3(c))]
  }

  /** A last group of two bytes. */
  function Pair(a: byte, b: byte): (r: Bytes)
    ensures |r| == 4 && Printable(r)
  {
    [Sextet(Cut0(a)), Sextet(Cut1(a, b)), Sextet(LastCut2(b)), PAD]
  }

  /** A last group of one byte. */
  function Single(a: byte): (r: Bytes)
    ensures |r| == 4 && Printable(r)
  {
    [Sextet(Cut0(a)), Sextet(LastCut1(a)), PAD, PAD]
  }

  function Base64(s: Bytes): (r: Bytes)
    ensures s != [] ==> r != []
    ensures Printable(r)
  {
    if |s| == 0 then []
    else if |s| == 1 then Single(s[0])
    else if |s| == 2 then Pair(s[0], s[1])
    else
      PrintableTogether(Triple(s[0], s[1], s[2]), Base64(s[3..]));
      Triple(s[0], s[1], s[2]) + Base64(s[3..])
  }

  /** The last group of four characters: one to three bytes, with canonical padding and no stray bits. */
  function DecodeGroup(s: Bytes): Option<Bytes>
    requires |s| == 4
  {
    var v0, v1, v2, v3 := SextetValue(s[0]), SextetValue(s[1]), SextetValue(s[2]), SextetValue(s[3]);
    if v0.None? || v1.None? then None
    else if s[2] == PAD && s[3] == PAD then
      if v1.value % 16 == 0 then Some([Join0(v0.value, v1.value)]) else None
    else if v2.None? then None
    else if s[3] == PAD then
      if v2.value % 4 == 0 then Some([Join0(v0.value, v1.value), Join1(v1.value, v2.value)]) else None
    else if v3.None? then None
    else Some([Join0(v0.value, v1.value), Join1(v1.value, v2.value), Join2(v2.value, v3.value)])
  }

  /** `strict_base64`: the standard padded alphabet and nothing else. */
  function ParseBase64(s: Bytes): Option<Bytes> {
    if s == [] then Some([])
    else if |s| < 4 then None
    else
      var head := DecodeGroup(s[..4]);
      if head.None? then None
      else if |s| == 4 then head
      else if |head.value| < 3 then None
      else
        var rest := ParseBase64(s[4..]);
        if rest.None? then None else Some(head.value + rest.value)
  }

  /** A byte cut over two sextets and joined again, at each of the three positions. */
  lemma CutThenJoin(a: byte, b: byte, c: byte)
    ensures Join0(Cut0(a), Cut1(a, b)) == a
    ensures Join1(Cut1(a, b), Cut2(b, c)) == b
    ensures Join2(Cut2(b, c), Cut3(c)) == c
  {
    assert Cut1(a, b) / 16 == a % 4 && Cut1(a, b) % 16 == b / 16;
    assert Cut2(b, c) / 4 == b % 16 && Cut2(b, c) % 4 == c / 64;
  }

  lemma LastCutThenJoin(a: byte, b: byte)
    ensures LastCut1(a) % 16 == 0 && Join0(Cut0(a), LastCut1(a)) == a
    ensures LastCut2(b) % 4 == 0 && Join1(Cut1(a, b), LastCut2(b)) == b
  {
    assert LastCut1(a) / 16 == a % 4;
    assert LastCut2(b) / 4 == b % 16 && Cut1(a, b) % 16 == b / 16;
  }

  /** Sextets joined over two bytes and cut again. */
  lemma JoinThenCut(v0: sextet, v1: sextet, v2: sextet, v3: sextet)
    ensures Cut0(Join0(v0, v1)) == v0
    ensures Cut1(Join0(v0, v1), Join1(v1, v2)) == v1
    ensures Cut2(Join1(v1, v2), Join2(v2, v3)) == v2
    ensures Cut3(Join2(v2, v3)) == v3
  {
    assert Join0(v0, v1) / 4 == v0 && Join0(v0, v1) % 4 == v1 / 16;
    assert Join1(v1, v2) / 16 == v1 % 16 && Join1(v1, v2) % 16 == v2 / 4;
    assert Join2(v2, v3) / 64 == v2 % 4 && Join2(v2, v3) % 64 == v3;
  }

  /** The same for a last group, whose unused bits are zero. */
  lemma JoinThenCutLast(v0: sextet, v1: sextet, v2: sextet)
    ensures Cut0(Join0(v0, v1)) == v0
    ensures v1 % 16 == 0 ==> LastCut1(Join0(v0, v1)) == v1
    ensures v2 % 4 == 0 ==> LastCut2(Join1(v1, v2)) == v2
  {
    assert Join0(v0, v1) / 4 == v0 && Join0(v0, v1) % 4 == v1 / 16;
    assert Join1(v1, v2) % 16 == v2 / 4;
  }

  lemma DecodeSextets(v0: sextet, v1: sextet, v2: sextet, v3: sextet)
    ensures DecodeGroup([Sextet(v0), Sextet(v1), Sextet(v2), Sextet(v3)])
         == Some([Join0(v0, v1), Join1(v1, v2), Join2(v2, v3)])
  {
  }

  lemma DecodeTriple(a: byte, b: byte, c: byte)
    ensures DecodeGroup(Triple(a, b, c)) == Some([a, b, c])
  {
    CutThenJoin(a, b, c);
    DecodeSextets(Cut0(a), Cut1(a, b), Cut2(b, c), Cut3(c));
  }

  lemma DecodePair(a: byte, b: byte)
    ensures DecodeGroup(Pair(a, b)) == Some([a, b])
  {
    CutThenJoin(a, b, b);
    LastCutThenJoin(a, b);
  }

  lemma DecodeSingle(a: byte)
    ensures DecodeGroup(Single(a)) == Some([a])
  {
    LastCutThenJoin(a, a);
  }

  lemma EncodeOne(s: Bytes)
    requires |s| == 4 && s[2] == PAD && s[3] == PAD && DecodeGroup(s).Some?
    ensures |DecodeGroup(s).value| == 1 && Base64(DecodeGroup(s).value) == s
  {
    var v0, v1 := SextetValue(s[0]).value, SextetValue(s[1]).value;
    SextetOfValue(s[0]);
    SextetOfValue(s[1]);
    JoinThenCutLast(v0, v1, v1);
    assert Single(Join0(v0, v1)) == s;
  }

  lemma EncodeTwo(s: Bytes)
    requires |s| == 4 && s[2] != PAD && s[3] == PAD && DecodeGroup(s).Some?
    ensures |DecodeGroup(s).value| == 2 && Base64(DecodeGroup(s).value) == s
  {
    var v0, v1, v2 := SextetValue(s[0]).value, SextetValue(s[1]).value, SextetValue(s[2]).value;
    SextetOfValue(s[0]);
    SextetOfValue(s[1]);
    SextetOfValue(s[2]);
    JoinThenCut(v0, v1, v2, v2);
    JoinThenCutLast(v0, v1, v2);
    assert Pair(Join0(v0, v1), Join1(v1, v2)) == s;
  }

  lemma EncodeThree(s: Bytes)
    requires |s| == 4 && s[3] != PAD && DecodeGroup(s).Some?
    ensures var d := DecodeGroup(s).value; |d| == 3 && Triple(d[0], d[1], d[2]) == s
  {
    var v0, v1 := SextetValue(s[0]).value, SextetValue(s[1]).value;
    var v2, v3 := SextetValue(s[2]).value, SextetValue(s[3]).value;
    SextetOfValue(s[0]);
    SextetOfValue(s[1]);
    SextetOfValue(s[2]);
    SextetOfValue(s[3]);
    JoinThenCut(v0, v1, v2, v3);
  }

  /** One full group in front of an encoding. */
  lemma ParseGroupThen(group: Bytes, rest: Bytes, head: Bytes, tail: Bytes)
    requires |group| == 4 && |head| == 3 && DecodeGroup(group) == Some(head) && ParseBase64(rest) == Some(tail)
    ensures ParseBase64(group + rest) == Some(head + tail)
  {
    assert (group + rest)[..4] == group && (group + rest)[4..] == rest;
    if rest == [] {
      assert head + tail == head;
    }
  }

  lemma ParseLastGroup(group: Bytes, head: Bytes)
    requires |group| == 4 && DecodeGroup(group) == Some(head)
    ensures ParseBase64(group) == Some(head)
  {
    assert group[..4] == group;
  }

  lemma FirstOne(s: Bytes)
    requires |s| == 1
    ensures s == [s[0]]
  {
  }

  lemma FirstTwo(s: Bytes)
    requires |s| == 2
    ensures s == [s[0], s[1]]
  {
  }

  lemma FirstThree(s: Bytes)
    requires |s| >= 3
    ensures s == [s[0], s[1], s[2]] + s[3..]
  {
  }

  /** Decoding inverts encoding. */
  lemma {:induction false} ParseBase64OfBase64(s: Bytes)
    ensures ParseBase64(Base64(s)) == Some(s)
  {
    if |s| >= 3 {
      FirstThree(s);
      ParseBase64OfBase64(s[3..]);
      DecodeTriple(s[0], s[1], s[2]);
      ParseGroupThen(Triple(s[0], s[1], s[2]), Base64(s[3..]), [s[0], s[1], s[2]], s[3..]);
    } else if |s| == 2 {
      FirstTwo(s);
      DecodePair(s[0], s[1]);
      ParseLastGroup(Pair(s[0], s[1]), [s[0], s[1]]);
    } else if |s| == 1 {
      FirstOne(s);
      DecodeSingle(s[0]);
      ParseLastGroup(Single(s[0]), [s[0]]);
    }
  }

  lemma FullGroupVector()
    ensures Triple(102, 111, 111) == Ascii("Zm9v")
  {
    AsciiFour("Zm9v");
  }

  lemma OneByteVector()
    ensures Single(98) == Ascii("Yg==")
  {
    AsciiFour("Yg==");
  }

  lemma TwoByteVector()
    ensures Pair(98, 97) == Ascii("YmE=")
  {
    AsciiFour("YmE=");
  }

  lemma LastCharacters()
    ensures Pair(0xFB, 0xFF) == Ascii("+/8=")
  {
    AsciiFour("+/8=");
  }

  lemma Base64Cons(a: byte, b: byte, c: byte, rest: Bytes)
    ensures Base64([a, b, c] + rest) == Triple(a, b, c) + Base64(rest)
  {
    assert ([a, b, c] + rest)[3..] == rest;
  }

  const FOO: Bytes := [102, 111, 111]

  /** Test vectors of section 10 of RFC 4648, one for each kind of last group, and the end of the alphabet. */
  lemma Base64Vectors()
    ensures Base64(FOO + []) == Ascii("Zm9v") + []
    ensures Base64(FOO + [98, 97]) == Ascii("Zm9v") + Ascii("YmE=")
    ensures Base64(FOO + [98]) == Ascii("Zm9v") + Ascii("Yg==")
    ensures Base64([0xFB, 0xFF]) == Ascii("+/8=")
  {
    FullGroupVector();
    OneByteVector();
    TwoByteVector();
    LastCharacters();
    Base64Cons(102, 111, 111, []);
    Base64Cons(102, 111, 111, [98, 97]);
    Base64Cons(102, 111, 111, [98]);
  }

  /** Every accepted text is the canonical encoding of what it decodes to. */
  lemma {:induction false} Base64OfParseBase64(s: Bytes)
    requires ParseBase64(s).Some?
    ensures Base64(ParseBase64(s).value) == s
  {
    if s != [] {
      var group := s[..4];
      if s[3] != PAD {
        EncodeThree(group);
        var head := DecodeGroup(group).value;
        assert s == group + s[4..];
        if |s| > 4 {
          var rest := ParseBase64(s[4..]).value;
          Base64OfParseBase64(s[4..]);
          assert (head + rest)[3..] == rest;
        } else {
          assert head[3..] == [];
        }
      } else {
        if s[2] != PAD {
          EncodeTwo(group);
        } else {
          EncodeOne(group);
        }
        assert group == s;
      }
    }
  }

  lemma WholeGroups(group: Bytes, rest: Bytes)
    requires |group| == 4 && |rest| % 4 == 0
    ensures |group + rest| % 4 == 0
  {
  }

  /** Padding fills the text up to whole groups of four. */
  lemma {:induction false} Base64Groups(s: Bytes)
    ensures |Base64(s)| % 4 == 0
  {
    if |s| >= 3 {
      Base64Groups(s[3..]);
      WholeGroups(Triple(s[0], s[1], s[2]), Base64(s[3..]));
    }
  }

  lemma Base64Injective(s: Bytes, t: Bytes)
    requires Base64(s) == Base64(t)
    ensures s == t
  {
    ParseBase64OfBase64(s);
    ParseBase64OfBase64(t);
  }

  // ---- JSON strings (section 7 of RFC 8259) ----

  const QUOTE: byte := 34
  const BACKSLASH: byte := 92

  /** `serde_json`'s escape of one byte: short escapes where they exist, `\u00xx` for other controls. */
  function EscapeByte(b: byte): (e: Bytes)
    ensures e != [] && e[0] != QUOTE
  {
    if b == QUOTE || b == BACKSLASH then [BACKSLASH, b]
    else if b == 8 then [BACKSLASH, 98]
    else if b == 9 then [BACKSLASH, 116]
    else if b == 10 then [BACKSLASH, 110]
    else if b == 12 then [BACKSLASH, 102]
    else if b == 13 then [BACKSLASH, 114]
    else if b < 32 then [BACKSLASH, 117, 48, 48, HexDigit(b / 16), HexDigit(b % 16)]
    else [b]
  }

  function Escape(s: Bytes): Bytes {
    if s == [] then [] else EscapeByte(s[0]) + Escape(s[1..])
  }

  function JsonString(s: Bytes): Bytes {
    [QUOTE] + Escape(s) + [QUOTE]
  }

  /** The first byte of a JSON string's content, as a reader takes it, and what follows. A `\u` escape is read
      only for ASCII, which is written in one byte. */
  function ReadEscaped(s: Bytes): Option<(byte, Bytes)> {
    if s == [] || s[0] < 32 || s[0] == QUOTE then None
    else if s[0] != BACKSLASH then Some((s[0], s[1..]))
    else if |s| < 2 then None
    else if s[1] == 'u' as int then
      if |s| < 6 || s[2] != ZERO || s[3] != ZERO || HexValue(s[4]).None? || HexValue(s[5]).None? then None
      else
        var v := HexValue(s[4]).value * 16 + HexValue(s[5]).value;
        if v < 128 then Some((v, s[6..])) else None
    else if s[1] == QUOTE || s[1] == BACKSLASH || s[1] == '/' as int then Some((s[1], s[2..]))
    else if s[1] == 'b' as int then Some((8, s[2..]))
    else if s[1] == 't' as int then Some((9, s[2..]))
    else if s[1] == 'n' as int then Some((10, s[2..]))
    else if s[1] == 'f' as int then Some((12, s[2..]))
    else if s[1] == 'r' as int then Some((13, s[2..]))
    else None
  }

  /** The content of a JSON string whose opening quote has been read, and what follows its closing quote. */
  function ReadContent(s: Bytes): Option<(Bytes, Bytes)>
    decreases |s|
  {
    if s != [] && s[0] == QUOTE then Some(([], s[1..]))
    else
      var first := ReadEscaped(s);
      if first.None? || |first.value.1| >= |s| then None
      else
        var more := ReadContent(first.value.1);
        if more.None? then None else Some(([first.value.0] + more.value.0, more.value.1))
  }

  function ReadJsonString(s: Bytes): Option<(Bytes, Bytes)> {
    if s != [] && s[0] == QUOTE then ReadContent(s[1..]) else None
  }

  lemma ReadEscapedByte(b: byte, rest: Bytes)
    ensures ReadEscaped(EscapeByte(b) + rest) == Some((b, rest))
  {
    var e := EscapeByte(b);
    var s := e + rest;
    assert s[|e|..] == rest;
    assert forall k :: 0 <= k < |e| ==> s[k] == e[k];
    if b < 32 {
      HexDigitExact(HexDigit(b / 16), b / 16);
      HexDigitExact(HexDigit(b % 16), b % 16);
    }
  }

  lemma EscapeCons(s: Bytes, tail: Bytes)
    requires s != []
    ensures Escape(s) + tail == EscapeByte(s[0]) + (Escape(s[1..]) + tail)
  {
  }

  lemma {:induction false} ReadEscapedContent(s: Bytes, rest: Bytes)
    ensures ReadContent(Escape(s) + ([QUOTE] + rest)) == Some((s, rest))
  {
    if s == [] {
      assert Escape(s) + ([QUOTE] + rest) == [QUOTE] + rest;
    } else {
      var tail := Escape(s[1..]) + ([QUOTE] + rest);
      EscapeCons(s, [QUOTE] + rest);
      ReadEscapedByte(s[0], tail);
      ReadEscapedContent(s[1..], rest);
      HeadAndTail(s);
    }
  }

  lemma Requote(e: Bytes, x: Bytes)
    ensures [QUOTE] + e + [QUOTE] + x == [QUOTE] + (e + ([QUOTE] + x))
  {
  }

  /** A JSON string in front of any text is read back to its content, whatever bytes it holds. */
  lemma ReadBackJsonString(s: Bytes, rest: Bytes)
    ensures ReadJsonString(JsonString(s) + rest) == Some((s, rest))
  {
    Requote(Escape(s), rest);
    ReadEscapedContent(s, rest);
  }

  /** A JSON string at the front of a text determines its content and the rest of the text. */
  lemma JsonStringPrefix(s: Bytes, t: Bytes, x: Bytes, y: Bytes)
    requires JsonString(s) + x == JsonString(t) + y
    ensures s == t && x == y
  {
    ReadBackJsonString(s, x);
    ReadBackJsonString(t, y);
  }

  lemma ShortEscapes()
    ensures EscapeByte(8) == Ascii("\\b") && EscapeByte(9) == Ascii("\\t") && EscapeByte(LF) == Ascii("\\n")
    ensures EscapeByte(12) == Ascii("\\f") && EscapeByte(CR) == Ascii("\\r")
  {
    AsciiTwo("\\b");
    AsciiTwo("\\t");
    AsciiTwo("\\n");
    AsciiTwo("\\f");
    AsciiTwo("\\r");
  }

  /** The escapes as they are written: short ones where they exist, lowercase hexadecimal otherwise. */
  lemma EscapesAsWritten()
    ensures EscapeByte(8) == Ascii("\\b") && EscapeByte(9) == Ascii("\\t") && EscapeByte(LF) == Ascii("\\n")
    ensures EscapeByte(12) == Ascii("\\f") && EscapeByte(CR) == Ascii("\\r")
    ensures EscapeByte(QUOTE) == Ascii("\\\"") && EscapeByte(BACKSLASH) == Ascii("\\\\")
    ensures EscapeByte(31) == Ascii("\\u") + Ascii("001f") && EscapeByte(127) == [127]
  {
    ShortEscapes();
    AsciiTwo("\\\"");
    AsciiTwo("\\\\");
    AsciiTwo("\\u");
    AsciiFour("001f");
  }

  /** Bytes that a JSON string shows unchanged. */
  predicate Unescaped(s: Bytes) {
    forall k :: 0 <= k < |s| ==> s[k] >= 32 && s[k] != QUOTE && s[k] != BACKSLASH
  }

  lemma {:induction false} EscapeUnescaped(s: Bytes)
    requires Unescaped(s)
    ensures Escape(s) == s
  {
    if s != [] {
      EscapeUnescaped(s[1..]);
      HeadAndTail(s);
    }
  }

  lemma HexUnescaped(s: Bytes)
    ensures Unescaped(Hex(s))
  {
    HexExact(Hex(s), s);
    var h := Hex(s);
    forall k | 0 <= k < |h|
      ensures h[k] >= 48 && h[k] != BACKSLASH
    {
      assert HexValue(h[2 * (k / 2)]) == Some(s[k / 2] / 16) && HexValue(h[2 * (k / 2) + 1]) == Some(s[k / 2] % 16);
    }
  }

  // ---- the decoders as a parameter ----

  /** What a parser needs of its text decoders: they read back every written number and byte string. */
  ghost predicate ReadsBack(c: TextCodec) {
    (forall n: u64 :: c.number(Decimal(n)) == Some(n)) && (forall b :: c.base64(Base64(b)) == Some(b))
  }

  const STANDARD := TextCodec(ParseU64, ParseBase64)

  lemma StandardReadsBack()
    ensures ReadsBack(STANDARD)
  {
    forall n: u64
      ensures STANDARD.number(Decimal(n)) == Some(n)
    {
      ParseU64OfDecimal(n);
    }
    forall b
      ensures STANDARD.base64(Base64(b)) == Some(b)
    {
      ParseBase64OfBase64(b);
    }
  }
}
