/** Validity windows: the half-open trust-store windows of src/rekor.rs, src/x509.rs
    and src/sct.rs against the real instants their bounds were written as, and the
    closed certificate windows. */
module Windows {
  import opened Basics
  import opened Calendar
  import opened Digits
  import opened Rfc3339

  /** Bounds are the rounded seconds of RFC 3339 texts; an absent end means still valid. */
  datatype ValidityPeriod = ValidityPeriod(start: int, end: Option<int>)

  /** `within_valid_for`, and the log-key half of `check_time_window`. */
  predicate WithinValidFor(t: int, w: ValidityPeriod) {
    w.start <= t && (w.end.None? || t < w.end.value)
  }

  /** A window as its RFC 3339 texts denote it. */
  datatype WrittenPeriod = WrittenPeriod(start: Timestamp, end: Option<Timestamp>)

  ghost predicate ValidWritten(w: WrittenPeriod) {
    ValidTimestamp(w.start) && (w.end.Some? ==> ValidTimestamp(w.end.value))
  }

  function Parsed(w: WrittenPeriod): ValidityPeriod {
    ValidityPeriod(RoundedSeconds(w.start), if w.end.None? then None else Some(RoundedSeconds(w.end.value)))
  }

  /** Rounding the bounds up loses nothing: the integer check decides the real-valued window. */
  lemma WindowDecidesInstants(t: int, w: WrittenPeriod)
    requires ValidWritten(w)
    ensures WithinValidFor(t, Parsed(w))
        <==> Instant(w.start) <= t as real && (w.end.Some? ==> (t as real) < Instant(w.end.value))
  {
    RoundedIsCeiling(w.start);
    CeilingBoundExact(Instant(w.start), RoundedSeconds(w.start), t);
    if w.end.Some? {
      RoundedIsCeiling(w.end.value);
      CeilingBoundExact(Instant(w.end.value), RoundedSeconds(w.end.value), t);
    }
  }

  // ---- bounds in milliseconds ----

  function DigitAt(digits: Bytes, k: nat): int {
    if k < |digits| then digits[k] - ZERO else 0
  }

  function From(digits: Bytes, k: nat): Bytes {
    if k < |digits| then digits[k..] else []
  }

  /** The first three digits after the point, as thousandths of a second. */
  function Thousandths(digits: Bytes): int {
    DigitAt(digits, 0) * 100 + DigitAt(digits, 1) * 10 + DigitAt(digits, 2)
  }

  /** The first whole millisecond at or after a timestamp, read off its text. */
  function FirstMillisecond(ts: Timestamp): int {
    WholeSeconds(ts) * 1000 + Thousandths(ts.fraction) + if HasNonzero(From(ts.fraction, 3)) then 1 else 0
  }

  lemma NextDigit(digits: Bytes, k: nat)
    ensures 10.0 * FractionValue(From(digits, k)) == DigitAt(digits, k) as real + FractionValue(From(digits, k + 1))
  {
    if k < |digits| {
      assert digits[k..][1..] == From(digits, k + 1);
    }
  }

  lemma FirstMillisecondIsCeiling(ts: Timestamp)
    requires ValidTimestamp(ts)
    ensures IsCeiling(FirstMillisecond(ts), 1000.0 * Instant(ts))
  {
    var digits := ts.fraction;
    assert From(digits, 0) == digits;
    NextDigit(digits, 0);
    NextDigit(digits, 1);
    NextDigit(digits, 2);
    FractionRange(From(digits, 3));
  }

  /** A fraction that reaches the next whole second no later than the next whole millisecond: none at all, or
      one beyond 999 thousandths. */
  predicate WholeOrBeyond999(digits: Bytes) {
    !HasNonzero(digits) || (|digits| > 3 && digits[..3] == [NINE, NINE, NINE] && HasNonzero(digits[3..]))
  }

  lemma NonzeroParts(digits: Bytes)
    requires forall b :: b in digits ==> IsDigit(b)
    ensures 0 <= Thousandths(digits) <= 999
    ensures HasNonzero(digits) <==> Thousandths(digits) > 0 || HasNonzero(From(digits, 3))
    ensures Thousandths(digits) == 999 <==> |digits| >= 3 && digits[..3] == [NINE, NINE, NINE]
  {
    assert forall k :: 0 <= k < |digits| ==> digits[k] in digits;
    var rest := From(digits, 3);
    if HasNonzero(digits) {
      var i :| 0 <= i < |digits| && digits[i] != ZERO;
      assert i >= 3 ==> rest[i - 3] != ZERO;
    }
    if HasNonzero(rest) {
      var i :| 0 <= i < |rest| && rest[i] != ZERO;
      assert digits[i + 3] != ZERO;
    }
    if |digits| >= 3 {
      assert digits[..3] == [digits[0], digits[1], digits[2]];
    }
  }

  /** The rounded second is the first millisecond exactly for such fractions. */
  lemma SameCeiling(ts: Timestamp)
    requires ValidTimestamp(ts)
    ensures FirstMillisecond(ts) == 1000 * RoundedSeconds(ts) <==> WholeOrBeyond999(ts.fraction)
    ensures 1000 * RoundedSeconds(ts) - 1000 < FirstMillisecond(ts) <= 1000 * RoundedSeconds(ts)
  {
    NonzeroParts(ts.fraction);
  }

  lemma DayNumberBound(d: Date)
    requires ValidDate(d) && d.year <= 9999
    ensures DaysFromCivil(d) < 4_000_000
  {
    FormulaIsDayCount(d);
  }

  /** Every bound that can be written lies below the largest 64-bit millisecond. */
  lemma FirstMillisecondFits(ts: Timestamp)
    requires ValidTimestamp(ts)
    ensures FirstMillisecond(ts) < U64_LIMIT
  {
    DayNumberBound(ts.date);
    NonzeroParts(ts.fraction);
  }

  // ---- SCT timestamps: milliseconds, truncated to seconds before the comparison ----

  function SctSeconds(ms: nat): nat {
    ms / 1000
  }

  /** The window check of `verify_one_sct`. */
  predicate SctWithin(ms: nat, w: ValidityPeriod) {
    WithinValidFor(SctSeconds(ms), w)
  }

  /** The SCT's own instant lies in the window that the bounds were written as. */
  ghost predicate InWrittenWindow(ms: nat, w: WrittenPeriod) {
    ms as real >= 1000.0 * Instant(w.start) && (w.end.Some? ==> (ms as real) < 1000.0 * Instant(w.end.value))
  }

  /** For this window the check decides the written one, for every 64-bit SCT timestamp. */
  ghost predicate SctCheckExact(w: WrittenPeriod) {
    forall ms: u64 :: SctWithin(ms, Parsed(w)) <==> InWrittenWindow(ms, w)
  }

  /** A bound that truncation cannot miss: not after the epoch, or without a whole millisecond between it and
      the next whole second. */
  ghost predicate Qualifies(ts: Timestamp) {
    Instant(ts) <= 0.0 || WholeOrBeyond999(ts.fraction)
  }

  /** No whole millisecond from the epoch on lies between the bounds. */
  predicate HoldsNoMillisecond(w: WrittenPeriod) {
    w.end.Some? && (FirstMillisecond(w.end.value) <= 0 || FirstMillisecond(w.end.value) <= FirstMillisecond(w.start))
  }

  lemma InWindowByMilliseconds(ms: nat, w: WrittenPeriod)
    requires ValidWritten(w)
    ensures InWrittenWindow(ms, w)
        <==> ms >= FirstMillisecond(w.start) && (w.end.Some? ==> ms < FirstMillisecond(w.end.value))
  {
    FirstMillisecondIsCeiling(w.start);
    CeilingBoundExact(1000.0 * Instant(w.start), FirstMillisecond(w.start), ms);
    if w.end.Some? {
      FirstMillisecondIsCeiling(w.end.value);
      CeilingBoundExact(1000.0 * Instant(w.end.value), FirstMillisecond(w.end.value), ms);
    }
  }

  lemma QualifiesByMilliseconds(ts: Timestamp)
    requires ValidTimestamp(ts)
    ensures Qualifies(ts) <==> RoundedSeconds(ts) <= 0 || FirstMillisecond(ts) == 1000 * RoundedSeconds(ts)
  {
    RoundedIsCeiling(ts);
    SameCeiling(ts);
  }

  /** What a start that does not qualify shuts out: the window's own first millisecond. */
  lemma FirstMillisecondRejected(w: WrittenPeriod)
    requires ValidWritten(w) && !Qualifies(w.start) && !HoldsNoMillisecond(w)
    ensures var ms := FirstMillisecond(w.start);
            0 <= ms < U64_LIMIT && InWrittenWindow(ms, w) && !SctWithin(ms, Parsed(w))
  {
    FirstMillisecondFits(w.start);
    QualifiesByMilliseconds(w.start);
    SameCeiling(w.start);
    InWindowByMilliseconds(FirstMillisecond(w.start), w);
  }

  /** What an end that does not qualify lets in: the first millisecond that is no longer in the window. */
  lemma EndMillisecondAccepted(w: WrittenPeriod)
    requires ValidWritten(w) && w.end.Some? && Qualifies(w.start) && !Qualifies(w.end.value) && !HoldsNoMillisecond(w)
    ensures var ms := FirstMillisecond(w.end.value);
            0 <= ms < U64_LIMIT && !InWrittenWindow(ms, w) && SctWithin(ms, Parsed(w))
  {
    FirstMillisecondFits(w.end.value);
    QualifiesByMilliseconds(w.start);
    QualifiesByMilliseconds(w.end.value);
    SameCeiling(w.start);
    SameCeiling(w.end.value);
    InWindowByMilliseconds(FirstMillisecond(w.end.value), w);
  }

  lemma QualifiedBoundsAreExact(ms: nat, w: WrittenPeriod)
    requires ValidWritten(w)
    requires HoldsNoMillisecond(w) || (Qualifies(w.start) && (w.end.Some? ==> Qualifies(w.end.value)))
    ensures SctWithin(ms, Parsed(w)) <==> InWrittenWindow(ms, w)
  {
    InWindowByMilliseconds(ms, w);
    QualifiesByMilliseconds(w.start);
    SameCeiling(w.start);
    if w.end.Some? {
      QualifiesByMilliseconds(w.end.value);
      SameCeiling(w.end.value);
    }
  }

  /** The check on truncated seconds decides the written window exactly when both bounds qualify, or the window
      holds no whole millisecond anyway. Both conditions are read off the bounds' texts. */
  lemma SctWindowExactIff(w: WrittenPeriod)
    requires ValidWritten(w)
    ensures SctCheckExact(w)
        <==> (Qualifies(w.start) && (w.end.Some? ==> Qualifies(w.end.value))) || HoldsNoMillisecond(w)
  {
    if HoldsNoMillisecond(w) || (Qualifies(w.start) && (w.end.Some? ==> Qualifies(w.end.value))) {
      forall ms: u64
        ensures SctWithin(ms, Parsed(w)) <==> InWrittenWindow(ms, w)
      {
        QualifiedBoundsAreExact(ms, w);
      }
    } else if !Qualifies(w.start) {
      FirstMillisecondRejected(w);
    } else {
      EndMillisecondAccepted(w);
    }
  }

  /** A window whose bounds carry no nonzero fraction digit is decided exactly. */
  lemma SctExactForWholeSeconds(w: WrittenPeriod)
    requires ValidWritten(w)
    requires !HasNonzero(w.start.fraction) && (w.end.Some? ==> !HasNonzero(w.end.value.fraction))
    ensures SctCheckExact(w)
  {
    SctWindowExactIff(w);
  }

  // ---- the window of a log in the crate's own trust root ----

  const CT_LOG_START_TEXT := Ascii("2021-03-14") + Ascii("T00:00:00") + Ascii("Z")
  const CT_LOG_END_TEXT := Ascii("2022-10-31") + Ascii("T23:59:59") + Ascii(".999Z")

  const CT_LOG_START := Timestamp(Date(2021, 3, 14), UPPER_T, 0, 0, 0, [], Zulu(UPPER_Z))
  const CT_LOG_END := Timestamp(Date(2022, 10, 31), UPPER_T, 23, 59, 59, [NINE, NINE, NINE], Zulu(UPPER_Z))
  const CT_LOG_WINDOW := WrittenPeriod(CT_LOG_START, Some(CT_LOG_END))

  lemma DateTexts()
    ensures PrintDate(CT_LOG_START.date) == Ascii("2021-03-14")
    ensures PrintDate(CT_LOG_END.date) == Ascii("2022-10-31")
  {
  }

  lemma TimeTexts()
    ensures PrintTime(UPPER_T, 0, 0, 0) == Ascii("T00:00:00")
    ensures PrintTime(UPPER_T, 23, 59, 59) == Ascii("T23:59:59")
  {
  }

  lemma TailTexts()
    ensures PrintFraction([]) + PrintZone(Zulu(UPPER_Z)) == Ascii("Z")
    ensures PrintFraction([NINE, NINE, NINE]) + PrintZone(Zulu(UPPER_Z)) == Ascii(".999Z")
  {
  }

  lemma CtLogBounds()
    ensures ValidWritten(CT_LOG_WINDOW)
    ensures Parsed(CT_LOG_WINDOW) == ValidityPeriod(1_615_680_000, Some(1_667_260_800))
    ensures FirstMillisecond(CT_LOG_END) == 1_667_260_799_999
  {
    assert CT_LOG_END.fraction[0] != ZERO;
  }

  /** The bounds are what the parser reads from the two texts. */
  lemma CtLogTexts()
    ensures Scan(CT_LOG_START_TEXT) == Some(CT_LOG_START) && Scan(CT_LOG_END_TEXT) == Some(CT_LOG_END)
  {
    DateTexts();
    TimeTexts();
    TailTexts();
    CtLogBounds();
    ScanComplete(CT_LOG_START);
    ScanComplete(CT_LOG_END);
  }

  /** An SCT timed at the very end of that window passes the check although the window has closed. */
  lemma SctInexactExample()
    ensures SctWithin(1_667_260_799_999, Parsed(CT_LOG_WINDOW))
    ensures !InWrittenWindow(1_667_260_799_999, CT_LOG_WINDOW)
    ensures !SctCheckExact(CT_LOG_WINDOW)
  {
    CtLogBounds();
    InWindowByMilliseconds(1_667_260_799_999, CT_LOG_WINDOW);
  }
}
