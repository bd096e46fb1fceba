/** The TLS encoding of embedded SCT lists and the struct an SCT signs (sections
    3.2 and 3.3 of RFC 6962), with the cursor parser of src/sct.rs. */
module SctCodec {
  import opened Basics

  // ---- big-endian integers ----

  function Be(width: nat, v: nat): (b: Bytes)
    ensures |b| == width
  {
    if width == 0 then [] else Be(width - 1, v / 256) + [v % 256]
  }

  function FromBe(b: Bytes): nat {
    if b == [] then 0 else FromBe(b[..|b| - 1]) * 256 + b[|b| - 1]
  }

  function Pow256(width: nat): (p: nat)
    ensures p >= 1
  {
    if width == 0 then 1 else 256 * Pow256(width - 1)
  }

  lemma {:induction false} FromBeOfBe(width: nat, v: nat)
    requires v < Pow256(width)
    ensures FromBe(Be(width, v)) == v
  {
    if width > 0 {
      FromBeOfBe(width - 1, v / 256);
      assert Be(width, v)[..width - 1] == Be(width - 1, v / 256);
    }
  }

  lemma {:induction false} BeOfFromBe(b: Bytes)
    ensures FromBe(b) < Pow256(|b|) && Be(|b|, FromBe(b)) == b
  {
    if b != [] {
      BeOfFromBe(b[..|b| - 1]);
      assert b == b[..|b| - 1] + [b[|b| - 1]];
    }
  }

  lemma LastByte(front: Bytes, last: byte)
    ensures FromBe(front + [last]) == FromBe(front) * 256 + last
  {
    assert (front + [last])[..|front|] == front;
  }

  lemma OneMoreByte(x: int, weight: int, value: int, last: int)
    ensures (x * weight + value) * 256 + last == x * (256 * weight) + (value * 256 + last)
  {
  }

  /** The first byte weighs most. */
  lemma {:induction false} MostSignificantFirst(x: byte, rest: Bytes)
    ensures FromBe([x] + rest) == x * Pow256(|rest|) + FromBe(rest)
  {
    if rest == [] {
      LastByte([], x);
      assert [] + [x] == [x] + rest;
    } else {
      var front, last := rest[..|rest| - 1], rest[|rest| - 1];
      MostSignificantFirst(x, front);
      LastByte(front, last);
      LastByte([x] + front, last);
      OneMoreByte(x, Pow256(|front|), FromBe(front), last);
      assert [x] + rest == [x] + front + [last] && rest == front + [last];
    }
  }

  lemma Widths()
    ensures Pow256(2) == 65536 && Pow256(3) == 0x100_0000 && Pow256(8) == U64_LIMIT
  {
  }

  /** The two-byte lengths, both ways. */
  lemma LengthRead(b: Bytes)
    requires |b| == 2
    ensures FromBe(b) < 65536 && Be(2, FromBe(b)) == b
  {
    Widths();
    BeOfFromBe(b);
  }

  lemma LengthWritten(n: nat)
    requires n < 65536
    ensures FromBe(Be(2, n)) == n
  {
    Widths();
    FromBeOfBe(2, n);
  }

  lemma TimestampRead(b: Bytes)
    requires |b| == 8
    ensures FromBe(b) < U64_LIMIT && Be(8, FromBe(b)) == b
  {
    Widths();
    BeOfFromBe(b);
  }

  lemma TimestampWritten(t: u64)
    ensures FromBe(Be(8, t)) == t
  {
    Widths();
    FromBeOfBe(8, t);
  }

  lemma ThreeSlices(b: Bytes, i: nat, j: nat)
    requires i <= j <= |b|
    ensures b == b[..i] + b[i..j] + b[j..]
  {
  }

  // ---- sections 3.2 and 3.3 of RFC 6962 ----

  datatype ParsedSct = ParsedSct(
    version: byte, logId: Digest, timestampMs: u64, extensions: Bytes,
    hashAlgorithm: byte, signatureAlgorithm: byte, signature: Bytes)

  function SignatureFields(sct: ParsedSct): Bytes {
    [sct.hashAlgorithm, sct.signatureAlgorithm] + Be(2, |sct.signature|) + sct.signature
  }

  function SctPrefix(sct: ParsedSct): (b: Bytes)
    ensures |b| == 43
  {
    [sct.version] + sct.logId + Be(8, sct.timestampMs) + Be(2, |sct.extensions|)
  }

  function EncodeSct(sct: ParsedSct): Bytes {
    SctPrefix(sct) + (sct.extensions + SignatureFields(sct))
  }

  /** What the length prefixes can express. */
  predicate EncodableSct(sct: ParsedSct) {
    |sct.extensions| < 65536 && |sct.signature| < 65536
  }

  function EncodeItem(sct: ParsedSct): Bytes {
    Be(2, |EncodeSct(sct)|) + EncodeSct(sct)
  }

  function EncodeItems(scts: seq<ParsedSct>): Bytes {
    if scts == [] then [] else EncodeItem(scts[0]) + EncodeItems(scts[1..])
  }

  function EncodeList(scts: seq<ParsedSct>): Bytes {
    Be(2, |EncodeItems(scts)|) + EncodeItems(scts)
  }

  predicate EncodableItems(scts: seq<ParsedSct>) {
    forall k :: 0 <= k < |scts| ==> EncodableSct(scts[k]) && |EncodeSct(scts[k])| < 65536
  }

  predicate EncodableList(scts: seq<ParsedSct>) {
    EncodableItems(scts) && |EncodeItems(scts)| < 65536
  }

  // ---- decoding by position ----

  /** The fixed-width fields in front of the two variable ones. */
  datatype SctHead = SctHead(version: byte, logId: Digest, timestampMs: u64, extLen: nat)

  function DecodeHead(b: Bytes): SctHead
    requires |b| >= 43
  {
    TimestampRead(b[33..41]);
    SctHead(b[0], b[1..33], FromBe(b[33..41]), FromBe(b[41..43]))
  }

  function DecodeBody(head: SctHead, t: Bytes): Option<ParsedSct> {
    var e := head.extLen;
    if |t| < e + 4 || |t| != e + 4 + FromBe(t[e + 2..e + 4]) then None
    else Some(ParsedSct(head.version, head.logId, head.timestampMs, t[..e], t[e], t[e + 1], t[e + 4..]))
  }

  function DecodeSct(b: Bytes): Option<ParsedSct> {
    if |b| < 43 then None else DecodeBody(DecodeHead(b), b[43..])
  }

  /** The first length-prefixed SCT and the bytes after it. */
  function DecodeItem(b: Bytes): (r: Option<(ParsedSct, Bytes)>)
    ensures r.Some? ==> |r.value.1| < |b|
  {
    if |b| < 2 || |b| < 2 + FromBe(b[..2]) then None
    else
      var n := FromBe(b[..2]);
      var sct := DecodeSct(b[2..2 + n]);
      if sct.None? then None else Some((sct.value, b[2 + n..]))
  }

  /** Prepends the items already parsed. */
  function After(done: seq<ParsedSct>, rest: Option<seq<ParsedSct>>): Option<seq<ParsedSct>> {
    if rest.None? then None else Some(done + rest.value)
  }

  function DecodeItems(b: Bytes): Option<seq<ParsedSct>>
    decreases |b|
  {
    if b == [] then Some([])
    else
      var item := DecodeItem(b);
      if item.None? then None else After([item.value.0], DecodeItems(item.value.1))
  }

  function DecodeList(b: Bytes): Option<seq<ParsedSct>> {
    if |b| < 2 || FromBe(b[..2]) != |b| - 2 then None else DecodeItems(b[2..])
  }

  // ---- the codec is a bijection ----

  lemma PrefixSlices(v: Bytes, id: Bytes, time: Bytes, len: Bytes, rest: Bytes)
    requires |v| == 1 && |id| == 32 && |time| == 8 && |len| == 2
    ensures var b := v + id + time + len + rest;
            b[0] == v[0] && b[1..33] == id && b[33..41] == time && b[41..43] == len && b[43..] == rest
  {
  }

  lemma DecodeHeadOfEncode(sct: ParsedSct, rest: Bytes)
    requires |sct.extensions| < 65536
    ensures DecodeHead(SctPrefix(sct) + rest) == SctHead(sct.version, sct.logId, sct.timestampMs, |sct.extensions|)
    ensures (SctPrefix(sct) + rest)[43..] == rest
  {
    TimestampWritten(sct.timestampMs);
    LengthWritten(|sct.extensions|);
    PrefixSlices([sct.version], sct.logId, Be(8, sct.timestampMs), Be(2, |sct.extensions|), rest);
  }

  lemma DecodeBodyOfEncode(sct: ParsedSct)
    requires |sct.signature| < 65536
    ensures DecodeBody(SctHead(sct.version, sct.logId, sct.timestampMs, |sct.extensions|),
                       sct.extensions + SignatureFields(sct)) == Some(sct)
  {
    var e, t := |sct.extensions|, sct.extensions + SignatureFields(sct);
    LengthWritten(|sct.signature|);
    assert t[..e] == sct.extensions;
    assert t[e + 2..e + 4] == SignatureFields(sct)[2..4] == Be(2, |sct.signature|);
    assert t[e + 4..] == sct.signature;
  }

  lemma DecodeSctOfEncode(sct: ParsedSct)
    requires EncodableSct(sct)
    ensures DecodeSct(EncodeSct(sct)) == Some(sct)
  {
    DecodeHeadOfEncode(sct, sct.extensions + SignatureFields(sct));
    DecodeBodyOfEncode(sct);
  }

  lemma HeadSlices(b: Bytes)
    requires |b| >= 43
    ensures b[..43] == [b[0]] + b[1..33] + b[33..41] + b[41..43]
  {
  }

  lemma EncodeHeadOfDecode(b: Bytes, sct: ParsedSct)
    requires |b| >= 43
    requires DecodeHead(b) == SctHead(sct.version, sct.logId, sct.timestampMs, |sct.extensions|)
    ensures SctPrefix(sct) == b[..43] && |sct.extensions| < 65536
  {
    TimestampRead(b[33..41]);
    LengthRead(b[41..43]);
    HeadSlices(b);
  }

  lemma BodySlices(t: Bytes, e: nat)
    requires e + 4 <= |t|
    ensures t == t[..e] + ([t[e], t[e + 1]] + t[e + 2..e + 4] + t[e + 4..])
  {
  }

  lemma EncodeBodyOfDecode(head: SctHead, t: Bytes)
    requires DecodeBody(head, t).Some?
    ensures var sct := DecodeBody(head, t).value;
            |sct.extensions| == head.extLen && |sct.signature| < 65536 && sct.extensions + SignatureFields(sct) == t
  {
    var e := head.extLen;
    LengthRead(t[e + 2..e + 4]);
    BodySlices(t, e);
  }

  lemma EncodeSctOfDecode(b: Bytes)
    requires DecodeSct(b).Some?
    ensures EncodableSct(DecodeSct(b).value) && EncodeSct(DecodeSct(b).value) == b
  {
    EncodeBodyOfDecode(DecodeHead(b), b[43..]);
    EncodeHeadOfDecode(b, DecodeSct(b).value);
    assert b == b[..43] + b[43..];
  }

  /** One SCT by position (sections 3.2 and 3.3 of RFC 6962): version, log id, timestamp, extensions behind their
      length, hash and signature algorithm, signature behind its length. */
  predicate IsSct(b: Bytes, sct: ParsedSct) {
    var e := |sct.extensions|;
    && |b| == 47 + e + |sct.signature|
    && b[0] == sct.version && b[1..33] == sct.logId && FromBe(b[33..41]) == sct.timestampMs
    && FromBe(b[41..43]) == e && b[43..43 + e] == sct.extensions
    && b[43 + e] == sct.hashAlgorithm && b[44 + e] == sct.signatureAlgorithm
    && FromBe(b[45 + e..47 + e]) == |sct.signature| && b[47 + e..] == sct.signature
  }

  lemma TailSlices(b: Bytes, e: nat)
    requires 47 + e <= |b|
    ensures var t := b[43..];
            && t[..e] == b[43..43 + e] && t[e] == b[43 + e] && t[e + 1] == b[44 + e]
            && t[e + 2..e + 4] == b[45 + e..47 + e] && t[e + 4..] == b[47 + e..]
  {
  }

  /** The bytes decode to exactly the SCT whose fields stand at these positions. */
  lemma DecodeSctExact(b: Bytes, sct: ParsedSct)
    ensures DecodeSct(b) == Some(sct) <==> IsSct(b, sct)
  {
    if |b| >= 43 {
      var e := FromBe(b[41..43]);
      if |b| >= 47 + e {
        TailSlices(b, e);
      }
    }
  }

  lemma DecodeItemOfEncode(sct: ParsedSct, rest: Bytes)
    requires EncodableSct(sct) && |EncodeSct(sct)| < 65536
    ensures DecodeItem(EncodeItem(sct) + rest) == Some((sct, rest))
  {
    var b, n := EncodeItem(sct) + rest, |EncodeSct(sct)|;
    LengthWritten(n);
    DecodeSctOfEncode(sct);
    assert b[..2] == Be(2, n) && b[2..2 + n] == EncodeSct(sct) && b[2 + n..] == rest;
  }

  lemma EncodeItemOfDecode(b: Bytes)
    requires DecodeItem(b).Some?
    ensures var (sct, rest) := DecodeItem(b).value;
            EncodableSct(sct) && |EncodeSct(sct)| < 65536 && EncodeItem(sct) + rest == b
  {
    var n := FromBe(b[..2]);
    LengthRead(b[..2]);
    EncodeSctOfDecode(b[2..2 + n]);
    ThreeSlices(b, 2, 2 + n);
  }

  lemma ItemsCons(sct: ParsedSct, rest: seq<ParsedSct>)
    ensures EncodeItems([sct] + rest) == EncodeItem(sct) + EncodeItems(rest)
    ensures EncodableItems([sct] + rest) <==> EncodableSct(sct) && |EncodeSct(sct)| < 65536 && EncodableItems(rest)
  {
  }

  lemma {:induction false} DecodeItemsOfEncode(scts: seq<ParsedSct>)
    requires EncodableItems(scts)
    ensures DecodeItems(EncodeItems(scts)) == Some(scts)
  {
    if scts != [] {
      DecodeItemsOfEncode(scts[1..]);
      assert EncodableSct(scts[0]);
      DecodeItemOfEncode(scts[0], EncodeItems(scts[1..]));
      HeadAndTail(scts);
    }
  }

  lemma {:induction false} EncodeItemsOfDecode(b: Bytes)
    requires DecodeItems(b).Some?
    ensures EncodableItems(DecodeItems(b).value) && EncodeItems(DecodeItems(b).value) == b
    decreases |b|
  {
    if b != [] {
      var (sct, tail) := DecodeItem(b).value;
      var rest := DecodeItems(tail).value;
      EncodeItemOfDecode(b);
      EncodeItemsOfDecode(tail);
      ItemsCons(sct, rest);
    }
  }

  /** Every encodable list is parsed back. */
  lemma DecodeListOfEncode(scts: seq<ParsedSct>)
    requires EncodableList(scts)
    ensures DecodeList(EncodeList(scts)) == Some(scts)
  {
    var b := EncodeList(scts);
    LengthWritten(|EncodeItems(scts)|);
    assert b[..2] == Be(2, |EncodeItems(scts)|) && b[2..] == EncodeItems(scts);
    DecodeItemsOfEncode(scts);
  }

  /** Every accepted byte string is the encoding of what was parsed: no slack, no trailing bytes. */
  lemma EncodeListOfDecode(b: Bytes)
    requires DecodeList(b).Some?
    ensures EncodableList(DecodeList(b).value) && EncodeList(DecodeList(b).value) == b
  {
    LengthRead(b[..2]);
    EncodeItemsOfDecode(b[2..]);
    assert b == b[..2] + b[2..];
  }

  // ---- the cursor parser ----

  /** The shrinking byte slice that the `take` helpers advance. */
  class Cursor {
    var rest: Bytes

    constructor (bytes: Bytes)
      ensures rest == bytes
    {
      rest := bytes;
    }

    method Take(n: nat) returns (head: Option<Bytes>)
      modifies this
      ensures head.Some? <==> n <= |old(rest)|
      ensures head.Some? ==> head.value == old(rest)[..n] && rest == old(rest)[n..]
      ensures head.None? ==> rest == old(rest)
    {
      if |rest| < n {
        return None;
      }
      head := Some(rest[..n]);
      rest := rest[n..];
    }

    method TakeU8() returns (v: Option<byte>)
      modifies this
      ensures v.Some? <==> 1 <= |old(rest)|
      ensures v.Some? ==> v.value == old(rest)[0] && rest == old(rest)[1..]
    {
      var b := Take(1);
      return if b.None? then None else Some(b.value[0]);
    }

    /** A fixed-width big-endian integer: `take_u16` and `take_u64`. */
    method TakeUint(width: nat) returns (v: Option<nat>)
      modifies this
      ensures v.Some? <==> width <= |old(rest)|
      ensures v.Some? ==> v.value == FromBe(old(rest)[..width]) && rest == old(rest)[width..]
    {
      var b := Take(width);
      return if b.None? then None else Some(FromBe(b.value));
    }
  }

  /** The first half of `parse_single_sct`: up to the extension length. */
  method TakeHead(cursor: Cursor) returns (head: Option<SctHead>)
    modifies cursor
    ensures head.Some? <==> |old(cursor.rest)| >= 43
    ensures head.Some? ==> head.value == DecodeHead(old(cursor.rest)) && cursor.rest == old(cursor.rest)[43..]
  {
    ghost var b := cursor.rest;
    var version := cursor.TakeU8();
    if version.None? { return None; }
    var logId := cursor.Take(32);
    if logId.None? { return None; }
    assert logId.value == b[1..33] && cursor.rest == b[33..];
    var timestamp := cursor.TakeUint(8);
    if timestamp.None? { return None; }
    assert b[33..][..8] == b[33..41] && cursor.rest == b[41..];
    var extLen := cursor.TakeUint(2);
    if extLen.None? { return None; }
    assert b[41..][..2] == b[41..43] && cursor.rest == b[43..];
    TimestampRead(b[33..41]);
    return Some(SctHead(version.value, logId.value, timestamp.value, extLen.value));
  }

  /** The fields after the extensions, as positions of the whole. */
  lemma SliceAfter(t: Bytes, e: nat)
    requires e <= |t|
    ensures |t| >= e + 4 ==> t[e..][0] == t[e] && t[e..][1] == t[e + 1] && t[e..][2..4] == t[e + 2..e + 4]
    ensures |t| >= e + 4 ==> t[e..][4..|t| - e] == t[e + 4..]
  {
  }

  lemma SliceTwice(s: Bytes, i: nat, n: nat)
    requires i + n <= |s|
    ensures s[i..][..n] == s[i..i + n] && s[i..][n..] == s[i + n..]
  {
  }

  /** The second half: both algorithm bytes and the length-prefixed signature. */
  method TakeSignature(cursor: Cursor) returns (r: Option<(byte, byte, Bytes)>)
    modifies cursor
    ensures var s := old(cursor.rest);
            && (r.Some? <==> |s| >= 4 && |s| >= 4 + FromBe(s[2..4]))
            && (r.Some? ==> var n := FromBe(s[2..4]);
                            r.value == (s[0], s[1], s[4..4 + n]) && cursor.rest == s[4 + n..])
  {
    ghost var s := cursor.rest;
    var hashAlgorithm := cursor.TakeU8();
    if hashAlgorithm.None? { return None; }
    var signatureAlgorithm := cursor.TakeU8();
    if signatureAlgorithm.None? { return None; }
    assert cursor.rest == s[2..];
    var sigLen := cursor.TakeUint(2);
    if sigLen.None? { return None; }
    assert s[2..][..2] == s[2..4] && cursor.rest == s[4..];
    var signature := cursor.Take(sigLen.value);
    if signature.None? { return None; }
    SliceTwice(s, 4, sigLen.value);
    return Some((hashAlgorithm.value, signatureAlgorithm.value, signature.value));
  }

  /** `parse_single_sct` */
  method ParseSingleSct(bytes: Bytes) returns (r: Option<ParsedSct>)
    ensures r == DecodeSct(bytes)
  {
    var cursor := new Cursor(bytes);
    var head := TakeHead(cursor);
    if head.None? { return None; }
    ghost var t := cursor.rest;
    var e := head.value.extLen;
    var extensions := cursor.Take(e);
    if extensions.None? { return None; }
    SliceAfter(t, e);
    var signature := TakeSignature(cursor);
    if signature.None? || cursor.rest != [] { return None; }
    return Some(ParsedSct(head.value.version, head.value.logId, head.value.timestampMs, extensions.value,
                          signature.value.0, signature.value.1, signature.value.2));
  }

  /** One turn of the list loop: a length, that many bytes, one SCT. */
  method TakeItem(cursor: Cursor) returns (sct: Option<ParsedSct>)
    modifies cursor
    ensures sct.Some? <==> DecodeItem(old(cursor.rest)).Some?
    ensures sct.Some? ==> (sct.value, cursor.rest) == DecodeItem(old(cursor.rest)).value
  {
    ghost var b := cursor.rest;
    var sctLen := cursor.TakeUint(2);
    if sctLen.None? { return None; }
    var sctBytes := cursor.Take(sctLen.value);
    if sctBytes.None? { return None; }
    assert sctBytes.value == b[2..2 + sctLen.value] && cursor.rest == b[2 + sctLen.value..];
    sct := ParseSingleSct(sctBytes.value);
  }

  lemma AfterNone(rest: Option<seq<ParsedSct>>)
    ensures After([], rest) == rest
  {
    if rest.Some? {
      assert [] + rest.value == rest.value;
    }
  }

  lemma AfterOne(done: seq<ParsedSct>, sct: ParsedSct, rest: Option<seq<ParsedSct>>)
    ensures After(done, After([sct], rest)) == After(done + [sct], rest)
  {
    if rest.Some? {
      assert done + ([sct] + rest.value) == done + [sct] + rest.value;
    }
  }

  /** `r` is the one encodable list whose encoding is `bytes`, or there is none. */
  ghost predicate IsTheListOf(r: Option<seq<ParsedSct>>, bytes: Bytes) {
    (r.Some? ==> EncodableList(r.value) && EncodeList(r.value) == bytes) &&
    forall scts :: EncodableList(scts) && EncodeList(scts) == bytes ==> r == Some(scts)
  }

  lemma DecodeListInverts(bytes: Bytes)
    ensures IsTheListOf(DecodeList(bytes), bytes)
  {
    forall scts | EncodableList(scts) && EncodeList(scts) == bytes
      ensures DecodeList(bytes) == Some(scts)
    {
      DecodeListOfEncode(scts);
    }
    if DecodeList(bytes).Some? {
      EncodeListOfDecode(bytes);
    }
  }

  /** `parse_sct_list`: the cursor shrinks by a whole item per turn. */
  method ParseSctList(bytes: Bytes) returns (r: Option<seq<ParsedSct>>)
    ensures r == DecodeList(bytes)
  {
    var cursor := new Cursor(bytes);
    var listLen := cursor.TakeUint(2);
    if listLen.None? || listLen.value != |cursor.rest| {
      return None;
    }
    var scts: seq<ParsedSct> := [];
    AfterNone(DecodeItems(cursor.rest));
    while cursor.rest != []
      invariant After(scts, DecodeItems(cursor.rest)) == DecodeList(bytes)
      decreases |cursor.rest|
    {
      var sct := TakeItem(cursor);
      if sct.None? {
        return None;
      }
      AfterOne(scts, sct.value, DecodeItems(cursor.rest));
      scts := scts + [sct.value];
    }
    assert After(scts, Some([])) == Some(scts) by {
      assert scts + [] == scts;
    }
    return Some(scts);
  }

  // ---- the digitally-signed struct ----

  const SCT_VERSION_V1: byte := 0
  const SIGNATURE_TYPE_CERTIFICATE_TIMESTAMP: byte := 0
  const LOG_ENTRY_TYPE_PRECERT: nat := 1

  function SignedStruct(timestampMs: u64, issuerKeyHash: Digest, tbs: Bytes, extensions: Bytes): Bytes {
    [SCT_VERSION_V1] + [SIGNATURE_TYPE_CERTIFICATE_TIMESTAMP]
    + (Be(8, timestampMs) + (Be(2, LOG_ENTRY_TYPE_PRECERT) + (issuerKeyHash
    + (Be(3, |tbs|) + (tbs + (Be(2, |extensions|) + extensions))))))
  }

  predicate SignedStructFits(tbs: Bytes, extensions: Bytes) {
    |tbs| <= 0xFF_FFFF && |extensions| <= 0xFFFF
  }

  lemma AppendSigned(a: Bytes, b: Bytes, c: Bytes, d: Bytes, e: Bytes, f: Bytes, g: Bytes, h: Bytes, i: Bytes)
    ensures a + b + c + d + e + f + g + h + i == (a + b) + (c + (d + (e + (f + (g + (h + i))))))
  {
  }

  /** `digitally_signed_bytes`: the buffer is filled field by field; `None` when a length does not fit. */
  method DigitallySignedBytes(timestampMs: u64, issuerKeyHash: Digest, tbs: Bytes, extensions: Bytes)
    returns (out: Option<Bytes>)
    ensures out == if SignedStructFits(tbs, extensions)
                   then Some(SignedStruct(timestampMs, issuerKeyHash, tbs, extensions)) else None
  {
    if |tbs| > 0xFF_FFFF {
      return None;
    }
    if |extensions| > 0xFFFF {
      return None;
    }
    var b := [SCT_VERSION_V1];
    b := b + [SIGNATURE_TYPE_CERTIFICATE_TIMESTAMP];
    b := b + Be(8, timestampMs);
    b := b + Be(2, LOG_ENTRY_TYPE_PRECERT);
    b := b + issuerKeyHash;
    b := b + Be(3, |tbs|);
    b := b + tbs;
    b := b + Be(2, |extensions|);
    b := b + extensions;
    AppendSigned([SCT_VERSION_V1], [SIGNATURE_TYPE_CERTIFICATE_TIMESTAMP], Be(8, timestampMs),
                 Be(2, LOG_ENTRY_TYPE_PRECERT), issuerKeyHash, Be(3, |tbs|), tbs, Be(2, |extensions|), extensions);
    return Some(b);
  }

  /** What a struct holds, read by position: version, signature type, timestamp, entry type, key hash, and two
      blocks behind their lengths. */
  predicate IsSignedStruct(b: Bytes, timestampMs: u64, issuerKeyHash: Digest, tbs: Bytes, extensions: Bytes) {
    && |b| == 49 + |tbs| + |extensions|
    && b[0] == 0 && b[1] == 0 && FromBe(b[2..10]) == timestampMs && FromBe(b[10..12]) == 1
    && b[12..44] == issuerKeyHash
    && FromBe(b[44..47]) == |tbs| && b[47..47 + |tbs|] == tbs
    && FromBe(b[47 + |tbs|..49 + |tbs|]) == |extensions| && b[49 + |tbs|..] == extensions
  }

  lemma StructSlices(head: Bytes, time: Bytes, kind: Bytes, keyHash: Bytes, n: Bytes, tbs: Bytes, m: Bytes, ext: Bytes)
    requires |head| == 2 && |time| == 8 && |kind| == 2 && |keyHash| == 32 && |n| == 3 && |m| == 2
    ensures var b := head + (time + (kind + (keyHash + (n + (tbs + (m + ext))))));
            && |b| == 49 + |tbs| + |ext| && b[..2] == head && b[2..10] == time && b[10..12] == kind
            && b[12..44] == keyHash && b[44..47] == n && b[47..47 + |tbs|] == tbs
            && b[47 + |tbs|..49 + |tbs|] == m && b[49 + |tbs|..] == ext
  {
  }

  lemma Peel(b: Bytes, i: nat, j: nat)
    requires i <= j <= |b|
    ensures b[i..] == b[i..j] + b[j..]
  {
  }

  lemma StructJoins(b: Bytes, n: nat)
    requires 49 + n <= |b|
    ensures b == [b[0]] + [b[1]] + (b[2..10] + (b[10..12] + (b[12..44] + (b[44..47] + (b[47..47 + n]
              + (b[47 + n..49 + n] + b[49 + n..]))))))
  {
    Peel(b, 2, 10);
    Peel(b, 10, 12);
    Peel(b, 12, 44);
    Peel(b, 44, 47);
    Peel(b, 47, 47 + n);
    Peel(b, 47 + n, 49 + n);
    assert b == [b[0]] + [b[1]] + b[2..];
  }

  lemma LengthsWritten(timestampMs: u64, tbs: Bytes, extensions: Bytes)
    requires SignedStructFits(tbs, extensions)
    ensures FromBe(Be(8, timestampMs)) == timestampMs && FromBe(Be(2, 1)) == 1
    ensures FromBe(Be(3, |tbs|)) == |tbs| && FromBe(Be(2, |extensions|)) == |extensions|
  {
    Widths();
    TimestampWritten(timestampMs);
    LengthWritten(1);
    FromBeOfBe(3, |tbs|);
    LengthWritten(|extensions|);
  }

  lemma WrittenStruct(timestampMs: u64, issuerKeyHash: Digest, tbs: Bytes, extensions: Bytes)
    requires SignedStructFits(tbs, extensions)
    ensures IsSignedStruct(
              SignedStruct(timestampMs, issuerKeyHash, tbs, extensions), timestampMs, issuerKeyHash, tbs, extensions)
  {
    var head := [SCT_VERSION_V1] + [SIGNATURE_TYPE_CERTIFICATE_TIMESTAMP];
    var b := SignedStruct(timestampMs, issuerKeyHash, tbs, extensions);
    LengthsWritten(timestampMs, tbs, extensions);
    StructSlices(head, Be(8, timestampMs), Be(2, LOG_ENTRY_TYPE_PRECERT), issuerKeyHash, Be(3, |tbs|), tbs,
                 Be(2, |extensions|), extensions);
    assert b[..2][0] == b[0] && b[..2][1] == b[1];
  }

  lemma StructWasWritten(b: Bytes, timestampMs: u64, issuerKeyHash: Digest, tbs: Bytes, extensions: Bytes)
    requires IsSignedStruct(b, timestampMs, issuerKeyHash, tbs, extensions)
    ensures b == SignedStruct(timestampMs, issuerKeyHash, tbs, extensions)
  {
    var n := |tbs|;
    BeOfFromBe(b[2..10]);
    BeOfFromBe(b[10..12]);
    BeOfFromBe(b[44..47]);
    BeOfFromBe(b[47 + n..49 + n]);
    StructJoins(b, n);
  }

  /** The signed bytes are the one text with these fields at their positions (section 3.2 of RFC 6962). */
  lemma SignedStructExact(b: Bytes, timestampMs: u64, issuerKeyHash: Digest, tbs: Bytes, extensions: Bytes)
    requires SignedStructFits(tbs, extensions)
    ensures b == SignedStruct(timestampMs, issuerKeyHash, tbs, extensions)
        <==> IsSignedStruct(b, timestampMs, issuerKeyHash, tbs, extensions)
  {
    WrittenStruct(timestampMs, issuerKeyHash, tbs, extensions);
    if IsSignedStruct(b, timestampMs, issuerKeyHash, tbs, extensions) {
      StructWasWritten(b, timestampMs, issuerKeyHash, tbs, extensions);
    }
  }

  /** An SCT signature speaks about one timestamp, issuer, precertificate and extension block. */
  lemma SignedStructInjective(t1: u64, h1: Digest, c1: Bytes, e1: Bytes, t2: u64, h2: Digest, c2: Bytes, e2: Bytes)
    requires SignedStructFits(c1, e1) && SignedStructFits(c2, e2)
    requires SignedStruct(t1, h1, c1, e1) == SignedStruct(t2, h2, c2, e2)
    ensures t1 == t2 && h1 == h2 && c1 == c2 && e1 == e2
  {
    SignedStructExact(SignedStruct(t1, h1, c1, e1), t1, h1, c1, e1);
    SignedStructExact(SignedStruct(t1, h1, c1, e1), t2, h2, c2, e2);
  }
}
