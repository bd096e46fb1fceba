/** The byte strings that signatures and hashes are taken over, built by
    src/dsse.rs and src/rekor.rs. Each builder appends to a buffer. The result is what an
    independent reader reads, or the compact JSON of a document; and each is injective, so
    a signature speaks about one set of fields only. */
module SignedMessages {
  import opened Basics
  import opened CompactJson
  import opened TextCodecs

  // ---- DSSE pre-authentication encoding ----

  /** Section "Protocol" of the DSSE specification, version 1. */
  function PaeBytes(payloadType: Bytes, payload: Bytes): Bytes {
    Ascii("DSSEv1 ")
    + (Decimal(|payloadType|) + [SPACE] + (payloadType + ([SPACE] + (Decimal(|payload|) + [SPACE] + payload))))
  }

  /** A field as a reader takes it: a numeral up to the first space, then that many bytes; and what follows. */
  function ReadField(b: Bytes): Option<(Bytes, Bytes)> {
    var k := IndexOf(b, SPACE);
    if k == |b| then None
    else
      var n := ReadNumeral(b[..k]);
      if n.None? || !(0 <= n.value < |b| - k) then None
      else Some((b[k + 1..k + 1 + n.value], b[k + 1 + n.value..]))
  }

  /** A reader of the encoding: the protocol's name, the type, a space, the payload, and nothing more. */
  function ReadPae(b: Bytes): Option<(Bytes, Bytes)> {
    if |b| < 7 || b[..7] != Ascii("DSSEv1 ") then None
    else
      var first := ReadField(b[7..]);
      if first.None? || first.value.1 == [] || first.value.1[0] != SPACE then None
      else
        var second := ReadField(first.value.1[1..]);
        if second.None? || second.value.1 != [] then None else Some((first.value.0, second.value.0))
  }

  lemma CutField(numeral: Bytes, field: Bytes, rest: Bytes)
    requires SPACE !in numeral
    ensures var b := numeral + [SPACE] + (field + rest);
            && IndexOf(b, SPACE) == |numeral| < |b| && b[..|numeral|] == numeral
            && |field| < |b| - |numeral| && b[|numeral| + 1..|numeral| + 1 + |field|] == field
            && b[|numeral| + 1 + |field|..] == rest
  {
    var b := numeral + [SPACE] + (field + rest);
    SplitAt(numeral, SPACE, field + rest);
    assert b[|numeral| + 1..] == field + rest;
    assert b[|numeral| + 1..][..|field|] == field && b[|numeral| + 1..][|field|..] == rest;
  }

  lemma ReadCutField(numeral: Bytes, field: Bytes, rest: Bytes)
    requires SPACE !in numeral && ReadNumeral(numeral) == Some(|field|)
    ensures ReadField(numeral + [SPACE] + (field + rest)) == Some((field, rest))
  {
    CutField(numeral, field, rest);
  }

  /** A field as it is written in front of a rest. */
  function WrittenField(field: Bytes, rest: Bytes): Bytes {
    Decimal(|field|) + [SPACE] + (field + rest)
  }

  lemma ReadWrittenField(field: Bytes, rest: Bytes)
    ensures ReadField(WrittenField(field, rest)) == Some((field, rest))
  {
    DecimalAvoids(|field|, SPACE);
    ReadNumeralExact(Decimal(|field|), |field|);
    ReadCutField(Decimal(|field|), field, rest);
  }

  lemma FourPieces(b: Bytes, k: nat, n: nat)
    requires k + 1 + n <= |b|
    ensures b == b[..k] + [b[k]] + (b[k + 1..k + 1 + n] + b[k + 1 + n..])
  {
  }

  lemma FieldWasWritten(b: Bytes)
    requires ReadField(b).Some?
    ensures var (field, rest) := ReadField(b).value;
            b == WrittenField(field, rest)
  {
    var k := IndexOf(b, SPACE);
    var n := ReadNumeral(b[..k]).value;
    IndexOfFirst(b, SPACE);
    ReadNumeralExact(b[..k], n);
    FourPieces(b, k, n);
  }

  lemma Sections(name: Bytes, rest: Bytes)
    requires |name| == 7
    ensures |name + rest| >= 7 && (name + rest)[..7] == name && (name + rest)[7..] == rest
  {
  }

  lemma PaeFields(payloadType: Bytes, payload: Bytes)
    ensures PaeBytes(payloadType, payload)
         == Ascii("DSSEv1 ") + WrittenField(payloadType, [SPACE] + WrittenField(payload, []))
  {
    assert payload + [] == payload;
  }

  lemma SpaceThen(rest: Bytes)
    ensures [SPACE] + rest != [] && ([SPACE] + rest)[0] == SPACE && ([SPACE] + rest)[1..] == rest
  {
  }

  lemma ReadPaeFields(payloadType: Bytes, payload: Bytes)
    ensures ReadPae(Ascii("DSSEv1 ") + WrittenField(payloadType, [SPACE] + WrittenField(payload, [])))
         == Some((payloadType, payload))
  {
    var second := WrittenField(payload, []);
    Sections(Ascii("DSSEv1 "), WrittenField(payloadType, [SPACE] + second));
    ReadWrittenField(payloadType, [SPACE] + second);
    SpaceThen(second);
    ReadWrittenField(payload, []);
  }

  lemma SplitHere(b: Bytes, n: nat)
    requires n <= |b|
    ensures b == b[..n] + b[n..]
  {
  }

  lemma PaeWasWritten(b: Bytes)
    requires ReadPae(b).Some?
    ensures var (payloadType, payload) := ReadPae(b).value;
            b == Ascii("DSSEv1 ") + WrittenField(payloadType, [SPACE] + WrittenField(payload, []))
  {
    var tail := ReadField(b[7..]).value.1;
    FieldWasWritten(b[7..]);
    FieldWasWritten(tail[1..]);
    HeadAndTail(tail);
    SplitHere(b, 7);
  }

  /** The reader reads exactly what is written, for all types and payloads, whatever bytes either contains. */
  lemma PaeExact(b: Bytes, payloadType: Bytes, payload: Bytes)
    ensures ReadPae(b) == Some((payloadType, payload)) <==> b == PaeBytes(payloadType, payload)
  {
    PaeFields(payloadType, payload);
    ReadPaeFields(payloadType, payload);
    if ReadPae(b) == Some((payloadType, payload)) {
      PaeWasWritten(b);
    }
  }

  lemma ExampleLengths()
    ensures |Ascii("http://example.com/HelloWorld")| == 29 && |Ascii("hello world")| == 11
    ensures Decimal(29) == Ascii("29") && Decimal(11) == Ascii("11")
  {
    AsciiTwo("29");
    AsciiTwo("11");
  }

  lemma ExampleSpaces()
    ensures Ascii("DSSEv1 29 ") == Ascii("DSSEv1 ") + (Ascii("29") + [SPACE])
    ensures Ascii(" 11 ") == [SPACE] + (Ascii("11") + [SPACE])
  {
    AsciiConcat("DSSEv1 ", "29 ");
    AsciiConcat("29", " ");
    assert "DSSEv1 " + "29 " == "DSSEv1 29 " && "29" + " " == "29 ";
  }

  lemma Regroup(name: Bytes, n: Bytes, payloadType: Bytes, m: Bytes, payload: Bytes)
    ensures name + (n + [SPACE]) + payloadType + ([SPACE] + (m + [SPACE])) + payload
         == name + (n + [SPACE] + (payloadType + ([SPACE] + (m + [SPACE] + payload))))
    ensures name + n + [SPACE] + payloadType + [SPACE] + m + [SPACE] + payload
         == name + (n + [SPACE] + (payloadType + ([SPACE] + (m + [SPACE] + payload))))
  {
  }

  /** The example of the protocol's specification. */
  lemma PaeExample()
    ensures PaeBytes(Ascii("http://example.com/HelloWorld"), Ascii("hello world"))
         == Ascii("DSSEv1 29 ") + Ascii("http://example.com/HelloWorld") + Ascii(" 11 ") + Ascii("hello world")
  {
    ExampleLengths();
    ExampleSpaces();
    Regroup(Ascii("DSSEv1 "), Ascii("29"), Ascii("http://example.com/HelloWorld"), Ascii("11"), Ascii("hello world"));
  }

  /** `pae` */
  method Pae(payloadType: Bytes, payload: Bytes) returns (out: Bytes)
    ensures out == PaeBytes(payloadType, payload)
    ensures ReadPae(out) == Some((payloadType, payload))
  {
    out := Ascii("DSSEv1 ");
    out := out + Decimal(|payloadType|);
    out := out + [SPACE];
    out := out + payloadType;
    out := out + [SPACE];
    out := out + Decimal(|payload|);
    out := out + [SPACE];
    out := out + payload;
    Regroup(Ascii("DSSEv1 "), Decimal(|payloadType|), payloadType, Decimal(|payload|), payload);
    PaeExact(out, payloadType, payload);
  }

  /** The encoding determines type and payload. */
  lemma PaeInjective(t1: Bytes, p1: Bytes, t2: Bytes, p2: Bytes)
    requires PaeBytes(t1, p1) == PaeBytes(t2, p2)
    ensures t1 == t2 && p1 == p2
  {
    PaeExact(PaeBytes(t1, p1), t1, p1);
    PaeExact(PaeBytes(t1, p1), t2, p2);
  }

  // ---- the signed entry timestamp ----

  function SetTail(logIndex: nat): Bytes {
    Ascii(",\"logIndex\":") + (Decimal(logIndex) + [CLOSE] + [])
  }

  function SetAfterBody(time: nat, keyId: Bytes, logIndex: nat): Bytes {
    Ascii(",\"integratedTime\":")
    + (Decimal(time) + [COMMA] + (Ascii("\"logID\":\"") + (Hex(keyId) + [QUOTE] + SetTail(logIndex))))
  }

  /** `set_signed_bytes`: the compact JSON object with its fixed field order. */
  function SetSignedBytes(body: Bytes, time: nat, keyId: Bytes, logIndex: nat): Bytes {
    Ascii("{\"body\":\"") + (Base64(body) + [QUOTE] + SetAfterBody(time, keyId, logIndex))
  }

  lemma Base64Quoted(s: Bytes, t: Bytes, x: Bytes, y: Bytes)
    requires Base64(s) + [QUOTE] + x == Base64(t) + [QUOTE] + y
    ensures s == t && x == y
  {
    SplitAtStop(QUOTE, Base64(s), x, Base64(t), y);
    Base64Injective(s, t);
  }

  lemma SetTailInjective(i1: nat, i2: nat)
    requires SetTail(i1) == SetTail(i2)
    ensures i1 == i2
  {
    CancelPrefix(Ascii(",\"logIndex\":"), Decimal(i1) + [CLOSE] + [], Decimal(i2) + [CLOSE] + []);
    DecimalPrefix(i1, i2, CLOSE, [], []);
  }

  lemma SetAfterBodyInjective(t1: nat, k1: Bytes, i1: nat, t2: nat, k2: Bytes, i2: nat)
    requires SetAfterBody(t1, k1, i1) == SetAfterBody(t2, k2, i2)
    ensures t1 == t2 && k1 == k2 && i1 == i2
  {
    var key1, key2 := Hex(k1) + [QUOTE] + SetTail(i1), Hex(k2) + [QUOTE] + SetTail(i2);
    var rest1, rest2 := Ascii("\"logID\":\"") + key1, Ascii("\"logID\":\"") + key2;
    CancelPrefix(Ascii(",\"integratedTime\":"), Decimal(t1) + [COMMA] + rest1, Decimal(t2) + [COMMA] + rest2);
    DecimalPrefix(t1, t2, COMMA, rest1, rest2);
    CancelPrefix(Ascii("\"logID\":\""), key1, key2);
    SplitAtStop(QUOTE, Hex(k1), SetTail(i1), Hex(k2), SetTail(i2));
    HexInjective(k1, k2);
    SetTailInjective(i1, i2);
  }

  /** A signed entry timestamp speaks about one body, time, log key and index. */
  lemma SetInjective(b1: Bytes, t1: nat, k1: Bytes, i1: nat, b2: Bytes, t2: nat, k2: Bytes, i2: nat)
    requires SetSignedBytes(b1, t1, k1, i1) == SetSignedBytes(b2, t2, k2, i2)
    ensures b1 == b2 && t1 == t2 && k1 == k2 && i1 == i2
  {
    var after1, after2 := SetAfterBody(t1, k1, i1), SetAfterBody(t2, k2, i2);
    CancelPrefix(Ascii("{\"body\":\""), Base64(b1) + [QUOTE] + after1, Base64(b2) + [QUOTE] + after2);
    Base64Quoted(b1, b2, after1, after2);
    SetAfterBodyInjective(t1, k1, i1, t2, k2, i2);
  }

  // The members' names as the builder's literals hold them.

  lemma BodyName()
    ensures Ascii("{\"body\":\"") == [OPEN] + JsonString(Ascii("body")) + ([COLON] + [QUOTE])
  {
    NameInLiteral("{\"body\":\"", "{", [OPEN], "body", "\"", [QUOTE]);
  }

  lemma TimeName()
    ensures Ascii(",\"integratedTime\":") == [COMMA] + JsonString(Ascii("integratedTime")) + ([COLON] + [])
  {
    NameInLiteral(",\"integratedTime\":", ",", [COMMA], "integratedTime", "", []);
  }

  lemma LogIdName()
    ensures Ascii("\"logID\":\"") == [] + JsonString(Ascii("logID")) + ([COLON] + [QUOTE])
  {
    NameInLiteral("\"logID\":\"", "", [], "logID", "\"", [QUOTE]);
  }

  lemma IndexName()
    ensures Ascii(",\"logIndex\":") == [COMMA] + JsonString(Ascii("logIndex")) + ([COLON] + [])
  {
    NameInLiteral(",\"logIndex\":", ",", [COMMA], "logIndex", "", []);
  }

  function IndexField(logIndex: nat): seq<Field> {
    [Field(Ascii("logIndex"), Number(logIndex))]
  }

  function LogIdFields(keyId: Bytes, logIndex: nat): seq<Field> {
    [Field(Ascii("logID"), Text(Hex(keyId)))] + IndexField(logIndex)
  }

  function TimeFields(time: nat, keyId: Bytes, logIndex: nat): seq<Field> {
    [Field(Ascii("integratedTime"), Number(time))] + LogIdFields(keyId, logIndex)
  }

  /** The document of a signed entry timestamp: four members, in the order of their names. */
  function SetDocument(body: Bytes, time: nat, keyId: Bytes, logIndex: nat): Document {
    Object([Field(Ascii("body"), Text(Base64(body))), Field(Ascii("integratedTime"), Number(time)),
            Field(Ascii("logID"), Text(Hex(keyId))), Field(Ascii("logIndex"), Number(logIndex))])
  }

  lemma SetDocumentFields(body: Bytes, time: nat, keyId: Bytes, logIndex: nat)
    ensures SetDocument(body, time, keyId, logIndex)
         == Object([Field(Ascii("body"), Text(Base64(body)))] + TimeFields(time, keyId, logIndex))
  {
  }

  /** A number, and a quoted text, between a literal with the name and the rest. */
  lemma NumberJoins(front: Bytes, name: Bytes, n: Bytes, rest: Bytes)
    ensures front + name + ([COLON] + []) + (n + rest) == front + (name + ([COLON] + (n + rest)))
  {
  }

  lemma TextJoins(front: Bytes, name: Bytes, s: Bytes, rest: Bytes)
    ensures front + name + ([COLON] + [QUOTE]) + (s + [QUOTE] + rest)
         == front + (name + ([COLON] + ([QUOTE] + s + [QUOTE] + rest)))
  {
  }

  lemma TailIsCompact(logIndex: nat)
    ensures SetTail(logIndex) == [COMMA] + Closed(IndexField(logIndex))
  {
    IndexName();
    ClosedOne(IndexField(logIndex)[0]);
    assert Decimal(logIndex) + [CLOSE] + [] == Decimal(logIndex) + [CLOSE];
    NumberJoins([COMMA], JsonString(Ascii("logIndex")), Decimal(logIndex), [CLOSE]);
  }

  lemma LogIdIsCompact(keyId: Bytes, logIndex: nat)
    ensures Ascii("\"logID\":\"") + (Hex(keyId) + [QUOTE] + SetTail(logIndex)) == Closed(LogIdFields(keyId, logIndex))
  {
    LogIdName();
    TailIsCompact(logIndex);
    ClosedCons(Field(Ascii("logID"), Text(Hex(keyId))), IndexField(logIndex));
    HexUnescaped(keyId);
    Quoted(Hex(keyId));
    TextJoins([], JsonString(Ascii("logID")), Hex(keyId), SetTail(logIndex));
  }

  lemma AfterBodyIsCompact(time: nat, keyId: Bytes, logIndex: nat)
    ensures SetAfterBody(time, keyId, logIndex) == [COMMA] + Closed(TimeFields(time, keyId, logIndex))
  {
    var rest := LogIdFields(keyId, logIndex);
    TimeName();
    LogIdIsCompact(keyId, logIndex);
    ClosedCons(Field(Ascii("integratedTime"), Number(time)), rest);
    NumberJoins([COMMA], JsonString(Ascii("integratedTime")), Decimal(time), [COMMA] + Closed(rest));
    assert Decimal(time) + [COMMA] + Closed(rest) == Decimal(time) + ([COMMA] + Closed(rest));
  }

  /** The text is the compact JSON of body, time, log key id and index under those names and in that order. */
  lemma SetIsCompactJson(body: Bytes, time: nat, keyId: Bytes, logIndex: nat)
    ensures SetSignedBytes(body, time, keyId, logIndex) == Compact(SetDocument(body, time, keyId, logIndex))
  {
    var rest := TimeFields(time, keyId, logIndex);
    SetDocumentFields(body, time, keyId, logIndex);
    BodyName();
    AfterBodyIsCompact(time, keyId, logIndex);
    ClosedCons(Field(Ascii("body"), Text(Base64(body))), rest);
    Quoted(Base64(body));
    TextJoins([OPEN], JsonString(Ascii("body")), Base64(body), [COMMA] + Closed(rest));
  }

  predicate EndsWith(s: Bytes, c: byte) {
    s != [] && s[|s| - 1] == c
  }

  /** The last byte tells a signed entry timestamp from text that ends with a line feed. */
  lemma SetEndsWithBrace(body: Bytes, time: nat, keyId: Bytes, logIndex: nat)
    ensures EndsWith(SetSignedBytes(body, time, keyId, logIndex), CLOSE)
  {
  }

  // ---- the envelope JSON behind envelopeHash ----

  datatype DsseEnvelope = DsseEnvelope(payload: Bytes, payloadType: Bytes, keyid: Option<Bytes>, sig: Bytes)

  /** An absent key id and an empty one are written the same way. */
  function KeyIdText(envelope: DsseEnvelope): Bytes {
    if envelope.keyid.Some? then envelope.keyid.value else []
  }

  function SigField(sig: Bytes): Bytes {
    Ascii("\"sig\":") + (JsonString(Base64(sig)) + Ascii("}]}"))
  }

  function SignatureFields(keyid: Bytes, sig: Bytes): Bytes {
    if keyid == [] then SigField(sig)
    else Ascii("\"keyid\":") + (JsonString(keyid) + ([COMMA] + SigField(sig)))
  }

  function EnvelopeJson(envelope: DsseEnvelope): Bytes {
    Ascii("{\"payload\":") + (JsonString(Base64(envelope.payload))
    + (Ascii(",\"payloadType\":") + (JsonString(envelope.payloadType)
    + (Ascii(",\"signatures\":[{") + SignatureFields(KeyIdText(envelope), envelope.sig)))))
  }

  /** Appending piece by piece gives the right-nested text. */
  lemma AppendAll(a: Bytes, b: Bytes, c: Bytes, d: Bytes, e: Bytes, f: Bytes)
    ensures a + (b + (c + (d + (e + f)))) == a + b + c + d + e + f
  {
  }

  lemma AppendThree(front: Bytes, a: Bytes, b: Bytes, c: Bytes)
    ensures front + a + b + c == front + (a + (b + c))
  {
  }

  /** The text up to the signature object. */
  method EnvelopeFront(envelope: DsseEnvelope) returns (json: Bytes)
    ensures json + SignatureFields(KeyIdText(envelope), envelope.sig) == EnvelopeJson(envelope)
  {
    json := Ascii("{\"payload\":");
    json := json + JsonString(Base64(envelope.payload));
    json := json + Ascii(",\"payloadType\":");
    json := json + JsonString(envelope.payloadType);
    json := json + Ascii(",\"signatures\":[{");
    AppendAll(Ascii("{\"payload\":"), JsonString(Base64(envelope.payload)), Ascii(",\"payloadType\":"),
              JsonString(envelope.payloadType), Ascii(",\"signatures\":[{"),
              SignatureFields(KeyIdText(envelope), envelope.sig));
  }

  lemma KeyIdThenSig(front: Bytes, keyid: Bytes, sig: Bytes)
    requires keyid != []
    ensures front + (Ascii("\"keyid\":") + (JsonString(keyid) + [COMMA])) + SigField(sig)
         == front + SignatureFields(keyid, sig)
  {
  }

  /** `compute_envelope_hash`: the text is appended field by field, then hashed. */
  method ComputeEnvelopeHash(hash: HashFn, envelope: DsseEnvelope) returns (digest: Digest)
    ensures digest == hash(EnvelopeJson(envelope))
  {
    var json := EnvelopeFront(envelope);
    ghost var front := json;
    if envelope.keyid.Some? && envelope.keyid.value != [] {
      json := json + Ascii("\"keyid\":");
      json := json + JsonString(envelope.keyid.value);
      json := json + [COMMA];
      AppendThree(front, Ascii("\"keyid\":"), JsonString(envelope.keyid.value), [COMMA]);
      KeyIdThenSig(front, envelope.keyid.value, envelope.sig);
    }
    assert json + SigField(envelope.sig) == front + SignatureFields(KeyIdText(envelope), envelope.sig);
    ghost var beforeSig := json;
    json := json + Ascii("\"sig\":");
    json := json + JsonString(Base64(envelope.sig));
    json := json + Ascii("}]}");
    AppendThree(beforeSig, Ascii("\"sig\":"), JsonString(Base64(envelope.sig)), Ascii("}]}"));
    digest := hash(json);
  }

  lemma SigFieldInjective(s1: Bytes, s2: Bytes)
    requires SigField(s1) == SigField(s2)
    ensures s1 == s2
  {
    CancelPrefix(Ascii("\"sig\":"), JsonString(Base64(s1)) + Ascii("}]}"), JsonString(Base64(s2)) + Ascii("}]}"));
    JsonStringPrefix(Base64(s1), Base64(s2), Ascii("}]}"), Ascii("}]}"));
    Base64Injective(s1, s2);
  }

  lemma SecondOf(a: Bytes, b: Bytes)
    requires |a| >= 2
    ensures |a + b| >= 2 && (a + b)[1] == a[1]
  {
  }

  lemma SecondOfSig(s: Bytes)
    ensures |SigField(s)| >= 2 && SigField(s)[1] == 115
  {
    SecondOf(Ascii("\"sig\":"), JsonString(Base64(s)) + Ascii("}]}"));
  }

  lemma SecondOfKeyId(rest: Bytes)
    ensures |Ascii("\"keyid\":") + rest| >= 2 && (Ascii("\"keyid\":") + rest)[1] == 107
  {
    SecondOf(Ascii("\"keyid\":"), rest);
  }

  /** The second character tells a key id field from a signature field. */
  lemma SecondCharacter(k: Bytes, s: Bytes)
    ensures |SignatureFields(k, s)| >= 2
    ensures SignatureFields(k, s)[1] == if k == [] then 115 else 107
  {
    if k == [] {
      SecondOfSig(s);
    } else {
      SecondOfKeyId(JsonString(k) + ([COMMA] + SigField(s)));
    }
  }

  lemma SignatureFieldsInjective(k1: Bytes, s1: Bytes, k2: Bytes, s2: Bytes)
    requires SignatureFields(k1, s1) == SignatureFields(k2, s2)
    ensures k1 == k2 && s1 == s2
  {
    SecondCharacter(k1, s1);
    SecondCharacter(k2, s2);
    if k1 == [] {
      SigFieldInjective(s1, s2);
    } else {
      var r1, r2 := [COMMA] + SigField(s1), [COMMA] + SigField(s2);
      CancelPrefix(Ascii("\"keyid\":"), JsonString(k1) + r1, JsonString(k2) + r2);
      JsonStringPrefix(k1, k2, r1, r2);
      CancelPrefix([COMMA], SigField(s1), SigField(s2));
      SigFieldInjective(s1, s2);
    }
  }

  /** The JSON determines the envelope, up to an absent against an empty key id. */
  lemma EnvelopeJsonInjective(a: DsseEnvelope, b: DsseEnvelope)
    requires EnvelopeJson(a) == EnvelopeJson(b)
    ensures a.payload == b.payload && a.payloadType == b.payloadType && a.sig == b.sig && KeyIdText(a) == KeyIdText(b)
  {
    var fa, fb := SignatureFields(KeyIdText(a), a.sig), SignatureFields(KeyIdText(b), b.sig);
    var ta, tb := Ascii(",\"signatures\":[{") + fa, Ascii(",\"signatures\":[{") + fb;
    var pa, pb := JsonString(a.payloadType) + ta, JsonString(b.payloadType) + tb;
    var ra, rb := Ascii(",\"payloadType\":") + pa, Ascii(",\"payloadType\":") + pb;
    CancelPrefix(Ascii("{\"payload\":"), JsonString(Base64(a.payload)) + ra, JsonString(Base64(b.payload)) + rb);
    JsonStringPrefix(Base64(a.payload), Base64(b.payload), ra, rb);
    Base64Injective(a.payload, b.payload);
    CancelPrefix(Ascii(",\"payloadType\":"), pa, pb);
    JsonStringPrefix(a.payloadType, b.payloadType, ta, tb);
    CancelPrefix(Ascii(",\"signatures\":[{"), fa, fb);
    SignatureFieldsInjective(KeyIdText(a), a.sig, KeyIdText(b), b.sig);
  }

  /** Conversely the JSON does not see the difference between an absent and an empty key id. */
  lemma AbsentKeyIdIsEmpty(a: DsseEnvelope)
    requires a.keyid.None?
    ensures EnvelopeJson(a) == EnvelopeJson(a.(keyid := Some([])))
  {
  }

  // ---- the envelope text is the envelope's compact JSON ----

  lemma PayloadName()
    ensures Ascii("{\"payload\":") == [OPEN] + JsonString(Ascii("payload")) + ([COLON] + [])
  {
    NameInLiteral("{\"payload\":", "{", [OPEN], "payload", "", []);
  }

  lemma PayloadTypeName()
    ensures Ascii(",\"payloadType\":") == [COMMA] + JsonString(Ascii("payloadType")) + ([COLON] + [])
  {
    NameInLiteral(",\"payloadType\":", ",", [COMMA], "payloadType", "", []);
  }

  lemma SignaturesName()
    ensures Ascii(",\"signatures\":[{") == [COMMA] + JsonString(Ascii("signatures")) + ([COLON] + [91, OPEN])
  {
    AsciiTwo("[{");
    NameInLiteral(",\"signatures\":[{", ",", [COMMA], "signatures", "[{", [91, OPEN]);
  }

  lemma KeyIdName()
    ensures Ascii("\"keyid\":") == [] + JsonString(Ascii("keyid")) + ([COLON] + [])
  {
    NameInLiteral("\"keyid\":", "", [], "keyid", "", []);
  }

  lemma SigName()
    ensures Ascii("\"sig\":") == [] + JsonString(Ascii("sig")) + ([COLON] + [])
    ensures Ascii("}]}") == [CLOSE] + [93, CLOSE]
  {
    NameInLiteral("\"sig\":", "", [], "sig", "", []);
  }

  /** The members of the one signature; an empty key id is left out. */
  function SignatureMembers(keyid: Bytes, sig: Bytes): seq<Field> {
    (if keyid == [] then [] else [Field(Ascii("keyid"), Text(keyid))]) + [Field(Ascii("sig"), Text(Base64(sig)))]
  }

  function EnvelopeDocument(envelope: DsseEnvelope): Document {
    Object([Field(Ascii("payload"), Text(Base64(envelope.payload))),
            Field(Ascii("payloadType"), Text(envelope.payloadType)),
            Field(Ascii("signatures"), List([Object(SignatureMembers(KeyIdText(envelope), envelope.sig))]))])
  }

  lemma SigIsCompact(sig: Bytes)
    ensures SigField(sig) == Closed([Field(Ascii("sig"), Text(Base64(sig)))]) + [93, CLOSE]
  {
    var text := JsonString(Base64(sig));
    SigName();
    ClosedOne(Field(Ascii("sig"), Text(Base64(sig))));
    NumberJoins([], JsonString(Ascii("sig")), text, [CLOSE] + [93, CLOSE]);
    Regroup3(text, [CLOSE], [93, CLOSE]);
    Regroup3(JsonString(Ascii("sig")), [COLON] + (text + [CLOSE]), [93, CLOSE]);
    Regroup3([COLON], text + [CLOSE], [93, CLOSE]);
  }

  lemma SignatureIsCompact(keyid: Bytes, sig: Bytes)
    ensures SignatureFields(keyid, sig) == Closed(SignatureMembers(keyid, sig)) + [93, CLOSE]
  {
    var last := [Field(Ascii("sig"), Text(Base64(sig)))];
    SigIsCompact(sig);
    if keyid == [] {
      assert SignatureMembers(keyid, sig) == last;
    } else {
      var name, text := JsonString(Ascii("keyid")), JsonString(keyid);
      KeyIdName();
      ClosedCons(Field(Ascii("keyid"), Text(keyid)), last);
      NumberJoins([], name, text, [COMMA] + (Closed(last) + [93, CLOSE]));
      Regroup3([COMMA], Closed(last), [93, CLOSE]);
      Regroup3(text, [COMMA] + Closed(last), [93, CLOSE]);
      Regroup3([COLON], text + ([COMMA] + Closed(last)), [93, CLOSE]);
      Regroup3(name, [COLON] + (text + ([COMMA] + Closed(last))), [93, CLOSE]);
    }
  }

  lemma InOneList(name: Bytes, members: Bytes)
    ensures [COMMA] + name + ([COLON] + [91, OPEN]) + (members + [93, CLOSE])
         == [COMMA] + (name + ([COLON] + ([91] + ([OPEN] + members) + [93] + [CLOSE])))
  {
  }

  lemma SignaturesAreCompact(members: seq<Field>)
    ensures Ascii(",\"signatures\":[{") + (Closed(members) + [93, CLOSE])
         == [COMMA] + Closed([Field(Ascii("signatures"), List([Object(members)]))])
  {
    SignaturesName();
    ClosedOne(Field(Ascii("signatures"), List([Object(members)])));
    OneObject(members);
    InOneList(JsonString(Ascii("signatures")), Closed(members));
  }

  lemma TypeIsCompact(payloadType: Bytes, last: Field)
    ensures Ascii(",\"payloadType\":") + (JsonString(payloadType) + ([COMMA] + Closed([last])))
         == [COMMA] + Closed([Field(Ascii("payloadType"), Text(payloadType))] + [last])
  {
    PayloadTypeName();
    ClosedCons(Field(Ascii("payloadType"), Text(payloadType)), [last]);
    NumberJoins([COMMA], JsonString(Ascii("payloadType")), JsonString(payloadType), [COMMA] + Closed([last]));
  }

  lemma PayloadIsCompact(payload: Bytes, rest: seq<Field>)
    requires rest != []
    ensures Ascii("{\"payload\":") + (JsonString(Base64(payload)) + ([COMMA] + Closed(rest)))
         == Compact(Object([Field(Ascii("payload"), Text(Base64(payload)))] + rest))
  {
    var first := Field(Ascii("payload"), Text(Base64(payload)));
    PayloadName();
    ClosedCons(first, rest);
    ObjectClosed([first] + rest);
    NumberJoins([OPEN], JsonString(Ascii("payload")), JsonString(Base64(payload)), [COMMA] + Closed(rest));
  }

  lemma ThreeFields(a: Field, b: Field, c: Field)
    ensures [a, b, c] == [a] + ([b] + [c])
  {
  }

  /** The text behind `envelopeHash` is the compact JSON of payload, payload type and the one signature. */
  lemma EnvelopeIsCompactJson(envelope: DsseEnvelope)
    ensures EnvelopeJson(envelope) == Compact(EnvelopeDocument(envelope))
  {
    var members := SignatureMembers(KeyIdText(envelope), envelope.sig);
    var payload := Field(Ascii("payload"), Text(Base64(envelope.payload)));
    var kind := Field(Ascii("payloadType"), Text(envelope.payloadType));
    var signatures := Field(Ascii("signatures"), List([Object(members)]));
    SignatureIsCompact(KeyIdText(envelope), envelope.sig);
    SignaturesAreCompact(members);
    TypeIsCompact(envelope.payloadType, signatures);
    PayloadIsCompact(envelope.payload, [kind] + [signatures]);
    ThreeFields(payload, kind, signatures);
  }
}
