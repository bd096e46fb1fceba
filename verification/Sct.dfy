/** Embedded SCT verification of src/sct.rs: at least one SCT must verify under a
    trusted Certificate Transparency log at the time it claims. */
module Sct {
  import opened Basics
  import opened Primitives
  import opened SctCodec
  import opened Windows
  import opened X509

  const HASH_ALGORITHM_SHA256: byte := 4
  const SIGNATURE_ALGORITHM_ECDSA: byte := 3

  /** The first log whose key hashes to `id`. */
  function FindCtLog(hash: HashFn, logs: seq<CtLog>, id: Bytes): Option<CtLog> {
    var k := FirstByKey(hash, logs, (log: CtLog) => log.publicKey, id);
    if k == |logs| then None else Some(logs[k])
  }

  /** The first trusted log whose key's digest is the identifier. */
  ghost predicate FirstCtLogOf(hash: HashFn, logs: seq<CtLog>, id: Bytes, log: CtLog) {
    exists k :: && 0 <= k < |logs| && logs[k] == log && hash(log.publicKey) == id
                && forall j :: 0 <= j < k ==> hash(logs[j].publicKey) != id
  }

  lemma FindCtLogExact(hash: HashFn, logs: seq<CtLog>, id: Bytes)
    ensures FindCtLog(hash, logs, id).None? <==> forall j :: 0 <= j < |logs| ==> hash(logs[j].publicKey) != id
    ensures forall log :: FindCtLog(hash, logs, id) == Some(log) <==> FirstCtLogOf(hash, logs, id, log)
  {
    var k := FirstByKey(hash, logs, (l: CtLog) => l.publicKey, id);
    forall log | FirstCtLogOf(hash, logs, id, log)
      ensures FindCtLog(hash, logs, id) == Some(log)
    {
      var i :| 0 <= i < |logs| && logs[i] == log && hash(log.publicKey) == id
               && forall j :: 0 <= j < i ==> hash(logs[j].publicKey) != id;
      assert k == i;
    }
  }

  /** `verify_one_sct` */
  function VerifyOneSct(f: Foreign, sct: ParsedSct, tbs: Bytes, issuerKeyHash: Digest, logs: seq<CtLog>): Check {
    var log := FindCtLog(f.sha256, logs, sct.logId);
    var _ :- Require(log.Some?, UnknownCtLog);
    var _ :- Require(SctSeconds(sct.timestampMs) <= I64_MAX, SctInvalid);
    var _ :- Require(SctWithin(sct.timestampMs, log.value.validFor), SctOutsideKeyValidity);
    var _ :- Require(sct.version == SCT_VERSION_V1 && sct.hashAlgorithm == HASH_ALGORITHM_SHA256
                     && sct.signatureAlgorithm == SIGNATURE_ALGORITHM_ECDSA, SctInvalid);
    var _ :- Require(SignedStructFits(tbs, sct.extensions), SctInvalid);
    var key := f.keyFromSpki(log.value.publicKey);
    var _ :- Require(key.Some?, UnsupportedKeyAlgorithm);
    Require(f.verifyDer(key.value, SignedStruct(sct.timestampMs, issuerKeyHash, tbs, sct.extensions), sct.signature),
            SctInvalid)
  }

  /** The signed second always fits, so the conversion in the source never fails. */
  lemma TimestampAlwaysFits(sct: ParsedSct)
    ensures SctSeconds(sct.timestampMs) <= I64_MAX
  {
  }

  /** The log's key has signed this SCT for the precertificate, in version 1 with SHA-256 and ECDSA. */
  predicate SctSigned(f: Foreign, sct: ParsedSct, tbs: Bytes, issuerKeyHash: Digest, key: Key) {
    && sct.version == 0 && sct.hashAlgorithm == 4 && sct.signatureAlgorithm == 3
    && SignedStructFits(tbs, sct.extensions)
    && f.verifyDer(key, SignedStruct(sct.timestampMs, issuerKeyHash, tbs, sct.extensions), sct.signature)
  }

  /** An SCT that the trusted log it names has signed for this precertificate, inside the log key's window. */
  ghost predicate SctHolds(f: Foreign, sct: ParsedSct, tbs: Bytes, issuerKeyHash: Digest, logs: seq<CtLog>) {
    exists log, key ::
      && FirstCtLogOf(f.sha256, logs, sct.logId, log) && f.keyFromSpki(log.publicKey) == Some(key)
      && SctWithin(sct.timestampMs, log.validFor) && SctSigned(f, sct, tbs, issuerKeyHash, key)
  }

  lemma OneSctExact(f: Foreign, sct: ParsedSct, tbs: Bytes, issuerKeyHash: Digest, logs: seq<CtLog>)
    ensures VerifyOneSct(f, sct, tbs, issuerKeyHash, logs).Ok? <==> SctHolds(f, sct, tbs, issuerKeyHash, logs)
  {
    FindCtLogExact(f.sha256, logs, sct.logId);
  }

  lemma SomeCtLog(hash: HashFn, logs: seq<CtLog>, id: Bytes)
    ensures (forall j :: 0 <= j < |logs| ==> hash(logs[j].publicKey) != id)
         || exists log :: FirstCtLogOf(hash, logs, id, log)
  {
    FindCtLogExact(hash, logs, id);
    var log := FindCtLog(hash, logs, id);
    assert log.Some? ==> FirstCtLogOf(hash, logs, id, log.value);
  }

  /** The first fault of an SCT, in the source's order, or none. */
  ghost function SctFault(f: Foreign, sct: ParsedSct, tbs: Bytes, issuerKeyHash: Digest, logs: seq<CtLog>)
    : Option<Error>
  {
    if forall j :: 0 <= j < |logs| ==> f.sha256(logs[j].publicKey) != sct.logId then Some(UnknownCtLog)
    else
      SomeCtLog(f.sha256, logs, sct.logId);
      var log :| FirstCtLogOf(f.sha256, logs, sct.logId, log);
      if !SctWithin(sct.timestampMs, log.validFor) then Some(SctOutsideKeyValidity)
      else if sct.version != 0 || sct.hashAlgorithm != 4 || sct.signatureAlgorithm != 3 then Some(SctInvalid)
      else if !SignedStructFits(tbs, sct.extensions) then Some(SctInvalid)
      else if f.keyFromSpki(log.publicKey).None? then Some(UnsupportedKeyAlgorithm)
      else if !SctSigned(f, sct, tbs, issuerKeyHash, f.keyFromSpki(log.publicKey).value) then Some(SctInvalid)
      else None
  }

  lemma OneSctFault(f: Foreign, sct: ParsedSct, tbs: Bytes, issuerKeyHash: Digest, logs: seq<CtLog>)
    ensures ErrorOf(VerifyOneSct(f, sct, tbs, issuerKeyHash, logs)) == SctFault(f, sct, tbs, issuerKeyHash, logs)
  {
    FindCtLogExact(f.sha256, logs, sct.logId);
    TimestampAlwaysFits(sct);
  }

  /** Under a log whose bounds qualify, an SCT that passes was issued inside the window its trust root states. */
  lemma PassedSctInWrittenWindow(
    f: Foreign, sct: ParsedSct, tbs: Bytes, issuerKeyHash: Digest, logs: seq<CtLog>, log: CtLog, w: WrittenPeriod)
    requires VerifyOneSct(f, sct, tbs, issuerKeyHash, logs).Ok? && FirstCtLogOf(f.sha256, logs, sct.logId, log)
    requires ValidWritten(w) && log.validFor == Parsed(w)
    requires Qualifies(w.start) && (w.end.Some? ==> Qualifies(w.end.value))
    ensures InWrittenWindow(sct.timestampMs, w)
  {
    FindCtLogExact(f.sha256, logs, sct.logId);
    QualifiedBoundsAreExact(sct.timestampMs, w);
  }

  lemma HoldsUnder(
    f: Foreign, sct: ParsedSct, tbs: Bytes, issuerKeyHash: Digest, logs: seq<CtLog>, log: CtLog, key: Key)
    requires FirstCtLogOf(f.sha256, logs, sct.logId, log) && f.keyFromSpki(log.publicKey) == Some(key)
    requires SctWithin(sct.timestampMs, log.validFor) && SctSigned(f, sct, tbs, issuerKeyHash, key)
    ensures VerifyOneSct(f, sct, tbs, issuerKeyHash, logs) == Pass
  {
    OneSctExact(f, sct, tbs, issuerKeyHash, logs);
    OkIsPass(VerifyOneSct(f, sct, tbs, issuerKeyHash, logs));
  }

  /** Under the log of the crate's trust root whose end does not qualify, a signed SCT of the last millisecond
      passes although that window has closed. */
  lemma LateSctPasses(
    f: Foreign, sct: ParsedSct, tbs: Bytes, issuerKeyHash: Digest, logs: seq<CtLog>, log: CtLog, key: Key)
    requires FirstCtLogOf(f.sha256, logs, sct.logId, log) && f.keyFromSpki(log.publicKey) == Some(key)
    requires log.validFor == Parsed(CT_LOG_WINDOW) && sct.timestampMs == 1_667_260_799_999
    requires SctSigned(f, sct, tbs, issuerKeyHash, key)
    ensures VerifyOneSct(f, sct, tbs, issuerKeyHash, logs) == Pass
    ensures !InWrittenWindow(sct.timestampMs, CT_LOG_WINDOW)
  {
    SctInexactExample();
    HoldsUnder(f, sct, tbs, issuerKeyHash, logs, log, key);
  }

  /** The verdict over a list of SCT results: a success wins, else the first failure is reported. */
  function FirstSuccess(checks: seq<Check>, firstError: Option<Error>): Check {
    if checks == [] then Err(if firstError.Some? then firstError.value else SctInvalid)
    else if checks[0].Ok? then Pass
    else FirstSuccess(checks[1..], if firstError.None? then Some(checks[0].error) else firstError)
  }

  lemma {:induction false} FirstSuccessExact(checks: seq<Check>, firstError: Option<Error>)
    ensures var r := FirstSuccess(checks, firstError);
            && (r.Ok? <==> exists k :: 0 <= k < |checks| && checks[k].Ok?)
            && (r.Err? && firstError.Some? ==> r.error == firstError.value)
            && (r.Err? && firstError.None? && checks != [] ==> r == checks[0])
  {
    if checks != [] {
      var rest := checks[1..];
      FirstSuccessExact(rest, if firstError.None? && checks[0].Err? then Some(checks[0].error) else firstError);
      assert forall k :: 0 <= k < |rest| ==> rest[k] == checks[k + 1];
      assert forall k :: 1 <= k < |checks| ==> checks[k] == rest[k - 1];
    }
  }

  function SctChecks(f: Foreign, scts: seq<ParsedSct>, tbs: Bytes, issuerKeyHash: Digest, logs: seq<CtLog>)
    : seq<Check>
  {
    seq(|scts|, i requires 0 <= i < |scts| => VerifyOneSct(f, scts[i], tbs, issuerKeyHash, logs))
  }

  /** The list embedded in a leaf: a once-occurring extension around an octet string. */
  function ExtractSctList(f: Foreign, leaf: Certificate): Result<Bytes, Error> {
    var ext :- FindExtension(leaf.extensions, SCT_LIST_OID);
    if ext.None? then Err(SctMissing)
    else
      var inner := f.decodeOctetString(ext.value.value);
      if inner.None? then Err(InvalidDer) else Ok(inner.value)
  }

  function EmbeddedSctResult(f: Foreign, validated: ValidatedLeaf, logs: seq<CtLog>): Check {
    var bytes :- ExtractSctList(f, validated.leaf);
    var scts := DecodeList(bytes);
    if scts.None? then Err(SctInvalid)
    else if scts.value == [] then Err(SctMissing)
    else
      var tbs := f.precertTbs(validated.leaf.tbs);
      if tbs.None? then Err(InvalidDer)
      else FirstSuccess(SctChecks(f, scts.value, tbs.value, f.sha256(validated.issuerSpki), logs), None)
  }

  method CheckSct(f: Foreign, sct: ParsedSct, tbs: Bytes, issuerKeyHash: Digest, logs: seq<CtLog>) returns (r: Check)
    ensures r == VerifyOneSct(f, sct, tbs, issuerKeyHash, logs)
    ensures r.Ok? <==> SctHolds(f, sct, tbs, issuerKeyHash, logs)
  {
    OneSctExact(f, sct, tbs, issuerKeyHash, logs);
    var log := FindCtLog(f.sha256, logs, sct.logId);
    if log.None? { return Err(UnknownCtLog); }
    var seconds := SctSeconds(sct.timestampMs);
    if seconds > I64_MAX { return Err(SctInvalid); }
    if !SctWithin(sct.timestampMs, log.value.validFor) { return Err(SctOutsideKeyValidity); }
    if sct.version != SCT_VERSION_V1 || sct.hashAlgorithm != HASH_ALGORITHM_SHA256
       || sct.signatureAlgorithm != SIGNATURE_ALGORITHM_ECDSA { return Err(SctInvalid); }
    var message := DigitallySignedBytes(sct.timestampMs, issuerKeyHash, tbs, sct.extensions);
    if message.None? { return Err(SctInvalid); }
    var key := f.keyFromSpki(log.value.publicKey);
    if key.None? { return Err(UnsupportedKeyAlgorithm); }
    return if f.verifyDer(key.value, message.value, sct.signature) then Pass else Err(SctInvalid);
  }

  method TryEach(f: Foreign, scts: seq<ParsedSct>, tbs: Bytes, issuerKeyHash: Digest, logs: seq<CtLog>)
    returns (r: Check)
    ensures r == FirstSuccess(SctChecks(f, scts, tbs, issuerKeyHash, logs), None)
  {
    ghost var checks := SctChecks(f, scts, tbs, issuerKeyHash, logs);
    var firstError: Option<Error> := None;
    var i := 0;
    while i < |scts|
      invariant 0 <= i <= |scts| == |checks|
      invariant FirstSuccess(checks[i..], firstError) == FirstSuccess(checks, None)
    {
      var check := CheckSct(f, scts[i], tbs, issuerKeyHash, logs);
      assert check == checks[i] && checks[i..][0] == checks[i] && checks[i..][1..] == checks[i + 1..];
      if check.Ok? {
        return Pass;
      }
      if firstError.None? {
        firstError := Some(check.error);
      }
      i := i + 1;
    }
    return Err(if firstError.Some? then firstError.value else SctInvalid);
  }

  /** `verify_embedded_scts`: every SCT is tried in order until one verifies; the first failure is kept. */
  method VerifyEmbeddedScts(f: Foreign, validated: ValidatedLeaf, logs: seq<CtLog>) returns (r: Check)
    ensures r == EmbeddedSctResult(f, validated, logs)
  {
    var bytes := ExtractSctList(f, validated.leaf);
    if bytes.Err? {
      return Err(bytes.error);
    }
    var scts := ParseSctList(bytes.value);
    if scts.None? {
      return Err(SctInvalid);
    }
    if scts.value == [] {
      return Err(SctMissing);
    }
    var tbs := f.precertTbs(validated.leaf.tbs);
    if tbs.None? {
      return Err(InvalidDer);
    }
    r := TryEach(f, scts.value, tbs.value, f.sha256(validated.issuerSpki), logs);
  }

  ghost predicate SomeSctHolds(f: Foreign, scts: seq<ParsedSct>, tbs: Bytes, issuerKeyHash: Digest, logs: seq<CtLog>) {
    exists k :: 0 <= k < |scts| && SctHolds(f, scts[k], tbs, issuerKeyHash, logs)
  }

  lemma SomeCheckPasses(f: Foreign, scts: seq<ParsedSct>, tbs: Bytes, issuerKeyHash: Digest, logs: seq<CtLog>)
    ensures FirstSuccess(SctChecks(f, scts, tbs, issuerKeyHash, logs), None).Ok?
        <==> SomeSctHolds(f, scts, tbs, issuerKeyHash, logs)
  {
    var checks := SctChecks(f, scts, tbs, issuerKeyHash, logs);
    FirstSuccessExact(checks, None);
    forall k | 0 <= k < |scts|
      ensures checks[k].Ok? <==> SctHolds(f, scts[k], tbs, issuerKeyHash, logs)
    {
      OneSctExact(f, scts[k], tbs, issuerKeyHash, logs);
    }
  }

  /** The leaf's SCT extension occurs once and encodes exactly this list. */
  ghost predicate Embeds(f: Foreign, leaf: Certificate, scts: seq<ParsedSct>) {
    exists ext :: OccursOnce(leaf.extensions, SCT_LIST_OID, ext)
                  && f.decodeOctetString(ext.value) == Some(EncodeList(scts)) && EncodableList(scts)
  }

  lemma EmbedsExact(f: Foreign, leaf: Certificate, scts: seq<ParsedSct>)
    ensures Embeds(f, leaf, scts)
        <==> ExtractSctList(f, leaf).Ok? && DecodeList(ExtractSctList(f, leaf).value) == Some(scts)
  {
    FindExtensionExact(leaf.extensions, SCT_LIST_OID);
    var extracted := ExtractSctList(f, leaf);
    if extracted.Ok? && DecodeList(extracted.value) == Some(scts) {
      EncodeListOfDecode(extracted.value);
      var ext := FindExtension(leaf.extensions, SCT_LIST_OID).value.value;
      assert OccursOnce(leaf.extensions, SCT_LIST_OID, ext);
    }
    if Embeds(f, leaf, scts) {
      DecodeListOfEncode(scts);
    }
  }

  /** A leaf's embedded evidence: some SCT of its list holds for the precertificate and the issuing key. */
  ghost predicate HasValidSct(f: Foreign, validated: ValidatedLeaf, logs: seq<CtLog>) {
    exists scts, tbs ::
      Embeds(f, validated.leaf, scts) && f.precertTbs(validated.leaf.tbs) == Some(tbs)
      && SomeSctHolds(f, scts, tbs, f.sha256(validated.issuerSpki), logs)
  }

  /** Acceptance is exactly the presence of such evidence. */
  lemma EmbeddedSctExact(f: Foreign, validated: ValidatedLeaf, logs: seq<CtLog>)
    ensures EmbeddedSctResult(f, validated, logs).Ok? <==> HasValidSct(f, validated, logs)
  {
    var keyHash := f.sha256(validated.issuerSpki);
    if EmbeddedSctResult(f, validated, logs).Ok? {
      var scts := DecodeList(ExtractSctList(f, validated.leaf).value).value;
      var tbs := f.precertTbs(validated.leaf.tbs).value;
      EmbedsExact(f, validated.leaf, scts);
      SomeCheckPasses(f, scts, tbs, keyHash, logs);
    }
    if HasValidSct(f, validated, logs) {
      var scts, tbs :| Embeds(f, validated.leaf, scts) && f.precertTbs(validated.leaf.tbs) == Some(tbs)
                       && SomeSctHolds(f, scts, tbs, keyHash, logs);
      EmbedsExact(f, validated.leaf, scts);
      SomeCheckPasses(f, scts, tbs, keyHash, logs);
    }
  }

  // ---- which error a rejection names ----

  /** A leaf without a readable list: repeated or absent extension, no octet string in it, no list in that. */
  lemma NoListFault(f: Foreign, validated: ValidatedLeaf, logs: seq<CtLog>)
    requires forall scts :: !Embeds(f, validated.leaf, scts)
    ensures ErrorOf(EmbeddedSctResult(f, validated, logs))
         == if Repeated(validated.leaf.extensions, SCT_LIST_OID) then Some(DuplicateExtension)
            else if Absent(validated.leaf.extensions, SCT_LIST_OID) then Some(SctMissing)
            else if exists ext :: OccursOnce(validated.leaf.extensions, SCT_LIST_OID, ext)
                                  && f.decodeOctetString(ext.value).None? then Some(InvalidDer)
            else Some(SctInvalid)
  {
    var leaf := validated.leaf;
    OnceOrRepeated(leaf.extensions, SCT_LIST_OID);
    FindExtensionExact(leaf.extensions, SCT_LIST_OID);
    var found := FindExtension(leaf.extensions, SCT_LIST_OID);
    if found.Ok? && found.value.Some? {
      assert OccursOnce(leaf.extensions, SCT_LIST_OID, found.value.value);
    }
    var bytes := ExtractSctList(f, leaf);
    if bytes.Ok? && DecodeList(bytes.value).Some? {
      EmbedsExact(f, leaf, DecodeList(bytes.value).value);
    }
  }

  /** A leaf with a list fails when the list is empty, the precertificate cannot be rebuilt, or no SCT holds; the
      first SCT's fault is the one reported. */
  lemma ListFault(f: Foreign, validated: ValidatedLeaf, logs: seq<CtLog>, scts: seq<ParsedSct>)
    requires Embeds(f, validated.leaf, scts)
    ensures var tbs, keyHash := f.precertTbs(validated.leaf.tbs), f.sha256(validated.issuerSpki);
            ErrorOf(EmbeddedSctResult(f, validated, logs))
              == if scts == [] then Some(SctMissing)
                 else if tbs.None? then Some(InvalidDer)
                 else if SomeSctHolds(f, scts, tbs.value, keyHash, logs) then None
                 else SctFault(f, scts[0], tbs.value, keyHash, logs)
  {
    EmbedsExact(f, validated.leaf, scts);
    var tbs, keyHash := f.precertTbs(validated.leaf.tbs), f.sha256(validated.issuerSpki);
    if tbs.Some? && scts != [] {
      SomeCheckPasses(f, scts, tbs.value, keyHash, logs);
      FirstSuccessExact(SctChecks(f, scts, tbs.value, keyHash, logs), None);
      OneSctFault(f, scts[0], tbs.value, keyHash, logs);
    }
  }

  // ---- errors of the SCT step ----

  lemma OneSctErrors(f: Foreign, sct: ParsedSct, tbs: Bytes, issuerKeyHash: Digest, logs: seq<CtLog>)
    ensures var r := VerifyOneSct(f, sct, tbs, issuerKeyHash, logs); r.Err? ==> !IsSignerError(r.error)
  {
  }

  /** A failed SCT step never blames the signer's signature or identity. */
  lemma EmbeddedSctErrors(f: Foreign, validated: ValidatedLeaf, logs: seq<CtLog>)
    ensures var r := EmbeddedSctResult(f, validated, logs); r.Err? ==> !IsSignerError(r.error)
  {
    var bytes := ExtractSctList(f, validated.leaf);
    if bytes.Ok? && DecodeList(bytes.value).Some? && f.precertTbs(validated.leaf.tbs).Some? {
      var scts, tbs := DecodeList(bytes.value).value, f.precertTbs(validated.leaf.tbs).value;
      var keyHash := f.sha256(validated.issuerSpki);
      FirstSuccessExact(SctChecks(f, scts, tbs, keyHash, logs), None);
      if scts != [] {
        OneSctErrors(f, scts[0], tbs, keyHash, logs);
      }
    }
  }
}
