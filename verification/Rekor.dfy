/** Transparency-log entry verification of src/rekor.rs: the entry body is bound to the bundle, promised
    by the log at a time, included in its tree, and the tree is anchored in a signed checkpoint. */
module Rekor {
  import opened Basics
  import opened Checkpoint
  import opened CheckpointForm
  import opened CheckpointSearch
  import opened CompactJson
  import opened Merkle
  import opened OriginPolicy
  import opened Primitives
  import opened SignedMessages
  import opened TextCodecs
  import opened Windows
  import opened X509

  const TLOG_ENTRY_KIND := Ascii("dsse")
  const TLOG_ENTRY_API_VERSION := Ascii("0.0.1")

  datatype TlogEntryBody = TlogEntryBody(
    kind: Bytes, apiVersion: Bytes, envelopeHash: Digest, payloadHash: Digest, signature: Bytes, certificateDer: Bytes)

  /** The index the log promised and the index in the proof are different numbers (the log is sharded);
      nothing here relates them. */
  datatype TlogEntry = TlogEntry(
    logIndex: u64, logId: Bytes, kind: Bytes, version: Bytes, integratedTime: u64,
    inclusionPromise: Option<Bytes>, inclusionProof: Option<InclusionProof>, canonicalizedBody: Bytes)

  datatype Bundle = Bundle(certificateDer: Bytes, tlogEntries: seq<TlogEntry>, envelope: DsseEnvelope)

  datatype VerifiedTimestamp = VerifiedTimestamp(integratedTime: u64, logIndex: u64)

  // ---- the entry body and its binding to the bundle ----

  function DecodeFields(f: Foreign, raw: RawEntryBody, rawSignature: RawSignature): Result<TlogEntryBody, Error> {
    var envelopeHash, payloadHash := f.hexDigest(raw.envelopeHash), f.hexDigest(raw.payloadHash);
    var signature, verifier := f.text.base64(rawSignature.signature), f.text.base64(rawSignature.verifier);
    if envelopeHash.None? || payloadHash.None? then Err(MalformedHex)
    else if signature.None? || verifier.None? || f.pemCertificate(verifier.value).None? then Err(MalformedBase64)
    else Ok(TlogEntryBody(raw.kind, raw.apiVersion, envelopeHash.value, payloadHash.value, signature.value,
                          f.pemCertificate(verifier.value).value))
  }

  /** `parse_tlog_entry_body`, from the decoded JSON on. */
  function ParseEntryBody(f: Foreign, canonicalizedBody: Bytes): Result<TlogEntryBody, Error> {
    var raw := f.entryBody(canonicalizedBody);
    if raw.None? then Err(MalformedJson)
    else if raw.value.kind != TLOG_ENTRY_KIND || raw.value.apiVersion != TLOG_ENTRY_API_VERSION then
      Err(UnsupportedTlogEntry)
    else if |raw.value.signatures| != 1 then Err(DsseSignatureCount)
    else DecodeFields(f, raw.value, raw.value.signatures[0])
  }

  /** The entry body records this bundle: its signature, its certificate and the hashes of its payload
      and of its envelope. */
  predicate Records(f: Foreign, body: TlogEntryBody, entry: TlogEntry, envelope: DsseEnvelope, leafDer: Bytes) {
    && entry.kind == body.kind && entry.version == body.apiVersion
    && body.signature == envelope.sig && body.certificateDer == leafDer
    && body.payloadHash == f.sha256(envelope.payload) && body.envelopeHash == f.sha256(EnvelopeJson(envelope))
  }

  function EntryBinding(f: Foreign, entry: TlogEntry, body: TlogEntryBody, envelope: DsseEnvelope, leafDer: Bytes)
    : (r: Check)
    ensures r.Ok? <==> Records(f, body, entry, envelope, leafDer)
  {
    var _ :- Require(entry.kind == body.kind && entry.version == body.apiVersion, TlogEntryKindVersionMismatch);
    var _ :- Require(body.signature == envelope.sig, TlogEntrySignatureMismatch);
    var _ :- Require(body.certificateDer == leafDer, TlogEntryCertificateMismatch);
    var _ :- Require(body.payloadHash == f.sha256(envelope.payload), TlogEntryPayloadHashMismatch);
    Require(body.envelopeHash == f.sha256(EnvelopeJson(envelope)), TlogEntryEnvelopeHashMismatch)
  }

  /** `check_entry_binding` */
  method CheckEntryBinding(f: Foreign, entry: TlogEntry, body: TlogEntryBody, envelope: DsseEnvelope, leafDer: Bytes)
    returns (r: Check)
    ensures r == EntryBinding(f, entry, body, envelope, leafDer)
    ensures r.Ok? <==> Records(f, body, entry, envelope, leafDer)
  {
    if entry.kind != body.kind || entry.version != body.apiVersion { return Err(TlogEntryKindVersionMismatch); }
    if body.signature != envelope.sig { return Err(TlogEntrySignatureMismatch); }
    if body.certificateDer != leafDer { return Err(TlogEntryCertificateMismatch); }
    if body.payloadHash != f.sha256(envelope.payload) { return Err(TlogEntryPayloadHashMismatch); }
    var envelopeHash := ComputeEnvelopeHash(f.sha256, envelope);
    if body.envelopeHash != envelopeHash { return Err(TlogEntryEnvelopeHashMismatch); }
    return Pass;
  }

  /** The fields of a body are those its JSON states: one signature, by one certificate, and two hashes. */
  ghost predicate States(f: Foreign, raw: RawEntryBody, body: TlogEntryBody) {
    && body.kind == raw.kind == Ascii("dsse") && body.apiVersion == raw.apiVersion == Ascii("0.0.1")
    && f.hexDigest(raw.payloadHash) == Some(body.payloadHash)
    && f.hexDigest(raw.envelopeHash) == Some(body.envelopeHash)
    && |raw.signatures| == 1
    && f.text.base64(raw.signatures[0].signature) == Some(body.signature)
    && var pem := f.text.base64(raw.signatures[0].verifier);
       pem.Some? && f.pemCertificate(pem.value) == Some(body.certificateDer)
  }

  lemma EntryBodyExact(f: Foreign, canonicalizedBody: Bytes, body: TlogEntryBody)
    ensures ParseEntryBody(f, canonicalizedBody) == Ok(body)
        <==> f.entryBody(canonicalizedBody).Some? && States(f, f.entryBody(canonicalizedBody).value, body)
  {
  }

  // ---- the log key and the signed entry timestamp ----

  /** The first log whose key hashes to `id`. */
  function FindLog(hash: HashFn, logs: seq<TransparencyLog>, id: Bytes): Option<TransparencyLog> {
    var k := FirstByKey(hash, logs, (log: TransparencyLog) => log.publicKey, id);
    if k == |logs| then None else Some(logs[k])
  }

  /** The first log of the store whose key's digest is the identifier. */
  ghost predicate FirstLogOf(hash: HashFn, logs: seq<TransparencyLog>, id: Bytes, log: TransparencyLog) {
    exists k :: && 0 <= k < |logs| && logs[k] == log && hash(log.publicKey) == id
                && forall j :: 0 <= j < k ==> hash(logs[j].publicKey) != id
  }

  lemma FindLogExact(hash: HashFn, logs: seq<TransparencyLog>, id: Bytes, log: TransparencyLog)
    ensures FindLog(hash, logs, id) == Some(log) <==> FirstLogOf(hash, logs, id, log)
  {
    var k := FirstByKey(hash, logs, (l: TransparencyLog) => l.publicKey, id);
    if FirstLogOf(hash, logs, id, log) {
      var i :| 0 <= i < |logs| && logs[i] == log && hash(log.publicKey) == id
               && forall j :: 0 <= j < i ==> hash(logs[j].publicKey) != id;
      assert k == i;
    }
  }

  lemma NoLogFound(hash: HashFn, logs: seq<TransparencyLog>, id: Bytes)
    requires forall log :: log in logs ==> hash(log.publicKey) != id
    ensures FindLog(hash, logs, id) == None
  {
    var k := FirstByKey(hash, logs, (log: TransparencyLog) => log.publicKey, id);
    if k < |logs| {
      assert hash(logs[k].publicKey) == id;
    }
  }

  /** `select_log_key` */
  function SelectLogKey(f: Foreign, logs: seq<TransparencyLog>, id: Bytes): Result<(TransparencyLog, Key), Error> {
    var log := FindLog(f.sha256, logs, id);
    if log.None? then Err(UnknownLogKey)
    else
      var key := f.keyFromSpki(log.value.publicKey);
      if key.None? then Err(UnsupportedKeyAlgorithm) else Ok((log.value, key.value))
  }

  /** The log has promised to include the body, at this time and index. */
  predicate Promised(f: Foreign, entry: TlogEntry, keyId: Digest, key: Key) {
    entry.inclusionPromise.Some? &&
    f.verifyDer(key, SetSignedBytes(entry.canonicalizedBody, entry.integratedTime, keyId, entry.logIndex),
                entry.inclusionPromise.value)
  }

  /** `verify_set`: a missing promise is an error, because the proof does not authenticate the time. */
  function VerifySet(f: Foreign, entry: TlogEntry, keyId: Digest, key: Key): (r: Check)
    ensures r.Ok? <==> Promised(f, entry, keyId, key)
    ensures r.Err? ==> r.error == if entry.inclusionPromise.None? then SetMissing else SetInvalid
  {
    if entry.inclusionPromise.None? then Err(SetMissing)
    else
      var message := SetSignedBytes(entry.canonicalizedBody, entry.integratedTime, keyId, entry.logIndex);
      Require(f.verifyDer(key, message, entry.inclusionPromise.value), SetInvalid)
  }

  // ---- inclusion, checkpoint and origin ----

  function LogEvidence(f: Foreign, entry: TlogEntry, log: TransparencyLog, key: Key, policy: seq<Binding>)
    : Result<ParsedCheckpoint, Error>
  {
    if entry.inclusionProof.None? then Err(InclusionProofMissing)
    else
      var proof := entry.inclusionProof.value;
      if !InclusionProofValid(f.sha256, entry.canonicalizedBody, proof) then Err(InclusionProofInvalid)
      else
        var checkpoint := Verified(f, proof.checkpointEnvelope, proof.treeSize, proof.rootHash, log, key);
        if checkpoint.Err? then checkpoint
        else if !Allows(policy, f.sha256(log.publicKey), checkpoint.value.fields.origin) then
          Err(CheckpointOriginMismatch)
        else checkpoint
  }

  method CheckLogEvidence(f: Foreign, entry: TlogEntry, log: TransparencyLog, key: Key, policy: seq<Binding>)
    returns (r: Result<ParsedCheckpoint, Error>)
    ensures r == LogEvidence(f, entry, log, key, policy)
  {
    if entry.inclusionProof.None? {
      return Err(InclusionProofMissing);
    }
    var proof := entry.inclusionProof.value;
    var included := VerifyInclusionProof(f.sha256, entry.canonicalizedBody, proof);
    if !included {
      return Err(InclusionProofInvalid);
    }
    var checkpoint, _ := VerifyCheckpoint(f, proof.checkpointEnvelope, proof.treeSize, proof.rootHash, log, key);
    if checkpoint.Ok? && !Allows(policy, f.sha256(log.publicKey), checkpoint.value.fields.origin) {
      return Err(CheckpointOriginMismatch);
    }
    return checkpoint;
  }

  /** The entry is proved included under a checkpoint that verifies. */
  predicate Authenticated(f: Foreign, entry: TlogEntry, log: TransparencyLog, key: Key) {
    entry.inclusionProof.Some? &&
    var proof := entry.inclusionProof.value;
    InclusionProofValid(f.sha256, entry.canonicalizedBody, proof)
    && Verified(f, proof.checkpointEnvelope, proof.treeSize, proof.rootHash, log, key).Ok?
  }

  function OriginOf(f: Foreign, entry: TlogEntry, log: TransparencyLog, key: Key): Bytes
    requires Authenticated(f, entry, log, key)
  {
    var proof := entry.inclusionProof.value;
    Verified(f, proof.checkpointEnvelope, proof.treeSize, proof.rootHash, log, key).value.fields.origin
  }

  /** An origin mismatch is reported exactly for a checkpoint that has been authenticated. */
  lemma OriginMismatchExact(f: Foreign, entry: TlogEntry, log: TransparencyLog, key: Key, policy: seq<Binding>)
    ensures LogEvidence(f, entry, log, key, policy) == Err(CheckpointOriginMismatch)
        <==> Authenticated(f, entry, log, key) && !Allows(policy, f.sha256(log.publicKey), OriginOf(f, entry, log, key))
  {
    if entry.inclusionProof.Some? {
      var proof := entry.inclusionProof.value;
      VerifiedErrors(f, proof.checkpointEnvelope, proof.treeSize, proof.rootHash, log, key);
    }
  }

  // ---- time ----

  /** The integrated time, as a signed 64-bit number, lies in the half-open window of the log key and the
      closed one of the leaf. */
  predicate InBothWindows(time: u64, logWindow: ValidityPeriod, leaf: Certificate) {
    time <= I64_MAX && WithinValidFor(time, logWindow) && InValidity(leaf, time)
  }

  /** `check_time_window` */
  function CheckTimeWindow(time: u64, logWindow: ValidityPeriod, notBefore: int, notAfter: int): (r: Check)
    ensures r.Ok? <==> time <= I64_MAX && WithinValidFor(time, logWindow) && notBefore <= time <= notAfter
    ensures r.Err? ==> (r.error == IntegratedTimeOutsideCertificateValidity
                        <==> time <= I64_MAX && WithinValidFor(time, logWindow))
  {
    if time > I64_MAX then Err(IntegratedTimeOutsideLogKeyValidity)
    else if !(logWindow.start <= time && (logWindow.end.None? || time < logWindow.end.value)) then
      Err(IntegratedTimeOutsideLogKeyValidity)
    else if !(notBefore <= time && time <= notAfter) then Err(IntegratedTimeOutsideCertificateValidity)
    else Pass
  }

  /** The leaf is decoded for its window only, before any chain is examined; its key must decode too. */
  function LeafWindow(f: Foreign, leafDer: Bytes, time: u64, log: TransparencyLog): Check {
    var leaf := f.decodeCertificate(leafDer);
    if leaf.None? then Err(InvalidDer)
    else if f.keyFromSpki(leaf.value.spki).None? then Err(UnsupportedKeyAlgorithm)
    else CheckTimeWindow(time, log.validFor, UnixSeconds(leaf.value.notBefore), UnixSeconds(leaf.value.notAfter))
  }

  // ---- verify_tlog_entry ----

  /** The entry's body, parsed and bound to the bundle. */
  function BoundBody(f: Foreign, entry: TlogEntry, bundle: Bundle): Result<TlogEntryBody, Error> {
    var body := ParseEntryBody(f, entry.canonicalizedBody);
    if body.Err? then body
    else
      var bound := EntryBinding(f, entry, body.value, bundle.envelope, bundle.certificateDer);
      if bound.Err? then Err(bound.error) else body
  }

  /** What the selected log key must have signed, and when it was valid. */
  function LogSteps(
    f: Foreign, entry: TlogEntry, leafDer: Bytes, log: TransparencyLog, key: Key, policy: seq<Binding>): Check
  {
    var promised := VerifySet(f, entry, f.sha256(log.publicKey), key);
    if promised.Err? then promised
    else
      var checkpoint := LogEvidence(f, entry, log, key, policy);
      if checkpoint.Err? then Err(checkpoint.error) else LeafWindow(f, leafDer, entry.integratedTime, log)
  }

  function OneEntry(f: Foreign, entry: TlogEntry, bundle: Bundle, tlogs: seq<TransparencyLog>, policy: seq<Binding>)
    : Result<VerifiedTimestamp, Error>
  {
    var body := BoundBody(f, entry, bundle);
    var selected := SelectLogKey(f, tlogs, entry.logId);
    if body.Err? then Err(body.error)
    else if selected.Err? then Err(selected.error)
    else
      var steps := LogSteps(f, entry, bundle.certificateDer, selected.value.0, selected.value.1, policy);
      if steps.Err? then Err(steps.error) else Ok(VerifiedTimestamp(entry.integratedTime, entry.logIndex))
  }

  function EntryResult(f: Foreign, bundle: Bundle, tlogs: seq<TransparencyLog>, policy: seq<Binding>)
    : Result<VerifiedTimestamp, Error>
  {
    if bundle.tlogEntries == [] then Err(NoTlogEntries)
    else if |bundle.tlogEntries| > 1 then Err(MultipleTlogEntries)
    else OneEntry(f, bundle.tlogEntries[0], bundle, tlogs, policy)
  }

  method VerifyTlogEntry(f: Foreign, bundle: Bundle, tlogs: seq<TransparencyLog>, policy: seq<Binding>)
    returns (r: Result<VerifiedTimestamp, Error>)
    ensures r == EntryResult(f, bundle, tlogs, policy)
    ensures |bundle.tlogEntries| == 0 ==> r == Err(NoTlogEntries)
    ensures |bundle.tlogEntries| > 1 ==> r == Err(MultipleTlogEntries)
  {
    if bundle.tlogEntries == [] { return Err(NoTlogEntries); }
    if |bundle.tlogEntries| > 1 { return Err(MultipleTlogEntries); }
    var entry := bundle.tlogEntries[0];
    var body := ParseEntryBody(f, entry.canonicalizedBody);
    if body.Err? { return Err(body.error); }
    var bound := CheckEntryBinding(f, entry, body.value, bundle.envelope, bundle.certificateDer);
    if bound.Err? { return Err(bound.error); }
    var selected := SelectLogKey(f, tlogs, entry.logId);
    if selected.Err? { return Err(selected.error); }
    var (log, key) := selected.value;
    var promised := VerifySet(f, entry, f.sha256(log.publicKey), key);
    if promised.Err? { return Err(promised.error); }
    var checkpoint := CheckLogEvidence(f, entry, log, key, policy);
    if checkpoint.Err? { return Err(checkpoint.error); }
    var window := LeafWindow(f, bundle.certificateDer, entry.integratedTime, log);
    if window.Err? { return Err(window.error); }
    return Ok(VerifiedTimestamp(entry.integratedTime, entry.logIndex));
  }

  // ---- what acceptance means ----

  /** Everything an accepted bundle's entry has been checked against. */
  datatype Evidence = Evidence(
    entry: TlogEntry, body: TlogEntryBody, log: TransparencyLog, key: Key, proof: InclusionProof,
    checkpoint: ParsedCheckpoint, leaf: Certificate)

  ghost predicate Bound(f: Foreign, bundle: Bundle, e: Evidence) {
    && f.entryBody(e.entry.canonicalizedBody).Some?
    && States(f, f.entryBody(e.entry.canonicalizedBody).value, e.body)
    && Records(f, e.body, e.entry, bundle.envelope, bundle.certificateDer)
  }

  ghost predicate TrustedKey(f: Foreign, tlogs: seq<TransparencyLog>, e: Evidence) {
    FirstLogOf(f.sha256, tlogs, e.entry.logId, e.log) && f.keyFromSpki(e.log.publicKey) == Some(e.key)
  }

  ghost predicate Logged(f: Foreign, policy: seq<Binding>, e: Evidence) {
    && e.entry.inclusionProof == Some(e.proof)
    && InclusionProofValid(f.sha256, e.entry.canonicalizedBody, e.proof)
    && Endorsed(f, e.proof.checkpointEnvelope, e.proof.treeSize, e.proof.rootHash, e.log, e.key, e.checkpoint)
    && Allows(policy, f.sha256(e.log.publicKey), e.checkpoint.fields.origin)
  }

  ghost predicate Timely(f: Foreign, leafDer: Bytes, e: Evidence) {
    f.decodeCertificate(leafDer) == Some(e.leaf) && f.keyFromSpki(e.leaf.spki).Some?
    && InBothWindows(e.entry.integratedTime, e.log.validFor, e.leaf)
  }

  ghost predicate Accepted(
    f: Foreign, bundle: Bundle, tlogs: seq<TransparencyLog>, policy: seq<Binding>, e: Evidence)
  {
    && bundle.tlogEntries == [e.entry] && Bound(f, bundle, e) && TrustedKey(f, tlogs, e)
    && Promised(f, e.entry, f.sha256(e.log.publicKey), e.key)
    && Logged(f, policy, e) && Timely(f, bundle.certificateDer, e)
  }

  lemma BoundExact(f: Foreign, bundle: Bundle, e: Evidence)
    ensures BoundBody(f, e.entry, bundle) == Ok(e.body) <==> Bound(f, bundle, e)
  {
    EntryBodyExact(f, e.entry.canonicalizedBody, e.body);
  }

  lemma LogEvidenceExact(f: Foreign, policy: seq<Binding>, e: Evidence)
    requires e.entry.inclusionProof == Some(e.proof)
    ensures LogEvidence(f, e.entry, e.log, e.key, policy) == Ok(e.checkpoint) <==> Logged(f, policy, e)
  {
    VerifiedExact(
      f, e.proof.checkpointEnvelope, e.proof.treeSize, e.proof.rootHash, e.log, e.key, e.checkpoint);
  }

  lemma LeafWindowExact(f: Foreign, leafDer: Bytes, e: Evidence)
    requires f.decodeCertificate(leafDer) == Some(e.leaf)
    ensures LeafWindow(f, leafDer, e.entry.integratedTime, e.log).Ok? <==> Timely(f, leafDer, e)
  {
  }

  lemma EvidencePasses(
    f: Foreign, bundle: Bundle, tlogs: seq<TransparencyLog>, policy: seq<Binding>, e: Evidence)
    requires Accepted(f, bundle, tlogs, policy, e)
    ensures EntryResult(f, bundle, tlogs, policy) == Ok(VerifiedTimestamp(e.entry.integratedTime, e.entry.logIndex))
  {
    FindLogExact(f.sha256, tlogs, e.entry.logId, e.log);
    BoundExact(f, bundle, e);
    LogEvidenceExact(f, policy, e);
    LeafWindowExact(f, bundle.certificateDer, e);
  }

  lemma LogStepsEvidence(
    f: Foreign, leafDer: Bytes, policy: seq<Binding>, entry: TlogEntry, log: TransparencyLog, key: Key)
    requires LogSteps(f, entry, leafDer, log, key, policy).Ok?
    ensures Promised(f, entry, f.sha256(log.publicKey), key)
    ensures entry.inclusionProof.Some? && LogEvidence(f, entry, log, key, policy).Ok?
    ensures f.decodeCertificate(leafDer).Some? && LeafWindow(f, leafDer, entry.integratedTime, log).Ok?
  {
  }

  lemma OneEntrySteps(
    f: Foreign, entry: TlogEntry, bundle: Bundle, tlogs: seq<TransparencyLog>, policy: seq<Binding>)
    returns (body: TlogEntryBody, log: TransparencyLog, key: Key)
    requires OneEntry(f, entry, bundle, tlogs, policy).Ok?
    ensures BoundBody(f, entry, bundle) == Ok(body)
    ensures FirstLogOf(f.sha256, tlogs, entry.logId, log) && f.keyFromSpki(log.publicKey) == Some(key)
    ensures LogSteps(f, entry, bundle.certificateDer, log, key, policy).Ok?
  {
    body := BoundBody(f, entry, bundle).value;
    var selected := SelectLogKey(f, tlogs, entry.logId).value;
    log, key := selected.0, selected.1;
    FindLogExact(f.sha256, tlogs, entry.logId, log);
  }

  lemma EvidenceOf(
    f: Foreign, bundle: Bundle, entry: TlogEntry, policy: seq<Binding>, body: TlogEntryBody, log: TransparencyLog,
    key: Key)
    returns (e: Evidence)
    requires BoundBody(f, entry, bundle) == Ok(body)
    requires LogSteps(f, entry, bundle.certificateDer, log, key, policy).Ok?
    ensures e.entry == entry && e.body == body && e.log == log && e.key == key
    ensures Bound(f, bundle, e) && Promised(f, entry, f.sha256(log.publicKey), key)
    ensures Logged(f, policy, e) && Timely(f, bundle.certificateDer, e)
  {
    LogStepsEvidence(f, bundle.certificateDer, policy, entry, log, key);
    e := Evidence(entry, body, log, key, entry.inclusionProof.value,
                  LogEvidence(f, entry, log, key, policy).value, f.decodeCertificate(bundle.certificateDer).value);
    BoundExact(f, bundle, e);
    LogEvidenceExact(f, policy, e);
    LeafWindowExact(f, bundle.certificateDer, e);
  }

  lemma Singleton<T>(s: seq<T>)
    requires |s| == 1
    ensures s == [s[0]]
  {
  }

  /** Every step of an accepted entry held. */
  lemma AcceptedHasEvidence(f: Foreign, bundle: Bundle, tlogs: seq<TransparencyLog>, policy: seq<Binding>)
    returns (e: Evidence)
    requires EntryResult(f, bundle, tlogs, policy).Ok?
    ensures Accepted(f, bundle, tlogs, policy, e)
  {
    var entry := bundle.tlogEntries[0];
    Singleton(bundle.tlogEntries);
    var body, log, key := OneEntrySteps(f, entry, bundle, tlogs, policy);
    e := EvidenceOf(f, bundle, entry, policy, body, log, key);
  }

  /** The entry is accepted exactly when such evidence exists, and the reported time and index are its. */
  lemma EntryExact(f: Foreign, bundle: Bundle, tlogs: seq<TransparencyLog>, policy: seq<Binding>)
    ensures EntryResult(f, bundle, tlogs, policy).Ok? <==> exists e :: Accepted(f, bundle, tlogs, policy, e)
    ensures forall e :: Accepted(f, bundle, tlogs, policy, e) ==>
              EntryResult(f, bundle, tlogs, policy) == Ok(VerifiedTimestamp(e.entry.integratedTime, e.entry.logIndex))
  {
    if EntryResult(f, bundle, tlogs, policy).Ok? {
      var e := AcceptedHasEvidence(f, bundle, tlogs, policy);
    }
    forall e | Accepted(f, bundle, tlogs, policy, e)
      ensures EntryResult(f, bundle, tlogs, policy) == Ok(VerifiedTimestamp(e.entry.integratedTime, e.entry.logIndex))
    {
      EvidencePasses(f, bundle, tlogs, policy, e);
    }
  }

  predicate IsTimeError(e: Error) {
    e == IntegratedTimeOutsideLogKeyValidity || e == IntegratedTimeOutsideCertificateValidity
  }

  lemma LogEvidenceErrors(
    f: Foreign, entry: TlogEntry, log: TransparencyLog, key: Key, policy: seq<Binding>, e: Error)
    requires LogEvidence(f, entry, log, key, policy) == Err(e)
    ensures e == InclusionProofMissing || e == InclusionProofInvalid || e == CheckpointOriginMismatch
            || IsCheckpointError(e)
  {
    if entry.inclusionProof.Some? {
      var proof := entry.inclusionProof.value;
      VerifiedErrors(f, proof.checkpointEnvelope, proof.treeSize, proof.rootHash, log, key);
    }
  }

  lemma LogEvidenceNoTimeError(f: Foreign, entry: TlogEntry, log: TransparencyLog, key: Key, policy: seq<Binding>)
    ensures var r := LogEvidence(f, entry, log, key, policy); r.Err? ==> !IsTimeError(r.error)
  {
    var r := LogEvidence(f, entry, log, key, policy);
    if r.Err? {
      LogEvidenceErrors(f, entry, log, key, policy, r.error);
    }
  }

  lemma LogStepsTimeError(
    f: Foreign, entry: TlogEntry, leafDer: Bytes, log: TransparencyLog, key: Key, policy: seq<Binding>)
    requires LogSteps(f, entry, leafDer, log, key, policy).Err?
    requires IsTimeError(LogSteps(f, entry, leafDer, log, key, policy).error)
    ensures Promised(f, entry, f.sha256(log.publicKey), key) && LogEvidence(f, entry, log, key, policy).Ok?
  {
    LogEvidenceNoTimeError(f, entry, log, key, policy);
  }

  lemma BoundBodyNoTimeError(f: Foreign, entry: TlogEntry, bundle: Bundle)
    ensures var r := BoundBody(f, entry, bundle); r.Err? ==> !IsTimeError(r.error)
  {
  }

  lemma TimeErrorComesLast(
    f: Foreign, entry: TlogEntry, bundle: Bundle, tlogs: seq<TransparencyLog>, policy: seq<Binding>, e: Error)
    returns (log: TransparencyLog, key: Key)
    requires OneEntry(f, entry, bundle, tlogs, policy) == Err(e) && IsTimeError(e)
    ensures BoundBody(f, entry, bundle).Ok?
    ensures FirstLogOf(f.sha256, tlogs, entry.logId, log) && f.keyFromSpki(log.publicKey) == Some(key)
    ensures LogSteps(f, entry, bundle.certificateDer, log, key, policy) == Err(e)
  {
    BoundBodyNoTimeError(f, entry, bundle);
    var selected := SelectLogKey(f, tlogs, entry.logId).value;
    log, key := selected.0, selected.1;
    FindLogExact(f.sha256, tlogs, entry.logId, log);
  }

  /** The time windows are consulted only for an integrated time that the log has promised for a body
      recorded in its tree. */
  lemma TimeErrorIsAuthenticated(
    f: Foreign, bundle: Bundle, tlogs: seq<TransparencyLog>, policy: seq<Binding>, e: Error)
    returns (entry: TlogEntry, log: TransparencyLog, key: Key)
    requires EntryResult(f, bundle, tlogs, policy) == Err(e) && IsTimeError(e)
    ensures bundle.tlogEntries == [entry] && BoundBody(f, entry, bundle).Ok?
    ensures FirstLogOf(f.sha256, tlogs, entry.logId, log) && f.keyFromSpki(log.publicKey) == Some(key)
    ensures Promised(f, entry, f.sha256(log.publicKey), key) && LogEvidence(f, entry, log, key, policy).Ok?
  {
    entry := bundle.tlogEntries[0];
    Singleton(bundle.tlogEntries);
    log, key := TimeErrorComesLast(f, entry, bundle, tlogs, policy, e);
    LogStepsTimeError(f, entry, bundle.certificateDer, log, key, policy);
  }

  // ---- the log position binds the content ----

  /** The path of a proof whose hashes have the right length. */
  function PathOf(proof: InclusionProof): seq<Digest>
    requires forall h :: h in proof.hashes ==> |h| == 32
  {
    AsDigests(proof.hashes).value
  }

  lemma ValidProofWalks(hash: HashFn, body: Bytes, proof: InclusionProof)
    requires InclusionProofValid(hash, body, proof)
    ensures forall h :: h in proof.hashes ==> |h| == 32
    ensures RootFromPath(hash, LeafHash(hash, body), proof.logIndex, proof.treeSize, PathOf(proof))
         == Some(proof.rootHash)
  {
  }

  /** Two proofs for the same position of the same tree. */
  predicate SamePosition(p: InclusionProof, q: InclusionProof) {
    p.rootHash == q.rootHash && p.treeSize == q.treeSize && p.logIndex == q.logIndex
  }

  /** The pair that breaks the hash when two bodies are proved at one position. */
  ghost predicate PositionBroken(hash: HashFn, x: Bytes, y: Bytes, p: InclusionProof, q: InclusionProof) {
    && (forall h :: h in p.hashes ==> |h| == 32) && (forall h :: h in q.hashes ==> |h| == 32)
    && p.logIndex < p.treeSize
    && |PathOf(p)| == |PathOf(q)| == PathLength(p.logIndex, p.treeSize - 1)
    && PositionCollision(hash, x, y, p.logIndex, p.treeSize, PathOf(p), PathOf(q)).Breaks(hash)
  }

  lemma SamePositionSameBody(hash: HashFn, x: Bytes, y: Bytes, p: InclusionProof, q: InclusionProof)
    requires InclusionProofValid(hash, x, p) && InclusionProofValid(hash, y, q) && SamePosition(p, q)
    ensures x == y || PositionBroken(hash, x, y, p, q)
  {
    ValidProofWalks(hash, x, p);
    ValidProofWalks(hash, y, q);
    PositionBindsBody(hash, x, y, p.logIndex, p.treeSize, PathOf(p), PathOf(q));
  }

  /** Two bundles with the same signature, certificate, payload and envelope, where an absent key id
      counts as an empty one. */
  predicate SameContent(a: Bundle, b: Bundle) {
    && a.certificateDer == b.certificateDer && a.envelope.sig == b.envelope.sig
    && a.envelope.payload == b.envelope.payload && a.envelope.payloadType == b.envelope.payloadType
    && KeyIdText(a.envelope) == KeyIdText(b.envelope)
  }

  function PayloadPair(a: Bundle, b: Bundle): Collision {
    Collision(a.envelope.payload, b.envelope.payload)
  }

  function EnvelopePair(a: Bundle, b: Bundle): Collision {
    Collision(EnvelopeJson(a.envelope), EnvelopeJson(b.envelope))
  }

  /** One entry body records the content of one bundle, unless two payloads or two envelopes collide. */
  lemma BodyRecordsOneContent(f: Foreign, a: Bundle, b: Bundle, d: Evidence, e: Evidence)
    requires Bound(f, a, d) && Bound(f, b, e) && d.entry.canonicalizedBody == e.entry.canonicalizedBody
    ensures a.certificateDer == b.certificateDer && a.envelope.sig == b.envelope.sig
    ensures a.envelope.payload == b.envelope.payload || PayloadPair(a, b).Breaks(f.sha256)
    ensures SameContent(a, b) || EnvelopePair(a, b).Breaks(f.sha256)
  {
    assert d.body == e.body;
    if EnvelopeJson(a.envelope) == EnvelopeJson(b.envelope) {
      EnvelopeJsonInjective(a.envelope, b.envelope);
    }
  }

  /** Any two accepted bundles whose proofs share root, size and index, under whatever trust stores and
      policies, carry the same entry body and content, or an explicit pair breaks the hash. */
  lemma LogPositionBindsContent(
    f: Foreign, a: Bundle, aLogs: seq<TransparencyLog>, aPolicy: seq<Binding>, d: Evidence,
    b: Bundle, bLogs: seq<TransparencyLog>, bPolicy: seq<Binding>, e: Evidence)
    requires Accepted(f, a, aLogs, aPolicy, d) && Accepted(f, b, bLogs, bPolicy, e)
    requires SamePosition(d.proof, e.proof)
    ensures || (d.entry.canonicalizedBody == e.entry.canonicalizedBody
                && a.certificateDer == b.certificateDer && a.envelope.sig == b.envelope.sig
                && d.body.payloadHash == e.body.payloadHash && d.body.envelopeHash == e.body.envelopeHash
                && (SameContent(a, b) || EnvelopePair(a, b).Breaks(f.sha256)))
            || PositionBroken(f.sha256, d.entry.canonicalizedBody, e.entry.canonicalizedBody, d.proof, e.proof)
  {
    SamePositionSameBody(f.sha256, d.entry.canonicalizedBody, e.entry.canonicalizedBody, d.proof, e.proof);
    if d.entry.canonicalizedBody == e.entry.canonicalizedBody {
      BodyRecordsOneContent(f, a, b, d, e);
    }
  }

  // ---- acceptance against a log that signs only what it did ----

  datatype Promise = Promise(body: Bytes, time: nat, logIndex: nat)

  ghost predicate IsPromise(message: Bytes, keyId: Bytes, promises: iset<Promise>) {
    exists p :: p in promises && message == SetSignedBytes(p.body, p.time, keyId, p.logIndex)
  }

  ghost predicate StatesTree(f: Foreign, body: Bytes, leaves: seq<Bytes>, size: nat) {
    size <= |leaves| && exists origin ::
      ReadsBody(f.text, body, BodyFields(origin, size, TreeHash(f.sha256, leaves[..size])))
  }

  ghost predicate StatesSomeTree(f: Foreign, body: Bytes, leaves: seq<Bytes>) {
    exists size: nat :: StatesTree(f, body, leaves, size)
  }

  /** The message is a note body that states the Merkle tree hash of a prefix of the log. */
  ghost predicate IsTreeHead(f: Foreign, message: Bytes, leaves: seq<Bytes>) {
    EndsWith(message, LF) && StatesSomeTree(f, message[..|message| - 1], leaves)
  }

  /** A log whose key signs nothing but its promises and the tree heads of its one list of leaves. */
  ghost predicate HonestLog(f: Foreign, key: Key, keyId: Bytes, promises: iset<Promise>, leaves: seq<Bytes>) {
    forall message, sig :: f.verifyDer(key, message, sig) ==>
      IsPromise(message, keyId, promises) || IsTreeHead(f, message, leaves)
  }

  /** A signed entry timestamp is never also a checkpoint, although one key signs both kinds. */
  lemma PromiseIsNoTreeHead(f: Foreign, message: Bytes, keyId: Bytes, promises: iset<Promise>, leaves: seq<Bytes>)
    requires IsPromise(message, keyId, promises)
    ensures !IsTreeHead(f, message, leaves)
  {
  }

  /** Under an honest log a verified promise is one the log made. */
  lemma VerifiedPromiseWasMade(
    f: Foreign, key: Key, keyId: Digest, promises: iset<Promise>, leaves: seq<Bytes>, entry: TlogEntry)
    requires HonestLog(f, key, keyId, promises, leaves) && Promised(f, entry, keyId, key)
    ensures Promise(entry.canonicalizedBody, entry.integratedTime, entry.logIndex) in promises
  {
    var body, time, index := entry.canonicalizedBody, entry.integratedTime, entry.logIndex;
    var message := SetSignedBytes(body, time, keyId, index);
    SetEndsWithBrace(body, time, keyId, index);
    assert !IsTreeHead(f, message, leaves);
    var p :| p in promises && message == SetSignedBytes(p.body, p.time, keyId, p.logIndex);
    SetInjective(body, time, keyId, index, p.body, p.time, keyId, p.logIndex);
  }

  /** A body that states some tree states the one that is read from it. */
  lemma ReadTree(f: Foreign, body: Bytes, leaves: seq<Bytes>, fields: BodyFields)
    requires StatesSomeTree(f, body, leaves) && ReadsBody(f.text, body, fields)
    ensures fields.treeSize <= |leaves| && fields.rootHash == TreeHash(f.sha256, leaves[..fields.treeSize])
  {
    var size: nat :| StatesTree(f, body, leaves, size);
    var origin :| ReadsBody(f.text, body, BodyFields(origin, size, TreeHash(f.sha256, leaves[..size])));
    OneReading(f.text, body, fields, BodyFields(origin, size, TreeHash(f.sha256, leaves[..size])));
  }

  lemma NoteIsNoPromise(message: Bytes, keyId: Bytes, promises: iset<Promise>)
    requires EndsWith(message, LF)
    ensures !IsPromise(message, keyId, promises)
  {
    if IsPromise(message, keyId, promises) {
      var p :| p in promises && message == SetSignedBytes(p.body, p.time, keyId, p.logIndex);
      SetEndsWithBrace(p.body, p.time, keyId, p.logIndex);
    }
  }

  /** Under an honest log a verified checkpoint states the tree hash of a prefix of the log. */
  lemma VerifiedRootIsTreeHash(
    f: Foreign, key: Key, keyId: Digest, promises: iset<Promise>, leaves: seq<Bytes>, log: TransparencyLog,
    proof: InclusionProof)
    requires HonestLog(f, key, keyId, promises, leaves)
    requires Verified(f, proof.checkpointEnvelope, proof.treeSize, proof.rootHash, log, key).Ok?
    ensures proof.treeSize <= |leaves| && proof.rootHash == TreeHash(f.sha256, leaves[..proof.treeSize])
  {
    VerifiedMeans(f, proof.checkpointEnvelope, proof.treeSize, proof.rootHash, log, key);
    var c := Verified(f, proof.checkpointEnvelope, proof.treeSize, proof.rootHash, log, key).value;
    NoteIsNoPromise(c.noteBody, keyId, promises);
    ReadTree(f, c.noteBody[..|c.noteBody| - 1], leaves, BodyFields(c.fields.origin, proof.treeSize, proof.rootHash));
  }

  /** The pair that breaks the hash when a proof leads to the root of `tree` from a body not in it. */
  ghost predicate BrokenAgainst(hash: HashFn, body: Bytes, proof: InclusionProof, tree: seq<Bytes>) {
    && (forall h :: h in proof.hashes ==> |h| == 32) && proof.logIndex < |tree|
    && var path := AuditPath(hash, tree, proof.logIndex);
       |PathOf(proof)| == |path| == PathLength(proof.logIndex, |tree| - 1)
       && PositionCollision(hash, body, tree[proof.logIndex], proof.logIndex, |tree|, PathOf(proof), path).Breaks(hash)
  }

  /** A proof against the tree of a prefix of the log proves the leaf at its position, or breaks the hash. */
  lemma ProvedLeafIsInLog(hash: HashFn, body: Bytes, proof: InclusionProof, leaves: seq<Bytes>)
    requires InclusionProofValid(hash, body, proof)
    requires proof.treeSize <= |leaves| && proof.rootHash == TreeHash(hash, leaves[..proof.treeSize])
    ensures proof.logIndex < proof.treeSize
    ensures body == leaves[proof.logIndex] || BrokenAgainst(hash, body, proof, leaves[..proof.treeSize])
  {
    ValidProofWalks(hash, body, proof);
    InclusionSound(hash, leaves[..proof.treeSize], proof.logIndex, body, PathOf(proof));
  }

  /** An accepted bundle's entry really is in the log, at the proof's index and below the proof's size, and
      the log promised it at the reported time and index; the only way out is an explicit hash collision. */
  lemma AcceptedIsLogged(
    f: Foreign, bundle: Bundle, tlogs: seq<TransparencyLog>, policy: seq<Binding>, e: Evidence,
    promises: iset<Promise>, leaves: seq<Bytes>)
    requires Accepted(f, bundle, tlogs, policy, e)
    requires HonestLog(f, e.key, f.sha256(e.log.publicKey), promises, leaves)
    ensures Promise(e.entry.canonicalizedBody, e.entry.integratedTime, e.entry.logIndex) in promises
    ensures e.proof.logIndex < e.proof.treeSize <= |leaves|
    ensures e.entry.canonicalizedBody == leaves[e.proof.logIndex]
         || BrokenAgainst(f.sha256, e.entry.canonicalizedBody, e.proof, leaves[..e.proof.treeSize])
  {
    var keyId := f.sha256(e.log.publicKey);
    VerifiedPromiseWasMade(f, e.key, keyId, promises, leaves, e.entry);
    VerifiedExact(f, e.proof.checkpointEnvelope, e.proof.treeSize, e.proof.rootHash, e.log, e.key, e.checkpoint);
    VerifiedRootIsTreeHash(f, e.key, keyId, promises, leaves, e.log, e.proof);
    ProvedLeafIsInLog(f.sha256, e.entry.canonicalizedBody, e.proof, leaves);
  }

  // ---- what an honest log hands out is accepted ----

  /** The proof a log hands out for leaf `i` of its tree: the audit path and the printed checkpoint. */
  ghost function ProofFor(hash: HashFn, leaves: seq<Bytes>, i: nat, note: Note): InclusionProof
    requires i < |leaves| < U64_LIMIT
  {
    InclusionProof(i, TreeHash(hash, leaves), |leaves|, AuditPath(hash, leaves, i), Print(note))
  }

  /** A checkpoint of the whole list of leaves that the key has signed. */
  ghost predicate SignedTreeHead(f: Foreign, log: TransparencyLog, key: Key, leaves: seq<Bytes>, note: Note) {
    && WellFormed(note) && note.fields.treeSize == |leaves| && note.fields.rootHash == TreeHash(f.sha256, leaves)
    && exists s :: s in note.signatures && Some(s.keyHint) == KeyHint(f.sha256, log)
                   && f.verifyDer(key, JoinLines(BodyLines(note)), s.signature)
  }

  lemma HandedOutProofIsValid(hash: HashFn, leaves: seq<Bytes>, i: nat, note: Note)
    requires i < |leaves| < U64_LIMIT
    ensures InclusionProofValid(hash, leaves[i], ProofFor(hash, leaves, i, note))
  {
    AuditPathVerifies(hash, leaves, i);
  }

  lemma SignedTreeHeadVerifies(f: Foreign, log: TransparencyLog, key: Key, leaves: seq<Bytes>, note: Note)
    requires ReadsBack(f.text) && SignedTreeHead(f, log, key, leaves, note)
    ensures Verified(f, Print(note), |leaves|, TreeHash(f.sha256, leaves), log, key)
         == Ok(ParsedCheckpoint(note.fields, JoinLines(BodyLines(note)), note.signatures))
  {
    ParseOfPrint(f.text, note);
    var q := Query(f, key, JoinLines(BodyLines(note)), log, KeyHint(f.sha256, log).value);
    var s :| s in note.signatures && Some(s.keyHint) == KeyHint(f.sha256, log)
             && f.verifyDer(key, q.noteBody, s.signature);
    assert Hinted(q, s) && Verifies(q, s);
    TwoPassIsSimple(q, note.signatures);
  }

  /** Completeness: for every log and every leaf of it, an entry that carries the leaf, the log's promise, the
      leaf's audit path and a signed tree head is accepted, when it records the bundle, its key is trusted,
      the origin is allowed and the time is in both windows. */
  lemma HonestlyLoggedIsAccepted(
    f: Foreign, bundle: Bundle, tlogs: seq<TransparencyLog>, policy: seq<Binding>, e: Evidence,
    leaves: seq<Bytes>, i: nat, note: Note)
    requires ReadsBack(f.text) && i < |leaves| < U64_LIMIT && e.entry.canonicalizedBody == leaves[i]
    requires SignedTreeHead(f, e.log, e.key, leaves, note)
    requires e.proof == ProofFor(f.sha256, leaves, i, note) && e.entry.inclusionProof == Some(e.proof)
    requires e.checkpoint == ParsedCheckpoint(note.fields, JoinLines(BodyLines(note)), note.signatures)
    requires bundle.tlogEntries == [e.entry] && Bound(f, bundle, e) && TrustedKey(f, tlogs, e)
    requires Promised(f, e.entry, f.sha256(e.log.publicKey), e.key)
    requires Allows(policy, f.sha256(e.log.publicKey), note.fields.origin)
    requires Timely(f, bundle.certificateDer, e)
    ensures Accepted(f, bundle, tlogs, policy, e)
    ensures EntryResult(f, bundle, tlogs, policy) == Ok(VerifiedTimestamp(e.entry.integratedTime, e.entry.logIndex))
  {
    HandedOutProofIsValid(f.sha256, leaves, i, note);
    SignedTreeHeadVerifies(f, e.log, e.key, leaves, note);
    VerifiedExact(f, e.proof.checkpointEnvelope, |leaves|, e.proof.rootHash, e.log, e.key, e.checkpoint);
    EvidencePasses(f, bundle, tlogs, policy, e);
  }

  // ---- which error a rejection names ----

  /** A body that does not record the bundle is rejected for kind and version, signature, certificate, payload or
      envelope, in this order. */
  lemma BindingFault(f: Foreign, entry: TlogEntry, body: TlogEntryBody, envelope: DsseEnvelope, leafDer: Bytes)
    ensures ErrorOf(EntryBinding(f, entry, body, envelope, leafDer))
         == if entry.kind != body.kind || entry.version != body.apiVersion then Some(TlogEntryKindVersionMismatch)
            else if body.signature != envelope.sig then Some(TlogEntrySignatureMismatch)
            else if body.certificateDer != leafDer then Some(TlogEntryCertificateMismatch)
            else if body.payloadHash != f.sha256(envelope.payload) then Some(TlogEntryPayloadHashMismatch)
            else if body.envelopeHash != f.sha256(Compact(EnvelopeDocument(envelope))) then
              Some(TlogEntryEnvelopeHashMismatch)
            else None
  {
    EnvelopeIsCompactJson(envelope);
  }

  /** The first fault of an entry's times, or none. */
  ghost function TimeFault(f: Foreign, time: u64, leafDer: Bytes, log: TransparencyLog): Option<Error> {
    var leaf := f.decodeCertificate(leafDer);
    if leaf.None? then Some(InvalidDer)
    else if f.keyFromSpki(leaf.value.spki).None? then Some(UnsupportedKeyAlgorithm)
    else if time > I64_MAX || !WithinValidFor(time, log.validFor) then Some(IntegratedTimeOutsideLogKeyValidity)
    else if !InValidity(leaf.value, time) then Some(IntegratedTimeOutsideCertificateValidity)
    else None
  }

  /** The first fault of the checkpoint and of its origin, or none. */
  ghost function CheckpointFault(
    f: Foreign, proof: InclusionProof, log: TransparencyLog, key: Key, policy: seq<Binding>): Option<Error>
  {
    if forall c :: !Endorsed(f, proof.checkpointEnvelope, proof.treeSize, proof.rootHash, log, key, c) then
      ErrorOf(Verified(f, proof.checkpointEnvelope, proof.treeSize, proof.rootHash, log, key))
    else if forall c :: Endorsed(f, proof.checkpointEnvelope, proof.treeSize, proof.rootHash, log, key, c) ==>
      !Allows(policy, f.sha256(log.publicKey), c.fields.origin) then Some(CheckpointOriginMismatch)
    else None
  }

  /** The first fault of inclusion, checkpoint and origin, or none. */
  ghost function TreeFault(f: Foreign, entry: TlogEntry, log: TransparencyLog, key: Key, policy: seq<Binding>)
    : Option<Error>
  {
    if entry.inclusionProof.None? then Some(InclusionProofMissing)
    else
      var proof := entry.inclusionProof.value;
      if !InclusionProofValid(f.sha256, entry.canonicalizedBody, proof) then Some(InclusionProofInvalid)
      else CheckpointFault(f, proof, log, key, policy)
  }

  /** The first fault of what the log must have signed, or none: its promise, then its tree. */
  ghost function SignedFault(f: Foreign, entry: TlogEntry, log: TransparencyLog, key: Key, policy: seq<Binding>)
    : Option<Error>
  {
    if entry.inclusionPromise.None? then Some(SetMissing)
    else if !Promised(f, entry, f.sha256(log.publicKey), key) then Some(SetInvalid)
    else TreeFault(f, entry, log, key, policy)
  }

  lemma SomeEndorsed(f: Foreign, proof: InclusionProof, log: TransparencyLog, key: Key)
    ensures var r := Verified(f, proof.checkpointEnvelope, proof.treeSize, proof.rootHash, log, key);
            forall c ::
              Endorsed(f, proof.checkpointEnvelope, proof.treeSize, proof.rootHash, log, key, c) <==> r == Ok(c)
  {
    forall c
      ensures Endorsed(f, proof.checkpointEnvelope, proof.treeSize, proof.rootHash, log, key, c)
          <==> Verified(f, proof.checkpointEnvelope, proof.treeSize, proof.rootHash, log, key) == Ok(c)
    {
      VerifiedExact(f, proof.checkpointEnvelope, proof.treeSize, proof.rootHash, log, key, c);
    }
  }

  lemma CheckpointFaultExact(
    f: Foreign, proof: InclusionProof, log: TransparencyLog, key: Key, policy: seq<Binding>)
    ensures var r := Verified(f, proof.checkpointEnvelope, proof.treeSize, proof.rootHash, log, key);
            CheckpointFault(f, proof, log, key, policy)
              == if r.Err? then Some(r.error)
                 else if Allows(policy, f.sha256(log.publicKey), r.value.fields.origin) then None
                 else Some(CheckpointOriginMismatch)
  {
    SomeEndorsed(f, proof, log, key);
    var r := Verified(f, proof.checkpointEnvelope, proof.treeSize, proof.rootHash, log, key);
    if r.Ok? {
      assert Endorsed(f, proof.checkpointEnvelope, proof.treeSize, proof.rootHash, log, key, r.value);
    }
  }

  lemma LogEvidenceFault(f: Foreign, entry: TlogEntry, log: TransparencyLog, key: Key, policy: seq<Binding>)
    ensures ErrorOf(LogEvidence(f, entry, log, key, policy)) == TreeFault(f, entry, log, key, policy)
  {
    if entry.inclusionProof.Some? {
      CheckpointFaultExact(f, entry.inclusionProof.value, log, key, policy);
    }
  }

  lemma LeafWindowFault(f: Foreign, time: u64, leafDer: Bytes, log: TransparencyLog)
    ensures ErrorOf(LeafWindow(f, leafDer, time, log)) == TimeFault(f, time, leafDer, log)
  {
  }

  /** The first fault of what the log signed, and else of the times. */
  ghost function StepsFault(
    f: Foreign, entry: TlogEntry, leafDer: Bytes, log: TransparencyLog, key: Key, policy: seq<Binding>): Option<Error>
  {
    if SignedFault(f, entry, log, key, policy).Some? then SignedFault(f, entry, log, key, policy)
    else TimeFault(f, entry.integratedTime, leafDer, log)
  }

  lemma LogStepsFault(
    f: Foreign, entry: TlogEntry, leafDer: Bytes, log: TransparencyLog, key: Key, policy: seq<Binding>)
    ensures ErrorOf(LogSteps(f, entry, leafDer, log, key, policy)) == StepsFault(f, entry, leafDer, log, key, policy)
  {
    LogEvidenceFault(f, entry, log, key, policy);
    LeafWindowFault(f, entry.integratedTime, leafDer, log);
  }

  lemma SomeLog(hash: HashFn, logs: seq<TransparencyLog>, id: Bytes)
    ensures (forall log :: log in logs ==> hash(log.publicKey) != id) <==> FindLog(hash, logs, id).None?
    ensures forall log :: FirstLogOf(hash, logs, id, log) <==> FindLog(hash, logs, id) == Some(log)
  {
    var k := FirstByKey(hash, logs, (l: TransparencyLog) => l.publicKey, id);
    if k < |logs| {
      assert logs[k] in logs;
    }
    forall log
      ensures FirstLogOf(hash, logs, id, log) <==> FindLog(hash, logs, id) == Some(log)
    {
      FindLogExact(hash, logs, id, log);
    }
  }

  ghost function OneEntryFault(
    f: Foreign, entry: TlogEntry, bundle: Bundle, tlogs: seq<TransparencyLog>, policy: seq<Binding>): Option<Error>
  {
    if BoundBody(f, entry, bundle).Err? then ErrorOf(BoundBody(f, entry, bundle))
    else if forall log :: log in tlogs ==> f.sha256(log.publicKey) != entry.logId then Some(UnknownLogKey)
    else
      SomeLog(f.sha256, tlogs, entry.logId);
      var log :| FirstLogOf(f.sha256, tlogs, entry.logId, log);
      var key := f.keyFromSpki(log.publicKey);
      if key.None? then Some(UnsupportedKeyAlgorithm)
      else StepsFault(f, entry, bundle.certificateDer, log, key.value, policy)
  }

  lemma SelectedEntryFault(
    f: Foreign, entry: TlogEntry, bundle: Bundle, tlogs: seq<TransparencyLog>, policy: seq<Binding>,
    log: TransparencyLog)
    requires BoundBody(f, entry, bundle).Ok? && FindLog(f.sha256, tlogs, entry.logId) == Some(log)
    ensures var key := f.keyFromSpki(log.publicKey);
            ErrorOf(OneEntry(f, entry, bundle, tlogs, policy))
              == if key.None? then Some(UnsupportedKeyAlgorithm)
                 else ErrorOf(LogSteps(f, entry, bundle.certificateDer, log, key.value, policy))
  {
  }

  lemma UnselectedEntryFault(
    f: Foreign, entry: TlogEntry, bundle: Bundle, tlogs: seq<TransparencyLog>, policy: seq<Binding>)
    requires BoundBody(f, entry, bundle).Ok? ==> FindLog(f.sha256, tlogs, entry.logId).None?
    ensures ErrorOf(OneEntry(f, entry, bundle, tlogs, policy))
         == if BoundBody(f, entry, bundle).Err? then ErrorOf(BoundBody(f, entry, bundle)) else Some(UnknownLogKey)
  {
  }

  lemma OneEntryFaultExact(
    f: Foreign, entry: TlogEntry, bundle: Bundle, tlogs: seq<TransparencyLog>, policy: seq<Binding>)
    ensures ErrorOf(OneEntry(f, entry, bundle, tlogs, policy)) == OneEntryFault(f, entry, bundle, tlogs, policy)
  {
    SomeLog(f.sha256, tlogs, entry.logId);
    if BoundBody(f, entry, bundle).Ok? && FindLog(f.sha256, tlogs, entry.logId).Some? {
      var log := FindLog(f.sha256, tlogs, entry.logId).value;
      SelectedEntryFault(f, entry, bundle, tlogs, policy, log);
      if f.keyFromSpki(log.publicKey).Some? {
        LogStepsFault(f, entry, bundle.certificateDer, log, f.keyFromSpki(log.publicKey).value, policy);
      }
    } else {
      UnselectedEntryFault(f, entry, bundle, tlogs, policy);
    }
  }

  /** A bundle's entry fails for the number of entries, its body, the log's identity and key, and then with the
      fault of that log's steps, in this order. */
  lemma EntryFault(f: Foreign, bundle: Bundle, tlogs: seq<TransparencyLog>, policy: seq<Binding>)
    ensures ErrorOf(EntryResult(f, bundle, tlogs, policy))
         == if bundle.tlogEntries == [] then Some(NoTlogEntries)
            else if |bundle.tlogEntries| > 1 then Some(MultipleTlogEntries)
            else OneEntryFault(f, bundle.tlogEntries[0], bundle, tlogs, policy)
  {
    if |bundle.tlogEntries| == 1 {
      OneEntryFaultExact(f, bundle.tlogEntries[0], bundle, tlogs, policy);
    }
  }

  // ---- errors of the log step ----

  lemma BoundBodyErrors(f: Foreign, entry: TlogEntry, bundle: Bundle)
    ensures var r := BoundBody(f, entry, bundle); r.Err? ==> !IsSignerError(r.error)
  {
  }

  lemma EvidenceErrorsSpareSigner(e: Error)
    requires e == InclusionProofMissing || e == InclusionProofInvalid || e == CheckpointOriginMismatch
             || IsCheckpointError(e)
    ensures !IsSignerError(e)
  {
  }

  lemma LogEvidenceNoSignerError(f: Foreign, entry: TlogEntry, log: TransparencyLog, key: Key, policy: seq<Binding>)
    ensures var r := LogEvidence(f, entry, log, key, policy); r.Err? ==> !IsSignerError(r.error)
  {
    var r := LogEvidence(f, entry, log, key, policy);
    if r.Err? {
      LogEvidenceErrors(f, entry, log, key, policy, r.error);
      EvidenceErrorsSpareSigner(r.error);
    }
  }

  lemma LeafWindowErrors(f: Foreign, leafDer: Bytes, time: u64, log: TransparencyLog)
    ensures var r := LeafWindow(f, leafDer, time, log); r.Err? ==> !IsSignerError(r.error)
  {
  }

  lemma LogStepsErrors(
    f: Foreign, entry: TlogEntry, leafDer: Bytes, log: TransparencyLog, key: Key, policy: seq<Binding>)
    ensures var r := LogSteps(f, entry, leafDer, log, key, policy); r.Err? ==> !IsSignerError(r.error)
  {
    LogEvidenceNoSignerError(f, entry, log, key, policy);
    LeafWindowErrors(f, leafDer, entry.integratedTime, log);
  }

  lemma OneEntryErrors(
    f: Foreign, entry: TlogEntry, bundle: Bundle, tlogs: seq<TransparencyLog>, policy: seq<Binding>)
    ensures var r := OneEntry(f, entry, bundle, tlogs, policy); r.Err? ==> !IsSignerError(r.error)
  {
    BoundBodyErrors(f, entry, bundle);
    var selected := SelectLogKey(f, tlogs, entry.logId);
    if selected.Ok? {
      LogStepsErrors(f, entry, bundle.certificateDer, selected.value.0, selected.value.1, policy);
    }
  }

  /** A failed log step never blames the signer's signature or identity. */
  lemma EntryErrors(f: Foreign, bundle: Bundle, tlogs: seq<TransparencyLog>, policy: seq<Binding>)
    ensures var r := EntryResult(f, bundle, tlogs, policy); r.Err? ==> !IsSignerError(r.error)
  {
    if |bundle.tlogEntries| == 1 {
      OneEntryErrors(f, bundle.tlogEntries[0], bundle, tlogs, policy);
    }
  }
}
