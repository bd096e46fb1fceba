/** The whole chain of src/verifier.rs: one digest, one bundle, eleven steps in a fixed order, and the
    builder that fixes trust store and policies. */
module Verifier {
  import opened Basics
  import opened Identity
  import opened OriginPolicy
  import opened Primitives
  import opened Rekor
  import opened Sct
  import opened SignedMessages
  import opened Windows
  import opened X509

  const SUPPORTED_PREDICATE_TYPE := Ascii("https://slsa.dev/provenance/v1")
  const SUPPORTED_DSSE_PAYLOAD_TYPE := Ascii("application/vnd.in-toto+json")

  datatype StatementSubject = StatementSubject(name: Option<Bytes>, sha256: Option<Digest>)

  datatype Statement = Statement(subjects: seq<StatementSubject>, predicateType: Bytes, predicateBody: Bytes)

  /** The decoders of signed statements and of certificate identity extensions. */
  datatype Decoders = Decoders(
    statement: Bytes -> Result<Statement, Error>, claims: Certificate -> Result<Claims, Error>)

  datatype VerifierConfig = VerifierConfig(
    trustStore: TrustStore, githubPolicy: GithubPolicy, originPolicy: seq<Binding>)

  datatype Report = Report(
    subject: Digest, subjectName: Option<Bytes>, signer: MatchedIdentity, transparency: VerifiedTimestamp,
    predicateType: Bytes, predicateBody: Bytes)

  // ---- content ----

  /** `find_subject`: the first subject with this digest, or the number of subjects. */
  function FindSubject(subjects: seq<StatementSubject>, digest: Digest): (k: nat)
    ensures k <= |subjects|
    ensures k < |subjects| ==> subjects[k].sha256 == Some(digest)
    ensures forall j :: 0 <= j < k ==> subjects[j].sha256 != Some(digest)
  {
    if subjects == [] || subjects[0].sha256 == Some(digest) then 0
    else
      var k := FindSubject(subjects[1..], digest);
      assert forall j :: 1 <= j < |subjects| ==> subjects[j] == subjects[1..][j - 1];
      k + 1
  }

  datatype Content = Content(statement: Statement, subjectName: Option<Bytes>)

  /** Steps 1 to 4: what the envelope claims. */
  function ContentResult(d: Decoders, envelope: DsseEnvelope, subject: Digest): Result<Content, Error> {
    if envelope.payloadType != SUPPORTED_DSSE_PAYLOAD_TYPE then Err(DssePayloadType)
    else
      var statement := d.statement(envelope.payload);
      if statement.Err? then Err(statement.error)
      else if statement.value.predicateType != SUPPORTED_PREDICATE_TYPE then Err(PredicateType)
      else
        var k := FindSubject(statement.value.subjects, subject);
        if k == |statement.value.subjects| then Err(SubjectNotFound)
        else Ok(Content(statement.value, statement.value.subjects[k].name))
  }

  ghost predicate NamedFirst(subjects: seq<StatementSubject>, k: int, subject: Digest) {
    0 <= k < |subjects| && subjects[k].sha256 == Some(subject)
    && forall j :: 0 <= j < k ==> subjects[j].sha256 != Some(subject)
  }

  /** The envelope is typed as an in-toto statement, and its payload is one of the supported predicate type
      that names the subject; the reported name is that of the first such subject. */
  ghost predicate Claimed(d: Decoders, envelope: DsseEnvelope, subject: Digest, c: Content) {
    && envelope.payloadType == SUPPORTED_DSSE_PAYLOAD_TYPE
    && d.statement(envelope.payload) == Ok(c.statement)
    && c.statement.predicateType == SUPPORTED_PREDICATE_TYPE
    && exists k :: NamedFirst(c.statement.subjects, k, subject) && c.statement.subjects[k].name == c.subjectName
  }

  lemma ContentExact(d: Decoders, envelope: DsseEnvelope, subject: Digest, c: Content)
    ensures ContentResult(d, envelope, subject) == Ok(c) <==> Claimed(d, envelope, subject, c)
  {
  }

  // ---- signature and identity ----

  /** The saturating conversion of the authenticated time. */
  function SaturatingSeconds(time: u64): int {
    if time <= I64_MAX then time else I64_MAX
  }

  /** Step 7, `verify_envelope` under the leaf's key. */
  function EnvelopeCheck(f: Foreign, leafSpki: Bytes, envelope: DsseEnvelope): Check {
    var key := f.keyFromSpki(leafSpki);
    if key.None? then Err(UnsupportedKeyAlgorithm)
    else Require(f.verifyDer(key.value, PaeBytes(envelope.payloadType, envelope.payload), envelope.sig),
                 DsseSignatureInvalid)
  }

  method VerifyEnvelope(f: Foreign, leafSpki: Bytes, envelope: DsseEnvelope) returns (r: Check)
    ensures r == EnvelopeCheck(f, leafSpki, envelope)
    ensures r.Ok? <==> exists key, message ::
                         && f.keyFromSpki(leafSpki) == Some(key) && f.verifyDer(key, message, envelope.sig)
                         && ReadPae(message) == Some((envelope.payloadType, envelope.payload))
  {
    var key := f.keyFromSpki(leafSpki);
    if key.None? {
      return Err(UnsupportedKeyAlgorithm);
    }
    var message := Pae(envelope.payloadType, envelope.payload);
    forall other | ReadPae(other) == Some((envelope.payloadType, envelope.payload))
      ensures other == message
    {
      PaeExact(other, envelope.payloadType, envelope.payload);
    }
    return if f.verifyDer(key.value, message, envelope.sig) then Pass else Err(DsseSignatureInvalid);
  }

  /** Steps 7 to 10, for a validated leaf. */
  ghost function SignerIdentity(
    f: Foreign, d: Decoders, v: VerifierConfig, envelope: DsseEnvelope, validated: ValidatedLeaf)
    : Result<MatchedIdentity, Error>
  {
    var signed := EnvelopeCheck(f, validated.leafSpki, envelope);
    var scts := EmbeddedSctResult(f, validated, v.trustStore.ctlogs);
    var claims := d.claims(validated.leaf);
    if signed.Err? then Err(signed.error)
    else if scts.Err? then Err(scts.error)
    else if claims.Err? then Err(claims.error)
    else PolicyResult(claims.value, v.githubPolicy)
  }

  // ---- verify_digest ----

  function ReportOf(subject: Digest, c: Content, identity: MatchedIdentity, stamp: VerifiedTimestamp): Report {
    Report(subject, c.subjectName, identity, stamp, c.statement.predicateType, c.statement.predicateBody)
  }

  ghost function DigestResult(f: Foreign, d: Decoders, v: VerifierConfig, subject: Digest, bundle: Bundle)
    : Result<Report, Error>
  {
    var content := ContentResult(d, bundle.envelope, subject);
    if content.Err? then Err(content.error)
    else
      var stamp := EntryResult(f, bundle, v.trustStore.tlogs, v.originPolicy);
      if stamp.Err? then Err(stamp.error)
      else
        var time := SaturatingSeconds(stamp.value.integratedTime);
        var validated := ChainResult(f, bundle.certificateDer, v.trustStore.certificateAuthorities, time);
        if validated.Err? then Err(validated.error)
        else
          var identity := SignerIdentity(f, d, v, bundle.envelope, validated.value);
          if identity.Err? then Err(identity.error)
          else Ok(ReportOf(subject, content.value, identity.value, stamp.value))
  }

  method VerifySigner(f: Foreign, d: Decoders, v: VerifierConfig, envelope: DsseEnvelope, validated: ValidatedLeaf)
    returns (r: Result<MatchedIdentity, Error>)
    ensures r == SignerIdentity(f, d, v, envelope, validated)
  {
    var signed := VerifyEnvelope(f, validated.leafSpki, envelope);
    if signed.Err? { return Err(signed.error); }
    var scts := VerifyEmbeddedScts(f, validated, v.trustStore.ctlogs);
    if scts.Err? { return Err(scts.error); }
    var claims := d.claims(validated.leaf);
    if claims.Err? { return Err(claims.error); }
    r := MatchPolicy(claims.value, v.githubPolicy);
  }

  /** `Verifier::verify_digest` */
  method VerifyDigest(f: Foreign, d: Decoders, v: VerifierConfig, subject: Digest, bundle: Bundle)
    returns (r: Result<Report, Error>)
    ensures r == DigestResult(f, d, v, subject, bundle)
  {
    var content := ContentResult(d, bundle.envelope, subject);
    if content.Err? { return Err(content.error); }
    var stamp := VerifyTlogEntry(f, bundle, v.trustStore.tlogs, v.originPolicy);
    if stamp.Err? { return Err(stamp.error); }
    var time := SaturatingSeconds(stamp.value.integratedTime);
    var validated := ValidateChain(f, bundle.certificateDer, v.trustStore.certificateAuthorities, time);
    if validated.Err? { return Err(validated.error); }
    var identity := VerifySigner(f, d, v, bundle.envelope, validated.value);
    if identity.Err? { return Err(identity.error); }
    return Ok(ReportOf(subject, content.value, identity.value, stamp.value));
  }

  // ---- what a report means ----

  /** Everything a successful report rests on. */
  datatype Grounds = Grounds(
    content: Content, evidence: Evidence, position: nat, chain: seq<Certificate>, leafKey: Key, claims: Claims,
    source: (Bytes, Bytes, Bytes), signer: SignerUri)

  /** The first authority of the store that vouches for the leaf at the entry's integrated time. */
  ghost predicate Certified(f: Foreign, v: VerifierConfig, g: Grounds) {
    FirstVoucher(f, g.evidence.leaf, v.trustStore.certificateAuthorities, g.evidence.entry.integratedTime,
                 g.position, g.chain)
    && g.chain != []
  }

  /** The leaf's key signed the envelope, and a trusted Certificate Transparency log saw the leaf. */
  ghost predicate Signed(f: Foreign, v: VerifierConfig, envelope: DsseEnvelope, g: Grounds) {
    && g.chain != []
    && f.keyFromSpki(g.evidence.leaf.spki) == Some(g.leafKey)
    && f.verifyDer(g.leafKey, PaeBytes(envelope.payloadType, envelope.payload), envelope.sig)
    && HasValidSct(f, LeafBy(g.evidence.leaf, g.chain), v.trustStore.ctlogs)
  }

  /** The leaf's claims satisfy every requirement of the policy, under the readings in the grounds. */
  ghost predicate Identified(d: Decoders, v: VerifierConfig, g: Grounds) {
    && d.claims(g.evidence.leaf) == Ok(g.claims) && g.claims.issuer == Some(EXPECTED_ISSUER)
    && g.claims.sourceRef == Some(g.source.2)
    && SourceAccepted(g.claims, v.githubPolicy.source, g.source.0, g.source.1)
    && SignerAccepted(g.claims, v.githubPolicy.signer, g.signer)
  }

  ghost predicate Grounded(
    f: Foreign, d: Decoders, v: VerifierConfig, subject: Digest, bundle: Bundle, g: Grounds)
  {
    && Claimed(d, bundle.envelope, subject, g.content)
    && Accepted(f, bundle, v.trustStore.tlogs, v.originPolicy, g.evidence)
    && Certified(f, v, g) && Signed(f, v, bundle.envelope, g) && Identified(d, v, g)
  }

  /** The identity that the claims state. */
  function IdentityOf(g: Grounds): MatchedIdentity {
    MatchedIdentity(EXPECTED_ISSUER, g.source.0, g.source.1, g.source.2,
                    g.signer.owner, g.signer.name, g.signer.path)
  }

  /** The report that the grounds support. */
  function ReportFrom(subject: Digest, g: Grounds): Report {
    Report(subject, g.content.subjectName, IdentityOf(g),
           VerifiedTimestamp(g.evidence.entry.integratedTime, g.evidence.entry.logIndex),
           g.content.statement.predicateType, g.content.statement.predicateBody)
  }

  lemma DigestSteps(f: Foreign, d: Decoders, v: VerifierConfig, subject: Digest, bundle: Bundle)
    returns (content: Content, stamp: VerifiedTimestamp, validated: ValidatedLeaf, identity: MatchedIdentity)
    requires DigestResult(f, d, v, subject, bundle).Ok?
    ensures ContentResult(d, bundle.envelope, subject) == Ok(content)
    ensures EntryResult(f, bundle, v.trustStore.tlogs, v.originPolicy) == Ok(stamp)
    ensures ChainResult(f, bundle.certificateDer, v.trustStore.certificateAuthorities,
                        SaturatingSeconds(stamp.integratedTime)) == Ok(validated)
    ensures SignerIdentity(f, d, v, bundle.envelope, validated) == Ok(identity)
    ensures DigestResult(f, d, v, subject, bundle) == Ok(ReportOf(subject, content, identity, stamp))
  {
    content := ContentResult(d, bundle.envelope, subject).value;
    stamp := EntryResult(f, bundle, v.trustStore.tlogs, v.originPolicy).value;
    validated := ChainResult(f, bundle.certificateDer, v.trustStore.certificateAuthorities,
                             SaturatingSeconds(stamp.integratedTime)).value;
    identity := SignerIdentity(f, d, v, bundle.envelope, validated).value;
  }

  /** An accepted entry's time fits a signed 64-bit number, so the saturating conversion changes nothing, and
      the leaf decodes and is inside its own window: neither check can fail in the chain step. */
  lemma LogStepSettlesLeafWindow(f: Foreign, bundle: Bundle, v: VerifierConfig)
    requires EntryResult(f, bundle, v.trustStore.tlogs, v.originPolicy).Ok?
    ensures var time := EntryResult(f, bundle, v.trustStore.tlogs, v.originPolicy).value.integratedTime;
            && SaturatingSeconds(time) == time
            && f.decodeCertificate(bundle.certificateDer).Some?
            && VerifyTimeWindow(f.decodeCertificate(bundle.certificateDer).value, SaturatingSeconds(time)).Ok?
  {
    var e := AcceptedHasEvidence(f, bundle, v.trustStore.tlogs, v.originPolicy);
    EvidencePasses(f, bundle, v.trustStore.tlogs, v.originPolicy, e);
  }

  lemma SignerIdentityMeans(
    f: Foreign, d: Decoders, v: VerifierConfig, envelope: DsseEnvelope, validated: ValidatedLeaf)
    returns (key: Key, claims: Claims)
    requires SignerIdentity(f, d, v, envelope, validated).Ok?
    ensures f.keyFromSpki(validated.leafSpki) == Some(key)
    ensures f.verifyDer(key, PaeBytes(envelope.payloadType, envelope.payload), envelope.sig)
    ensures HasValidSct(f, validated, v.trustStore.ctlogs)
    ensures d.claims(validated.leaf) == Ok(claims)
    ensures SignerIdentity(f, d, v, envelope, validated) == PolicyResult(claims, v.githubPolicy)
  {
    EmbeddedSctExact(f, validated, v.trustStore.ctlogs);
    key := f.keyFromSpki(validated.leafSpki).value;
    claims := d.claims(validated.leaf).value;
  }

  /** The readings behind an accepted policy. */
  lemma PolicyReadings(claims: Claims, policy: GithubPolicy)
    returns (source: (Bytes, Bytes, Bytes), signer: SignerUri)
    requires PolicyResult(claims, policy).Ok?
    ensures claims.issuer == Some(EXPECTED_ISSUER) && claims.sourceRef == Some(source.2)
    ensures SourceAccepted(claims, policy.source, source.0, source.1) && SignerAccepted(claims, policy.signer, signer)
    ensures PolicyResult(claims, policy)
         == Ok(MatchedIdentity(EXPECTED_ISSUER, source.0, source.1, source.2,
                               signer.owner, signer.name, signer.path))
  {
    PolicyExact(claims, policy);
    var o, n :| SourceAccepted(claims, policy.source, o, n);
    source := (o, n, claims.sourceRef.value);
    signer :| SignerAccepted(claims, policy.signer, signer);
  }

  /** A report is only ever returned with all of its grounds, and it states what they state. */
  lemma ReportMeans(f: Foreign, d: Decoders, v: VerifierConfig, subject: Digest, bundle: Bundle)
    returns (g: Grounds)
    requires DigestResult(f, d, v, subject, bundle).Ok?
    ensures Grounded(f, d, v, subject, bundle, g)
    ensures DigestResult(f, d, v, subject, bundle) == Ok(ReportFrom(subject, g))
  {
    var tlogs, cas := v.trustStore.tlogs, v.trustStore.certificateAuthorities;
    var content, stamp, validated, identity := DigestSteps(f, d, v, subject, bundle);
    ContentExact(d, bundle.envelope, subject, content);
    var e := AcceptedHasEvidence(f, bundle, tlogs, v.originPolicy);
    EvidencePasses(f, bundle, tlogs, v.originPolicy, e);
    LogStepSettlesLeafWindow(f, bundle, v);
    var i, chain := AcceptedHasChain(f, bundle.certificateDer, cas, SaturatingSeconds(stamp.integratedTime));
    var key, claims := SignerIdentityMeans(f, d, v, bundle.envelope, validated);
    var source, signer := PolicyReadings(claims, v.githubPolicy);
    g := Grounds(content, e, i, chain, key, claims, source, signer);
  }

  lemma IdentityOfGrounds(f: Foreign, d: Decoders, v: VerifierConfig, envelope: DsseEnvelope, g: Grounds)
    requires Signed(f, v, envelope, g) && Identified(d, v, g)
    ensures SignerIdentity(f, d, v, envelope, LeafBy(g.evidence.leaf, g.chain)) == Ok(IdentityOf(g))
  {
    EmbeddedSctExact(f, LeafBy(g.evidence.leaf, g.chain), v.trustStore.ctlogs);
    PolicyExact(g.claims, v.githubPolicy);
  }

  /** Nothing beyond these grounds is asked for. */
  lemma GroundsSuffice(f: Foreign, d: Decoders, v: VerifierConfig, subject: Digest, bundle: Bundle, g: Grounds)
    requires Grounded(f, d, v, subject, bundle, g)
    ensures DigestResult(f, d, v, subject, bundle) == Ok(ReportFrom(subject, g))
  {
    ContentExact(d, bundle.envelope, subject, g.content);
    EvidencePasses(f, bundle, v.trustStore.tlogs, v.originPolicy, g.evidence);
    FirstVoucherDecides(f, bundle.certificateDer, v.trustStore.certificateAuthorities,
                        g.evidence.entry.integratedTime, g.evidence.leaf, g.position, g.chain);
    IdentityOfGrounds(f, d, v, bundle.envelope, g);
  }

  /** A report is returned exactly when there are grounds for it, and it is the one they support. */
  lemma DigestExact(f: Foreign, d: Decoders, v: VerifierConfig, subject: Digest, bundle: Bundle)
    ensures DigestResult(f, d, v, subject, bundle).Ok? <==> exists g :: Grounded(f, d, v, subject, bundle, g)
    ensures forall g :: Grounded(f, d, v, subject, bundle, g) ==>
              DigestResult(f, d, v, subject, bundle) == Ok(ReportFrom(subject, g))
  {
    if DigestResult(f, d, v, subject, bundle).Ok? {
      var g := ReportMeans(f, d, v, subject, bundle);
    }
    forall g | Grounded(f, d, v, subject, bundle, g)
      ensures DigestResult(f, d, v, subject, bundle) == Ok(ReportFrom(subject, g))
    {
      GroundsSuffice(f, d, v, subject, bundle, g);
    }
  }

  // ---- the order of the steps ----

  /** Decoders that leave the signer's errors to the steps that check the signer. */
  ghost predicate DecodersKeepToTheirErrors(d: Decoders) {
    && (forall p :: d.statement(p).Err? ==> !IsSignerError(d.statement(p).error))
    && (forall c :: d.claims(c).Err? ==> !IsSignerError(d.claims(c).error))
  }

  lemma ContentErrors(d: Decoders, envelope: DsseEnvelope, subject: Digest)
    requires DecodersKeepToTheirErrors(d)
    ensures var r := ContentResult(d, envelope, subject); r.Err? ==> !IsSignerError(r.error)
  {
  }

  /** An error that the first three steps do not report comes from the last one, after they have passed. */
  lemma LastStepFailed(f: Foreign, d: Decoders, v: VerifierConfig, subject: Digest, bundle: Bundle, e: Error)
    returns (content: Content, stamp: VerifiedTimestamp, validated: ValidatedLeaf)
    requires DigestResult(f, d, v, subject, bundle) == Err(e)
    requires ContentResult(d, bundle.envelope, subject) != Err(e)
    requires EntryResult(f, bundle, v.trustStore.tlogs, v.originPolicy) != Err(e)
    requires forall t :: ChainResult(f, bundle.certificateDer, v.trustStore.certificateAuthorities, t) != Err(e)
    ensures ContentResult(d, bundle.envelope, subject) == Ok(content)
    ensures EntryResult(f, bundle, v.trustStore.tlogs, v.originPolicy) == Ok(stamp)
    ensures ChainResult(f, bundle.certificateDer, v.trustStore.certificateAuthorities,
                        SaturatingSeconds(stamp.integratedTime)) == Ok(validated)
    ensures SignerIdentity(f, d, v, bundle.envelope, validated) == Err(e)
  {
    content := ContentResult(d, bundle.envelope, subject).value;
    stamp := EntryResult(f, bundle, v.trustStore.tlogs, v.originPolicy).value;
    validated := ChainResult(f, bundle.certificateDer, v.trustStore.certificateAuthorities,
                             SaturatingSeconds(stamp.integratedTime)).value;
  }

  lemma FirstStepsSpareSigner(f: Foreign, d: Decoders, v: VerifierConfig, subject: Digest, bundle: Bundle, e: Error)
    requires DecodersKeepToTheirErrors(d) && IsSignerError(e)
    ensures ContentResult(d, bundle.envelope, subject) != Err(e)
    ensures EntryResult(f, bundle, v.trustStore.tlogs, v.originPolicy) != Err(e)
    ensures forall t :: ChainResult(f, bundle.certificateDer, v.trustStore.certificateAuthorities, t) != Err(e)
  {
    ContentErrors(d, bundle.envelope, subject);
    EntryErrors(f, bundle, v.trustStore.tlogs, v.originPolicy);
    forall t
      ensures ChainResult(f, bundle.certificateDer, v.trustStore.certificateAuthorities, t) != Err(e)
    {
      ChainErrors(f, bundle.certificateDer, v.trustStore.certificateAuthorities, t);
    }
  }

  /** A rejection that blames the signer's signature or identity comes only after the log's evidence held in full
      and a first authority of the store had vouched for the leaf at the log's time. */
  lemma SignerErrorComesAfterEvidence(
    f: Foreign, d: Decoders, v: VerifierConfig, subject: Digest, bundle: Bundle, e: Error)
    returns (content: Content, evidence: Evidence, i: nat, chain: seq<Certificate>)
    requires DecodersKeepToTheirErrors(d) && IsSignerError(e)
    requires DigestResult(f, d, v, subject, bundle) == Err(e)
    ensures Claimed(d, bundle.envelope, subject, content)
    ensures Accepted(f, bundle, v.trustStore.tlogs, v.originPolicy, evidence)
    ensures FirstVoucher(f, evidence.leaf, v.trustStore.certificateAuthorities, evidence.entry.integratedTime, i, chain)
            && chain != []
    ensures SignerIdentity(f, d, v, bundle.envelope, LeafBy(evidence.leaf, chain)) == Err(e)
  {
    var tlogs, cas := v.trustStore.tlogs, v.trustStore.certificateAuthorities;
    var stamp, validated;
    FirstStepsSpareSigner(f, d, v, subject, bundle, e);
    content, stamp, validated := LastStepFailed(f, d, v, subject, bundle, e);
    ContentExact(d, bundle.envelope, subject, content);
    evidence := AcceptedHasEvidence(f, bundle, tlogs, v.originPolicy);
    EvidencePasses(f, bundle, tlogs, v.originPolicy, evidence);
    i, chain := AcceptedHasChain(f, bundle.certificateDer, cas, SaturatingSeconds(stamp.integratedTime));
  }

  /** A rejection by the policy comes only after the envelope's signature and an SCT held as well. */
  lemma PolicyErrorComesLast(
    f: Foreign, d: Decoders, v: VerifierConfig, envelope: DsseEnvelope, validated: ValidatedLeaf, e: Error)
    returns (key: Key, claims: Claims)
    requires DecodersKeepToTheirErrors(d) && IsIdentityError(e)
    requires SignerIdentity(f, d, v, envelope, validated) == Err(e)
    ensures f.keyFromSpki(validated.leafSpki) == Some(key)
    ensures f.verifyDer(key, PaeBytes(envelope.payloadType, envelope.payload), envelope.sig)
    ensures HasValidSct(f, validated, v.trustStore.ctlogs)
    ensures d.claims(validated.leaf) == Ok(claims) && PolicyResult(claims, v.githubPolicy) == Err(e)
  {
    EmbeddedSctErrors(f, validated, v.trustStore.ctlogs);
    EmbeddedSctExact(f, validated, v.trustStore.ctlogs);
    key := f.keyFromSpki(validated.leafSpki).value;
    claims := d.claims(validated.leaf).value;
  }

  /** A store without the entry's log key fails there, whatever its authorities would say of the chain. */
  lemma UnknownLogKeyComesBeforeChain(
    f: Foreign, d: Decoders, v: VerifierConfig, subject: Digest, bundle: Bundle, content: Content, entry: TlogEntry)
    requires Claimed(d, bundle.envelope, subject, content)
    requires bundle.tlogEntries == [entry] && BoundBody(f, entry, bundle).Ok?
    requires forall log :: log in v.trustStore.tlogs ==> f.sha256(log.publicKey) != entry.logId
    ensures DigestResult(f, d, v, subject, bundle) == Err(UnknownLogKey)
  {
    ContentExact(d, bundle.envelope, subject, content);
    NoLogFound(f.sha256, v.trustStore.tlogs, entry.logId);
  }

  /** The first fault of the content, or none. */
  ghost function ContentFault(d: Decoders, envelope: DsseEnvelope, subject: Digest): Option<Error> {
    var statement := d.statement(envelope.payload);
    if envelope.payloadType != SUPPORTED_DSSE_PAYLOAD_TYPE then Some(DssePayloadType)
    else if statement.Err? then Some(statement.error)
    else if statement.value.predicateType != SUPPORTED_PREDICATE_TYPE then Some(PredicateType)
    else if forall s :: s in statement.value.subjects ==> s.sha256 != Some(subject) then Some(SubjectNotFound)
    else None
  }

  lemma ContentFaultExact(d: Decoders, envelope: DsseEnvelope, subject: Digest)
    ensures ErrorOf(ContentResult(d, envelope, subject)) == ContentFault(d, envelope, subject)
  {
    var statement := d.statement(envelope.payload);
    if statement.Ok? {
      var subjects := statement.value.subjects;
      var k := FindSubject(subjects, subject);
      assert k < |subjects| ==> subjects[k] in subjects;
    }
  }

  /** The steps fail in their order: the content, then the log's evidence, then the chain at the log's time, each
      for its own fault and whatever the later steps would say. */
  lemma StepsFailInOrder(
    f: Foreign, d: Decoders, v: VerifierConfig, subject: Digest, bundle: Bundle, content: Content, e: Evidence)
    ensures ContentFault(d, bundle.envelope, subject).Some? ==>
              ErrorOf(DigestResult(f, d, v, subject, bundle)) == ContentFault(d, bundle.envelope, subject)
    ensures var entry := EntryResult(f, bundle, v.trustStore.tlogs, v.originPolicy);
            Claimed(d, bundle.envelope, subject, content) && entry.Err? ==>
              DigestResult(f, d, v, subject, bundle) == Err(entry.error)
    ensures var chain := ChainResult(f, bundle.certificateDer, v.trustStore.certificateAuthorities,
                                     e.entry.integratedTime);
            && Claimed(d, bundle.envelope, subject, content)
            && Accepted(f, bundle, v.trustStore.tlogs, v.originPolicy, e) && chain.Err? ==>
              DigestResult(f, d, v, subject, bundle) == Err(chain.error)
  {
    ContentFaultExact(d, bundle.envelope, subject);
    ContentExact(d, bundle.envelope, subject, content);
    if Accepted(f, bundle, v.trustStore.tlogs, v.originPolicy, e) {
      EvidencePasses(f, bundle, v.trustStore.tlogs, v.originPolicy, e);
    }
  }

  /** After the chain the envelope's signature, the SCTs, the claims and the policy fail in this order. */
  lemma SignerFaultInOrder(
    f: Foreign, d: Decoders, v: VerifierConfig, envelope: DsseEnvelope, validated: ValidatedLeaf)
    ensures var key, claims := f.keyFromSpki(validated.leafSpki), d.claims(validated.leaf);
            ErrorOf(SignerIdentity(f, d, v, envelope, validated))
              == if key.None? then Some(UnsupportedKeyAlgorithm)
                 else if !f.verifyDer(key.value, PaeBytes(envelope.payloadType, envelope.payload), envelope.sig) then
                   Some(DsseSignatureInvalid)
                 else if !HasValidSct(f, validated, v.trustStore.ctlogs) then
                   ErrorOf(EmbeddedSctResult(f, validated, v.trustStore.ctlogs))
                 else if claims.Err? then Some(claims.error)
                 else ErrorOf(PolicyResult(claims.value, v.githubPolicy))
  {
    EmbeddedSctExact(f, validated, v.trustStore.ctlogs);
  }

  // ---- one time for the whole chain ----

  /** Every window of a successful verification contains the reported time. */
  ghost predicate InEveryWindow(time: int, v: VerifierConfig, g: Grounds) {
    && WithinValidFor(time, g.evidence.log.validFor)
    && InOwnBounds(g.evidence.leaf, time)
    && g.position < |v.trustStore.certificateAuthorities|
    && WithinValidFor(time, v.trustStore.certificateAuthorities[g.position].validFor)
    && forall k :: 0 <= k < |g.chain| ==> InOwnBounds(g.chain[k], time)
  }

  lemma VouchedInTime(f: Foreign, ca: CertificateAuthority, leaf: Certificate, t: int, chain: seq<Certificate>)
    requires Vouches(f, ca, leaf, t, chain) && t <= I64_MAX
    ensures WithinValidFor(t, ca.validFor) && InOwnBounds(leaf, t)
    ensures forall k :: 0 <= k < |chain| ==> InOwnBounds(chain[k], t)
  {
    SaturationExact(leaf, t);
    forall k | 0 <= k < |chain|
      ensures InOwnBounds(chain[k], t)
    {
      assert ValidLink(f, leaf, chain, k, t);
      SaturationExact(chain[k], t);
    }
  }

  lemma GroundsInTime(f: Foreign, d: Decoders, v: VerifierConfig, subject: Digest, bundle: Bundle, g: Grounds)
    requires Grounded(f, d, v, subject, bundle, g)
    ensures InEveryWindow(g.evidence.entry.integratedTime, v, g)
  {
    VouchedInTime(f, v.trustStore.certificateAuthorities[g.position], g.evidence.leaf,
                  g.evidence.entry.integratedTime, g.chain);
  }

  /** The reported time lies in the window of the log key, of the authority, and within the bounds of the leaf
      and of every certificate of its chain. */
  lemma OneTimeForAll(f: Foreign, d: Decoders, v: VerifierConfig, subject: Digest, bundle: Bundle)
    returns (g: Grounds)
    requires DigestResult(f, d, v, subject, bundle).Ok?
    ensures Grounded(f, d, v, subject, bundle, g)
    ensures InEveryWindow(DigestResult(f, d, v, subject, bundle).value.transparency.integratedTime, v, g)
  {
    g := ReportMeans(f, d, v, subject, bundle);
    GroundsInTime(f, d, v, subject, bundle, g);
  }

  // ---- two reports for one log position ----

  /** Two successful verifications whose entries share a log position are about one envelope and one
      certificate, and both subjects are named by the one statement, or an explicit pair breaks the hash. */
  lemma OnePositionOneStatement(
    f: Foreign, d: Decoders, v: VerifierConfig, x: Digest, a: Bundle, g: Grounds,
    w: VerifierConfig, y: Digest, b: Bundle, h: Grounds)
    requires Grounded(f, d, v, x, a, g) && Grounded(f, d, w, y, b, h)
    requires SamePosition(g.evidence.proof, h.evidence.proof)
    ensures || (SameContent(a, b) && g.content.statement == h.content.statement
                && g.evidence.leaf == h.evidence.leaf && g.claims == h.claims)
            || EnvelopePair(a, b).Breaks(f.sha256)
            || PositionBroken(f.sha256, g.evidence.entry.canonicalizedBody, h.evidence.entry.canonicalizedBody,
                              g.evidence.proof, h.evidence.proof)
  {
    LogPositionBindsContent(f, a, v.trustStore.tlogs, v.originPolicy, g.evidence,
                            b, w.trustStore.tlogs, w.originPolicy, h.evidence);
  }

  // ---- an honest signer ----

  /** A signing key that signs nothing but the encodings of these typed payloads. */
  ghost predicate HonestSigner(f: Foreign, key: Key, signed: iset<(Bytes, Bytes)>) {
    forall message, sig :: f.verifyDer(key, message, sig) ==>
      exists s :: s in signed && message == PaeBytes(s.0, s.1)
  }

  /** Under an honest signer the subject is named by an in-toto statement that the signer signed. */
  lemma ReportedSubjectWasSigned(
    f: Foreign, d: Decoders, v: VerifierConfig, subject: Digest, bundle: Bundle, g: Grounds,
    signed: iset<(Bytes, Bytes)>)
    requires Grounded(f, d, v, subject, bundle, g) && HonestSigner(f, g.leafKey, signed)
    ensures exists payload ::
              && (SUPPORTED_DSSE_PAYLOAD_TYPE, payload) in signed
              && d.statement(payload) == Ok(g.content.statement)
              && exists k :: NamedFirst(g.content.statement.subjects, k, subject)
  {
    var t, payload := bundle.envelope.payloadType, bundle.envelope.payload;
    var s :| s in signed && PaeBytes(t, payload) == PaeBytes(s.0, s.1);
    PaeInjective(t, payload, s.0, s.1);
    assert s == (SUPPORTED_DSSE_PAYLOAD_TYPE, payload);
  }

  // ---- the builder ----

  /** `reject_signer_id_pins` */
  predicate PinsSignerIds(signer: SignerPolicy) {
    signer.repository.ownerId.Some? || signer.repository.repositoryId.Some?
  }

  class VerifierBuilder {
    var trustStore: Option<TrustStore>
    var githubPolicy: Option<GithubPolicy>
    var originPolicy: Option<seq<Binding>>

    constructor ()
      ensures trustStore.None? && githubPolicy.None? && originPolicy.None?
    {
      trustStore, githubPolicy, originPolicy := None, None, None;
    }

    method SetTrustStore(t: TrustStore)
      modifies this`trustStore
      ensures trustStore == Some(t)
    {
      trustStore := Some(t);
    }

    method SetGithubPolicy(p: GithubPolicy)
      modifies this`githubPolicy
      ensures githubPolicy == Some(p)
    {
      githubPolicy := Some(p);
    }

    method SetOriginPolicy(p: seq<Binding>)
      modifies this`originPolicy
      ensures originPolicy == Some(p)
    {
      originPolicy := Some(p);
    }

    /** A verifier is built exactly when all three parts are set, no signer id is pinned and every key of the
        origin policy is a log key of the trust store. */
    method Build(hash: HashFn) returns (r: Result<VerifierConfig, Error>)
      ensures r.Ok? <==>
                && trustStore.Some? && githubPolicy.Some? && originPolicy.Some?
                && githubPolicy.value.signer.repository.ownerId.None?
                && githubPolicy.value.signer.repository.repositoryId.None?
                && forall b :: b in originPolicy.value ==>
                     exists log :: log in trustStore.value.tlogs && hash(log.publicKey) == b.keyId
      ensures r.Ok? ==> r.value == VerifierConfig(trustStore.value, githubPolicy.value, originPolicy.value)
      ensures r.Ok? ==> forall k, o :: Allows(r.value.originPolicy, k, o) ==>
                          exists log :: log in r.value.trustStore.tlogs && hash(log.publicKey) == k
      ensures r.Err? ==> r.error == InvalidConfiguration
    {
      if trustStore.None? || githubPolicy.None? || originPolicy.None? {
        return Err(InvalidConfiguration);
      }
      if PinsSignerIds(githubPolicy.value.signer) {
        return Err(InvalidConfiguration);
      }
      var known := CheckKnownKeys(hash, originPolicy.value, trustStore.value.tlogs);
      if known.Err? {
        return Err(known.error);
      }
      return Ok(VerifierConfig(trustStore.value, githubPolicy.value, originPolicy.value));
    }
  }
}
