/** The foreign code of the crate as parameters: hashing, signature checks and DER
    decoding. Nothing is assumed of them beyond their types. */
module Primitives {
  import opened Basics
  import opened Windows

  /** A decoded ECDSA key; the curve decides which digest a signature is checked over. */
  datatype Key = P256(point: Bytes) | P384(point: Bytes)

  datatype Extension = Extension(oid: Bytes, critical: bool, value: Bytes)

  /** A decoded certificate: names, validity in unix seconds, extensions, key and signed bytes. */
  datatype Certificate = Certificate(
    subject: Bytes, issuer: Bytes, notBefore: nat, notAfter: nat, extensions: seq<Extension>,
    spki: Bytes, tbs: Bytes, signatureAlgorithm: Bytes, signature: Bytes)

  datatype BasicConstraints = BasicConstraints(ca: bool, pathLen: Option<nat>)

  datatype KeyUsage = KeyUsage(digitalSignature: bool, keyCertSign: bool)

  /** The text decoders of the standard library and the base64 crate. */
  datatype TextCodec = TextCodec(number: Bytes -> Option<nat>, base64: Bytes -> Option<Bytes>)

  datatype RawSignature = RawSignature(signature: Bytes, verifier: Bytes)

  /** A log entry body as its JSON gives it, every field still text. */
  datatype RawEntryBody = RawEntryBody(
    kind: Bytes, apiVersion: Bytes, envelopeHash: Bytes, payloadHash: Bytes, signatures: seq<RawSignature>)

  datatype Foreign = Foreign(
    text: TextCodec,
    sha256: HashFn,
    keyFromSpki: Bytes -> Option<Key>,
    verifyDer: (Key, Bytes, Bytes) -> bool,
    decodeCertificate: Bytes -> Option<Certificate>,
    decodeBasicConstraints: Bytes -> Option<BasicConstraints>,
    decodeKeyUsage: Bytes -> Option<KeyUsage>,
    decodeExtKeyUsage: Bytes -> Option<seq<Bytes>>,
    decodeOctetString: Bytes -> Option<Bytes>,
    precertTbs: Bytes -> Option<Bytes>,
    entryBody: Bytes -> Option<RawEntryBody>,
    hexDigest: Bytes -> Option<Digest>,
    pemCertificate: Bytes -> Option<Bytes>)

  datatype CertificateAuthority = CertificateAuthority(certificates: seq<Bytes>, validFor: ValidityPeriod)

  datatype TransparencyLog = TransparencyLog(
    baseUrl: Bytes, publicKey: Bytes, validFor: ValidityPeriod, checkpointKeyId: Option<Bytes>)

  datatype CtLog = CtLog(publicKey: Bytes, validFor: ValidityPeriod)

  datatype TrustStore = TrustStore(
    tlogs: seq<TransparencyLog>, ctlogs: seq<CtLog>, certificateAuthorities: seq<CertificateAuthority>)

  datatype Error =
    // certificate
    | InvalidDer | UntrustedCertificate | OutsideCaValidity | OutsideCertificateValidity | IssuerNameMismatch
    | UnsupportedKeyAlgorithm | UnsupportedSignatureAlgorithm | SignatureInvalid | UnknownCriticalExtension
    | DuplicateExtension | InvalidBasicConstraints | PathLengthExceeded | MissingKeyUsage | MissingCodeSigningEku
    | SctMissing | SctInvalid | UnknownCtLog | SctOutsideKeyValidity
    // transparency and content binding
    | NoTlogEntries | MultipleTlogEntries | MalformedJson | UnsupportedTlogEntry | DsseSignatureCount
    | MalformedHex | TlogEntryKindVersionMismatch
    | TlogEntrySignatureMismatch | TlogEntryCertificateMismatch | TlogEntryPayloadHashMismatch
    | TlogEntryEnvelopeHashMismatch | UnknownLogKey | SetMissing | SetInvalid | InclusionProofMissing
    | InclusionProofInvalid | MalformedCheckpoint | MalformedBase64 | TooManyCheckpointSignatures
    | CheckpointTreeSizeMismatch | CheckpointRootHashMismatch | CheckpointSignatureInvalid | CheckpointOriginMismatch
    | IntegratedTimeOutsideLogKeyValidity | IntegratedTimeOutsideCertificateValidity
    // the rest of the chain
    | DssePayloadType | MalformedStatement | PredicateType | SubjectNotFound | DsseSignatureInvalid
    | InvalidConfiguration | MissingIdentityClaim | MalformedIdentityClaim | IssuerMismatch
    | SourceRepositoryMismatch | SourceOwnerIdMismatch | SourceRepositoryIdMismatch | SourceRefMismatch
    | SourceCommitMismatch | SignerRepositoryMismatch | SignerWorkflowPathMismatch | SignerRevisionMismatch

  /** A step that either passes or names its error. */
  type Check = Result<(), Error>

  const Pass: Check := Ok(())

  lemma OkIsPass(c: Check)
    ensures c.Ok? ==> c == Pass
  {
    match c {
      case Ok(nothing) =>
        assert nothing == ();
      case Err(_) =>
    }
  }

  function Require(condition: bool, error: Error): (c: Check)
    ensures c.Ok? <==> condition
    ensures c.Err? ==> c.error == error
  {
    if condition then Pass else Err(error)
  }

  /** The position of the first log whose key hashes to `id`, or the number of logs; labels are not consulted. */
  function FirstByKey<L>(hash: HashFn, logs: seq<L>, keyOf: L -> Bytes, id: Bytes): (k: nat)
    ensures k <= |logs|
    ensures k < |logs| ==> hash(keyOf(logs[k])) == id
    ensures forall j :: 0 <= j < k ==> hash(keyOf(logs[j])) != id
  {
    if logs == [] || hash(keyOf(logs[0])) == id then 0
    else
      var k := FirstByKey(hash, logs[1..], keyOf, id);
      assert forall j :: 1 <= j < |logs| ==> logs[j] == logs[1..][j - 1];
      k + 1
  }

  /** What the policy step reports. */
  predicate IsIdentityError(e: Error) {
    match e
    case MissingIdentityClaim | MalformedIdentityClaim | IssuerMismatch | SourceRepositoryMismatch
       | SourceOwnerIdMismatch | SourceRepositoryIdMismatch | SourceRefMismatch | SourceCommitMismatch
       | SignerRepositoryMismatch | SignerWorkflowPathMismatch | SignerRevisionMismatch => true
    case _ => false
  }

  /** What the steps after the chain report about the signer: its signature or its identity. */
  predicate IsSignerError(e: Error) {
    e == DsseSignatureInvalid || IsIdentityError(e)
  }
}
