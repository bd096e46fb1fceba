/** Certificate path validation of src/x509.rs: the leaf against the trust store's
    chains, at one time. */
module X509 {
  import opened Basics
  import opened Primitives
  import opened Windows

  const ECDSA_WITH_SHA_256 := Ascii("1.2.840.10045.4.3.2")
  const ECDSA_WITH_SHA_384 := Ascii("1.2.840.10045.4.3.3")
  const ID_KP_CODE_SIGNING := Ascii("1.3.6.1.5.5.7.3.3")
  const SCT_LIST_OID := Ascii("1.3.6.1.4.1.11129.2.4.2")
  const ID_CE_KEY_USAGE := Ascii("2.5.29.15")
  const ID_CE_SUBJECT_ALT_NAME := Ascii("2.5.29.17")
  const ID_CE_BASIC_CONSTRAINTS := Ascii("2.5.29.19")
  const ID_CE_EXT_KEY_USAGE := Ascii("2.5.29.37")

  const KNOWN_LEAF_EXTENSIONS :=
    {ID_CE_KEY_USAGE, ID_CE_EXT_KEY_USAGE, ID_CE_BASIC_CONSTRAINTS, ID_CE_SUBJECT_ALT_NAME, SCT_LIST_OID}
  const KNOWN_CA_CRITICAL_EXTENSIONS := {ID_CE_KEY_USAGE, ID_CE_BASIC_CONSTRAINTS}

  // ---- extensions ----

  /** The extensions with one object identifier, in order. */
  function WithOid(extensions: seq<Extension>, oid: Bytes): seq<Extension> {
    if extensions == [] then []
    else (if extensions[0].oid == oid then [extensions[0]] else []) + WithOid(extensions[1..], oid)
  }

  /** `find_extension`: at most one occurrence is allowed. */
  function FindExtension(extensions: seq<Extension>, oid: Bytes): (r: Result<Option<Extension>, Error>)
    ensures r.Err? ==> r.error == DuplicateExtension
  {
    var matches := WithOid(extensions, oid);
    if |matches| > 1 then Err(DuplicateExtension)
    else if matches == [] then Ok(None)
    else Ok(Some(matches[0]))
  }

  /** `find_extension_decoded` */
  function FindDecoded<T>(extensions: seq<Extension>, oid: Bytes, decode: Bytes -> Option<T>)
    : Result<Option<T>, Error>
  {
    var ext :- FindExtension(extensions, oid);
    if ext.None? then Ok(None)
    else
      var decoded := decode(ext.value.value);
      if decoded.None? then Err(InvalidDer) else Ok(decoded)
  }

  predicate NoUnknownCritical(extensions: seq<Extension>, known: set<Bytes>) {
    forall k :: 0 <= k < |extensions| ==> extensions[k].critical ==> extensions[k].oid in known
  }

  /** `reject_unknown_critical_extensions` */
  method RejectUnknownCritical(extensions: seq<Extension>, known: set<Bytes>) returns (r: Check)
    ensures r == Require(NoUnknownCritical(extensions, known), UnknownCriticalExtension)
  {
    for i := 0 to |extensions|
      invariant forall k :: 0 <= k < i ==> extensions[k].critical ==> extensions[k].oid in known
    {
      if extensions[i].critical && extensions[i].oid !in known {
        return Err(UnknownCriticalExtension);
      }
    }
    return Pass;
  }

  /** An extension that occurs once, or not at all. */
  predicate OccursOnce(extensions: seq<Extension>, oid: Bytes, e: Extension) {
    exists k :: 0 <= k < |extensions| && extensions[k] == e && e.oid == oid &&
                forall j :: 0 <= j < |extensions| && extensions[j].oid == oid ==> j == k
  }

  predicate Absent(extensions: seq<Extension>, oid: Bytes) {
    forall j :: 0 <= j < |extensions| ==> extensions[j].oid != oid
  }

  lemma {:induction false} WithOidCases(extensions: seq<Extension>, oid: Bytes)
    ensures WithOid(extensions, oid) == [] <==> Absent(extensions, oid)
    ensures |WithOid(extensions, oid)| == 1 ==> OccursOnce(extensions, oid, WithOid(extensions, oid)[0])
    ensures forall e :: OccursOnce(extensions, oid, e) ==> WithOid(extensions, oid) == [e]
  {
    if extensions != [] {
      var rest := extensions[1..];
      WithOidCases(rest, oid);
      assert forall j :: 1 <= j < |extensions| ==> extensions[j] == rest[j - 1];
      assert forall j :: 0 <= j < |rest| ==> rest[j] == extensions[j + 1];
      if extensions[0].oid == oid {
        if Absent(rest, oid) {
          assert OccursOnce(extensions, oid, extensions[0]);
        }
      } else if |WithOid(rest, oid)| == 1 {
        var e := WithOid(rest, oid)[0];
        var k :| 0 <= k < |rest| && rest[k] == e && forall j :: 0 <= j < |rest| && rest[j].oid == oid ==> j == k;
        assert extensions[k + 1] == e;
      }
      forall e | OccursOnce(extensions, oid, e)
        ensures WithOid(extensions, oid) == [e]
      {
        var k :| 0 <= k < |extensions| && extensions[k] == e &&
                 forall j :: 0 <= j < |extensions| && extensions[j].oid == oid ==> j == k;
        if k > 0 {
          assert rest[k - 1] == e;
          assert OccursOnce(rest, oid, e);
        }
      }
    }
  }

  /** The lookup finds an extension exactly when it is the only one with that identifier, and rejects
      every repeated one. */
  lemma FindExtensionExact(extensions: seq<Extension>, oid: Bytes)
    ensures FindExtension(extensions, oid) == Ok(None) <==> Absent(extensions, oid)
    ensures forall e :: FindExtension(extensions, oid) == Ok(Some(e)) <==> OccursOnce(extensions, oid, e)
  {
    WithOidCases(extensions, oid);
  }

  // ---- one certificate ----

  /** `unix_seconds`: saturating conversion to a signed 64-bit second. */
  function UnixSeconds(t: nat): int {
    if t <= I64_MAX then t else I64_MAX
  }

  predicate InValidity(c: Certificate, t: int) {
    UnixSeconds(c.notBefore) <= t <= UnixSeconds(c.notAfter)
  }

  /** The certificate's own bounds, but for the last representable second, which a later notBefore saturates to. */
  predicate InOwnBounds(c: Certificate, t: int) {
    t <= c.notAfter && (c.notBefore <= t || t == I64_MAX)
  }

  /** For every time of the source's type the saturated window is the certificate's own, with that one
      exception. */
  lemma SaturationExact(c: Certificate, t: int)
    requires t <= I64_MAX
    ensures InValidity(c, t) <==> InOwnBounds(c, t)
    ensures (InValidity(c, t) <==> c.notBefore <= t <= c.notAfter) <==> !(t == I64_MAX < c.notBefore && t <= c.notAfter)
  {
  }

  function VerifyTimeWindow(c: Certificate, t: int): Check {
    if t < UnixSeconds(c.notBefore) || t > UnixSeconds(c.notAfter) then Err(OutsideCertificateValidity) else Pass
  }

  /** What `verify_leaf_profile` decides. */
  function LeafProfile(f: Foreign, leaf: Certificate): Check {
    var _ :- Require(NoUnknownCritical(leaf.extensions, KNOWN_LEAF_EXTENSIONS), UnknownCriticalExtension);
    var bc :- FindDecoded(leaf.extensions, ID_CE_BASIC_CONSTRAINTS, f.decodeBasicConstraints);
    var _ :- Require(bc.None? || !bc.value.ca, InvalidBasicConstraints);
    var usage :- FindDecoded(leaf.extensions, ID_CE_KEY_USAGE, f.decodeKeyUsage);
    var _ :- Require(usage.Some? && usage.value.digitalSignature, MissingKeyUsage);
    var eku :- FindDecoded(leaf.extensions, ID_CE_EXT_KEY_USAGE, f.decodeExtKeyUsage);
    Require(eku.Some? && ID_KP_CODE_SIGNING in eku.value, MissingCodeSigningEku)
  }

  /** A decoded extension of a certificate that must occur exactly once. */
  ghost predicate Carries<T(!new)>(c: Certificate, oid: Bytes, decode: Bytes -> Option<T>, value: T) {
    exists e :: OccursOnce(c.extensions, oid, e) && decode(e.value) == Some(value)
  }

  /** The extension occurs once and its decoded value has the property. */
  ghost predicate CarriesSome<T(!new)>(c: Certificate, oid: Bytes, decode: Bytes -> Option<T>, holds: T -> bool) {
    exists value :: Carries(c, oid, decode, value) && holds(value)
  }

  predicate EndEntity(bc: BasicConstraints) { !bc.ca }

  predicate SignsData(u: KeyUsage) { u.digitalSignature }

  predicate SignsCode(purposes: seq<Bytes>) { ID_KP_CODE_SIGNING in purposes }

  ghost predicate IsSigningLeaf(f: Foreign, c: Certificate) {
    && NoUnknownCritical(c.extensions, KNOWN_LEAF_EXTENSIONS)
    && (Absent(c.extensions, ID_CE_BASIC_CONSTRAINTS)
        || CarriesSome(c, ID_CE_BASIC_CONSTRAINTS, f.decodeBasicConstraints, EndEntity))
    && CarriesSome(c, ID_CE_KEY_USAGE, f.decodeKeyUsage, SignsData)
    && CarriesSome(c, ID_CE_EXT_KEY_USAGE, f.decodeExtKeyUsage, SignsCode)
  }

  lemma FindDecodedExact<T(!new)>(c: Certificate, oid: Bytes, decode: Bytes -> Option<T>)
    ensures forall v :: FindDecoded(c.extensions, oid, decode) == Ok(Some(v)) <==> Carries(c, oid, decode, v)
    ensures FindDecoded(c.extensions, oid, decode) == Ok(None) <==> Absent(c.extensions, oid)
  {
    FindExtensionExact(c.extensions, oid);
    forall v
      ensures FindDecoded(c.extensions, oid, decode) == Ok(Some(v)) <==> Carries(c, oid, decode, v)
    {
      var found := FindExtension(c.extensions, oid);
      if found.Ok? && found.value.Some? {
        assert OccursOnce(c.extensions, oid, found.value.value);
      }
      if Carries(c, oid, decode, v) {
        var e :| OccursOnce(c.extensions, oid, e) && decode(e.value) == Some(v);
        assert found == Ok(Some(e));
      }
    }
  }

  lemma FoundWith<T(!new)>(c: Certificate, oid: Bytes, decode: Bytes -> Option<T>, holds: T -> bool)
    ensures var r := FindDecoded(c.extensions, oid, decode);
            (r.Ok? && r.value.Some? && holds(r.value.value) <==> CarriesSome(c, oid, decode, holds))
            && (r == Ok(None) <==> Absent(c.extensions, oid))
  {
    FindDecodedExact(c, oid, decode);
    var r := FindDecoded(c.extensions, oid, decode);
    if r.Ok? && r.value.Some? {
      assert Carries(c, oid, decode, r.value.value);
    }
  }

  lemma LeafProfileExact(f: Foreign, c: Certificate)
    ensures LeafProfile(f, c).Ok? <==> IsSigningLeaf(f, c)
  {
    FoundWith(c, ID_CE_BASIC_CONSTRAINTS, f.decodeBasicConstraints, EndEntity);
    FoundWith(c, ID_CE_KEY_USAGE, f.decodeKeyUsage, SignsData);
    FoundWith(c, ID_CE_EXT_KEY_USAGE, f.decodeExtKeyUsage, SignsCode);
  }

  /** `verify_leaf_profile` */
  method VerifyLeafProfile(f: Foreign, leaf: Certificate) returns (r: Check)
    ensures r == LeafProfile(f, leaf)
    ensures r.Ok? <==> IsSigningLeaf(f, leaf)
  {
    LeafProfileExact(f, leaf);
    var critical := RejectUnknownCritical(leaf.extensions, KNOWN_LEAF_EXTENSIONS);
    if critical.Err? { return critical; }
    var bc := FindDecoded(leaf.extensions, ID_CE_BASIC_CONSTRAINTS, f.decodeBasicConstraints);
    if bc.Err? { return Err(bc.error); }
    if bc.value.Some? && bc.value.value.ca { return Err(InvalidBasicConstraints); }
    var usage := FindDecoded(leaf.extensions, ID_CE_KEY_USAGE, f.decodeKeyUsage);
    if usage.Err? { return Err(usage.error); }
    if usage.value.None? || !usage.value.value.digitalSignature { return Err(MissingKeyUsage); }
    var eku := FindDecoded(leaf.extensions, ID_CE_EXT_KEY_USAGE, f.decodeExtKeyUsage);
    if eku.Err? { return Err(eku.error); }
    if eku.value.None? || ID_KP_CODE_SIGNING !in eku.value.value { return Err(MissingCodeSigningEku); }
    return Pass;
  }

  /** What `verify_ca_profile` decides; `subordinates` counts the authorities between this one and the leaf. */
  function CaProfile(f: Foreign, c: Certificate, subordinates: nat): Check {
    var _ :- Require(NoUnknownCritical(c.extensions, KNOWN_CA_CRITICAL_EXTENSIONS), UnknownCriticalExtension);
    var bc :- FindDecoded(c.extensions, ID_CE_BASIC_CONSTRAINTS, f.decodeBasicConstraints);
    var _ :- Require(bc.Some? && bc.value.ca, InvalidBasicConstraints);
    var _ :- Require(bc.value.pathLen.None? || subordinates <= bc.value.pathLen.value, PathLengthExceeded);
    var usage :- FindDecoded(c.extensions, ID_CE_KEY_USAGE, f.decodeKeyUsage);
    Require(usage.Some? && usage.value.keyCertSign, MissingKeyUsage)
  }

  predicate SignsCertificates(u: KeyUsage) { u.keyCertSign }

  ghost predicate IsCertifyingAuthority(f: Foreign, c: Certificate, subordinates: nat) {
    && NoUnknownCritical(c.extensions, KNOWN_CA_CRITICAL_EXTENSIONS)
    && (exists bc :: Carries(c, ID_CE_BASIC_CONSTRAINTS, f.decodeBasicConstraints, bc)
                     && bc.ca && (bc.pathLen.Some? ==> subordinates <= bc.pathLen.value))
    && CarriesSome(c, ID_CE_KEY_USAGE, f.decodeKeyUsage, SignsCertificates)
  }

  lemma CaProfileExact(f: Foreign, c: Certificate, subordinates: nat)
    ensures CaProfile(f, c, subordinates).Ok? <==> IsCertifyingAuthority(f, c, subordinates)
  {
    FindDecodedExact(c, ID_CE_BASIC_CONSTRAINTS, f.decodeBasicConstraints);
    FoundWith(c, ID_CE_KEY_USAGE, f.decodeKeyUsage, SignsCertificates);
  }

  /** `verify_ca_profile` */
  method VerifyCaProfile(f: Foreign, c: Certificate, subordinates: nat) returns (r: Check)
    ensures r == CaProfile(f, c, subordinates)
    ensures r.Ok? <==> IsCertifyingAuthority(f, c, subordinates)
  {
    CaProfileExact(f, c, subordinates);
    var critical := RejectUnknownCritical(c.extensions, KNOWN_CA_CRITICAL_EXTENSIONS);
    if critical.Err? { return critical; }
    var bc := FindDecoded(c.extensions, ID_CE_BASIC_CONSTRAINTS, f.decodeBasicConstraints);
    if bc.Err? { return Err(bc.error); }
    if bc.value.None? || !bc.value.value.ca { return Err(InvalidBasicConstraints); }
    if bc.value.value.pathLen.Some? && subordinates > bc.value.value.pathLen.value { return Err(PathLengthExceeded); }
    var usage := FindDecoded(c.extensions, ID_CE_KEY_USAGE, f.decodeKeyUsage);
    if usage.Err? { return Err(usage.error); }
    if usage.value.None? || !usage.value.value.keyCertSign { return Err(MissingKeyUsage); }
    return Pass;
  }

  /** The one signature algorithm allowed for an issuer key. */
  function AlgorithmFor(k: Key): Bytes {
    if k.P256? then ECDSA_WITH_SHA_256 else ECDSA_WITH_SHA_384
  }

  /** `verify_signature` */
  function VerifySignature(f: Foreign, child: Certificate, issuer: Certificate): Check {
    var key := f.keyFromSpki(issuer.spki);
    var _ :- Require(key.Some?, UnsupportedKeyAlgorithm);
    var _ :- Require(child.signatureAlgorithm == AlgorithmFor(key.value), UnsupportedSignatureAlgorithm);
    Require(f.verifyDer(key.value, child.tbs, child.signature), SignatureInvalid)
  }

  // ---- what a valid path is (sections 4.2.1.9 and 6.1 of RFC 5280, in this profile) ----

  /** The issuer's key has signed the certificate, with the digest that belongs to its curve (section 3.2 of
      RFC 5758). */
  ghost predicate SignedBy(f: Foreign, child: Certificate, issuer: Certificate) {
    exists k :: && f.keyFromSpki(issuer.spki) == Some(k) && f.verifyDer(k, child.tbs, child.signature)
                && (k.P256? ==> child.signatureAlgorithm == Ascii("1.2.840.10045.4.3.2"))
                && (k.P384? ==> child.signatureAlgorithm == Ascii("1.2.840.10045.4.3.3"))
  }

  function Signee(leaf: Certificate, chain: seq<Certificate>, i: nat): Certificate
    requires i <= |chain|
  {
    if i == 0 then leaf else chain[i - 1]
  }

  /** The checks on one link of a chain, in the source's order. */
  function CheckedLink(f: Foreign, signee: Certificate, issuer: Certificate, subordinates: nat, t: int): Check {
    var _ :- Require(issuer.subject == signee.issuer, IssuerNameMismatch);
    var _ :- VerifyTimeWindow(issuer, t);
    var _ :- CaProfile(f, issuer, subordinates);
    VerifySignature(f, signee, issuer)
  }

  function LinkCheck(f: Foreign, leaf: Certificate, chain: seq<Certificate>, i: nat, t: int): Check
    requires i < |chain|
  {
    CheckedLink(f, Signee(leaf, chain, i), chain[i], i, t)
  }

  method CheckLink(f: Foreign, signee: Certificate, issuer: Certificate, subordinates: nat, t: int) returns (r: Check)
    ensures r == CheckedLink(f, signee, issuer, subordinates, t)
  {
    if issuer.subject != signee.issuer { return Err(IssuerNameMismatch); }
    r := VerifyTimeWindow(issuer, t);
    if r.Err? { return; }
    r := VerifyCaProfile(f, issuer, subordinates);
    if r.Err? { return; }
    r := VerifySignature(f, signee, issuer);
  }

  ghost predicate ValidLink(f: Foreign, leaf: Certificate, chain: seq<Certificate>, i: nat, t: int)
    requires i < |chain|
  {
    var signee := if i == 0 then leaf else chain[i - 1];
    chain[i].subject == signee.issuer && InValidity(chain[i], t) &&
    IsCertifyingAuthority(f, chain[i], i) && SignedBy(f, signee, chain[i])
  }

  /** A leaf that a chain vouches for at time `t`: every link holds. */
  ghost predicate ValidPath(f: Foreign, leaf: Certificate, chain: seq<Certificate>, t: int) {
    && chain != [] && InValidity(leaf, t) && IsSigningLeaf(f, leaf)
    && forall i :: 0 <= i < |chain| ==> ValidLink(f, leaf, chain, i, t)
  }

  lemma LinkCheckExact(f: Foreign, leaf: Certificate, chain: seq<Certificate>, i: nat, t: int)
    requires i < |chain|
    ensures LinkCheck(f, leaf, chain, i, t).Ok? <==> ValidLink(f, leaf, chain, i, t)
  {
    CaProfileExact(f, chain[i], i);
  }

  // ---- one certificate authority ----

  datatype ValidatedLeaf = ValidatedLeaf(leaf: Certificate, leafSpki: Bytes, issuerSpki: Bytes, chainLength: nat)

  function DecodeChain(f: Foreign, ders: seq<Bytes>): Option<seq<Certificate>> {
    if ders == [] then Some([])
    else
      var head := f.decodeCertificate(ders[0]);
      if head.None? then None
      else
        var rest := DecodeChain(f, ders[1..]);
        if rest.None? then None else Some([head.value] + rest.value)
  }

  /** Every certificate of the list, in its place. */
  ghost predicate DecodesTo(f: Foreign, ders: seq<Bytes>, chain: seq<Certificate>) {
    |chain| == |ders| && forall i :: 0 <= i < |ders| ==> f.decodeCertificate(ders[i]) == Some(chain[i])
  }

  /** A chain decodes exactly when each of its certificates does, to those certificates in order. */
  lemma {:induction false} DecodeChainExact(f: Foreign, ders: seq<Bytes>)
    ensures DecodeChain(f, ders).Some? <==> forall i :: 0 <= i < |ders| ==> f.decodeCertificate(ders[i]).Some?
    ensures forall chain :: DecodeChain(f, ders) == Some(chain) <==> DecodesTo(f, ders, chain)
  {
    if ders != [] {
      var rest := ders[1..];
      DecodeChainExact(f, rest);
      assert forall i :: 1 <= i < |ders| ==> ders[i] == rest[i - 1];
      assert forall i :: 0 <= i < |rest| ==> rest[i] == ders[i + 1];
      forall chain
        ensures DecodeChain(f, ders) == Some(chain) <==> DecodesTo(f, ders, chain)
      {
        if DecodesTo(f, ders, chain) {
          assert DecodesTo(f, rest, chain[1..]);
          HeadAndTail(chain);
        }
      }
    }
  }

  /** The first failing check of a list. */
  function FirstFailure(checks: seq<Check>): Check {
    if checks == [] then Pass
    else if checks[0].Err? then checks[0]
    else FirstFailure(checks[1..])
  }

  lemma {:induction false} NoFailure(checks: seq<Check>)
    ensures FirstFailure(checks).Ok? <==> forall k :: 0 <= k < |checks| ==> checks[k].Ok?
  {
    if checks != [] {
      NoFailure(checks[1..]);
      assert forall k :: 1 <= k < |checks| ==> checks[k] == checks[1..][k - 1];
      assert forall k :: 0 <= k < |checks| - 1 ==> checks[1..][k] == checks[k + 1];
    }
  }

  /** The checks of every link, from the leaf's issuer to the root. */
  function Links(f: Foreign, leaf: Certificate, chain: seq<Certificate>, t: int): seq<Check> {
    seq(|chain|, i requires 0 <= i < |chain| => LinkCheck(f, leaf, chain, i, t))
  }

  lemma FirstFailureFrom(checks: seq<Check>, i: nat)
    requires i < |checks|
    ensures FirstFailure(checks[i..]) == if checks[i].Err? then checks[i] else FirstFailure(checks[i + 1..])
  {
    assert checks[i..][1..] == checks[i + 1..];
  }

  function Walk(f: Foreign, leaf: Certificate, chain: seq<Certificate>, t: int): Check {
    FirstFailure(Links(f, leaf, chain, t))
  }

  lemma WalkExact(f: Foreign, leaf: Certificate, chain: seq<Certificate>, t: int)
    ensures Walk(f, leaf, chain, t).Ok? <==> forall k :: 0 <= k < |chain| ==> ValidLink(f, leaf, chain, k, t)
  {
    var links := Links(f, leaf, chain, t);
    NoFailure(links);
    forall k | 0 <= k < |chain|
      ensures links[k].Ok? <==> ValidLink(f, leaf, chain, k, t)
    {
      LinkCheckExact(f, leaf, chain, k, t);
    }
  }

  /** What one certificate authority says about a leaf: not its issuer, a failure, or validated. */
  function Verdict(f: Foreign, leaf: Certificate, ca: CertificateAuthority, t: int)
    : Result<Option<ValidatedLeaf>, Error>
  {
    var chain := DecodeChain(f, ca.certificates);
    if chain.None? then Err(InvalidDer)
    else if chain.value == [] || chain.value[0].subject != leaf.issuer then Ok(None)
    else
      var _ :- Require(WithinValidFor(t, ca.validFor), OutsideCaValidity);
      var _ :- VerifyTimeWindow(leaf, t);
      var _ :- LeafProfile(f, leaf);
      var _ :- Walk(f, leaf, chain.value, t);
      Ok(Some(ValidatedLeaf(leaf, leaf.spki, chain.value[0].spki, |chain.value|)))
  }

  /** The whole of what a successful authority has been checked for. */
  ghost predicate Vouches(f: Foreign, ca: CertificateAuthority, leaf: Certificate, t: int, chain: seq<Certificate>) {
    DecodesTo(f, ca.certificates, chain) && WithinValidFor(t, ca.validFor) && ValidPath(f, leaf, chain, t)
  }

  lemma VerdictVouches(f: Foreign, leaf: Certificate, ca: CertificateAuthority, t: int)
    requires Verdict(f, leaf, ca, t).Ok? && Verdict(f, leaf, ca, t).value.Some?
    ensures DecodeChain(f, ca.certificates).Some? && Vouches(f, ca, leaf, t, DecodeChain(f, ca.certificates).value)
  {
    DecodeChainExact(f, ca.certificates);
    LeafProfileExact(f, leaf);
    WalkExact(f, leaf, DecodeChain(f, ca.certificates).value, t);
  }

  lemma VouchedVerdict(f: Foreign, leaf: Certificate, ca: CertificateAuthority, t: int, chain: seq<Certificate>)
    requires Vouches(f, ca, leaf, t, chain)
    ensures Verdict(f, leaf, ca, t) == Ok(Some(ValidatedLeaf(leaf, leaf.spki, chain[0].spki, |chain|)))
  {
    DecodeChainExact(f, ca.certificates);
    LeafProfileExact(f, leaf);
    WalkExact(f, leaf, chain, t);
    assert ValidLink(f, leaf, chain, 0, t);
  }

  /** An authority validates a leaf exactly when its decoded chain is a valid path inside its window. */
  lemma VerdictExact(f: Foreign, leaf: Certificate, ca: CertificateAuthority, t: int)
    ensures Verdict(f, leaf, ca, t).Ok? && Verdict(f, leaf, ca, t).value.Some?
        <==> exists chain :: Vouches(f, ca, leaf, t, chain)
    ensures forall chain: seq<Certificate> :: Vouches(f, ca, leaf, t, chain) ==>
              Verdict(f, leaf, ca, t) == Ok(Some(ValidatedLeaf(leaf, leaf.spki, chain[0].spki, |chain|)))
  {
    if Verdict(f, leaf, ca, t).Ok? && Verdict(f, leaf, ca, t).value.Some? {
      VerdictVouches(f, leaf, ca, t);
    }
    forall chain: seq<Certificate> | Vouches(f, ca, leaf, t, chain)
      ensures Verdict(f, leaf, ca, t) == Ok(Some(ValidatedLeaf(leaf, leaf.spki, chain[0].spki, |chain|)))
    {
      VouchedVerdict(f, leaf, ca, t, chain);
    }
  }

  /** The walk from link `i` on. */
  function WalkFrom(f: Foreign, leaf: Certificate, chain: seq<Certificate>, i: nat, t: int): Check
    requires i <= |chain|
  {
    FirstFailure(Links(f, leaf, chain, t)[i..])
  }

  lemma WalkStep(
    f: Foreign, leaf: Certificate, chain: seq<Certificate>, i: nat, t: int, signee: Certificate, link: Check)
    requires i < |chain| && signee == Signee(leaf, chain, i)
    requires link == CheckedLink(f, signee, chain[i], i, t)
    ensures WalkFrom(f, leaf, chain, i, t) == if link.Err? then link else WalkFrom(f, leaf, chain, i + 1, t)
  {
    FirstFailureFrom(Links(f, leaf, chain, t), i);
  }

  lemma WalkEnds(f: Foreign, leaf: Certificate, chain: seq<Certificate>, t: int)
    ensures WalkFrom(f, leaf, chain, 0, t) == Walk(f, leaf, chain, t)
    ensures WalkFrom(f, leaf, chain, |chain|, t) == Pass
  {
    var links := Links(f, leaf, chain, t);
    assert links[0..] == links && links[|chain|..] == [];
  }

  /** The walk from the leaf to the root, with the current signee. */
  method WalkChain(f: Foreign, leaf: Certificate, chain: seq<Certificate>, t: int) returns (r: Check)
    ensures r == Walk(f, leaf, chain, t)
  {
    WalkEnds(f, leaf, chain, t);
    var signee := leaf;
    var i := 0;
    while i < |chain|
      invariant 0 <= i <= |chain|
      invariant signee == Signee(leaf, chain, i)
      invariant WalkFrom(f, leaf, chain, i, t) == Walk(f, leaf, chain, t)
    {
      var issuer := chain[i];
      var link := CheckLink(f, signee, issuer, i, t);
      WalkStep(f, leaf, chain, i, t, signee, link);
      if link.Err? {
        return link;
      }
      signee := issuer;
      i := i + 1;
    }
    return Pass;
  }

  /** `try_validate_against_ca` */
  method TryValidateAgainstCa(f: Foreign, leaf: Certificate, ca: CertificateAuthority, t: int)
    returns (r: Result<Option<ValidatedLeaf>, Error>)
    ensures r == Verdict(f, leaf, ca, t)
  {
    var decoded := DecodeChain(f, ca.certificates);
    if decoded.None? {
      return Err(InvalidDer);
    }
    var chain := decoded.value;
    if chain == [] || chain[0].subject != leaf.issuer {
      return Ok(None);
    }
    if !WithinValidFor(t, ca.validFor) {
      return Err(OutsideCaValidity);
    }
    var window := VerifyTimeWindow(leaf, t);
    if window.Err? { return Err(window.error); }
    var profile := VerifyLeafProfile(f, leaf);
    if profile.Err? { return Err(profile.error); }
    var walk := WalkChain(f, leaf, chain, t);
    if walk.Err? { return Err(walk.error); }
    return Ok(Some(ValidatedLeaf(leaf, leaf.spki, chain[0].spki, |chain|)));
  }

  // ---- the search over certificate authorities ----

  predicate Validates(f: Foreign, leaf: Certificate, ca: CertificateAuthority, t: int) {
    Verdict(f, leaf, ca, t).Ok? && Verdict(f, leaf, ca, t).value.Some?
  }

  function Search(f: Foreign, leaf: Certificate, cas: seq<CertificateAuthority>, t: int, firstError: Option<Error>)
    : Result<ValidatedLeaf, Error>
  {
    if cas == [] then Err(if firstError.Some? then firstError.value else UntrustedCertificate)
    else
      var verdict := Verdict(f, leaf, cas[0], t);
      if verdict.Ok? && verdict.value.Some? then Ok(verdict.value.value)
      else
        Search(f, leaf, cas[1..], t, if verdict.Err? && firstError.None? then Some(verdict.error) else firstError)
  }

  function ChainResult(f: Foreign, leafDer: Bytes, cas: seq<CertificateAuthority>, t: int)
    : Result<ValidatedLeaf, Error>
  {
    var leaf := f.decodeCertificate(leafDer);
    if leaf.None? then Err(InvalidDer) else Search(f, leaf.value, cas, t, None)
  }

  /** `validate_chain`: the first authority that validates wins; otherwise the first failure in order is
      reported, and the leaf is untrusted when no authority failed. A decoding failure of any authority's
      chain counts as a failure, also when its name would not have matched. */
  method ValidateChain(f: Foreign, leafDer: Bytes, cas: seq<CertificateAuthority>, t: int)
    returns (r: Result<ValidatedLeaf, Error>)
    ensures r == ChainResult(f, leafDer, cas, t)
  {
    var decoded := f.decodeCertificate(leafDer);
    if decoded.None? {
      return Err(InvalidDer);
    }
    var leaf := decoded.value;
    var firstError: Option<Error> := None;
    var i := 0;
    while i < |cas|
      invariant 0 <= i <= |cas|
      invariant Search(f, leaf, cas[i..], t, firstError) == ChainResult(f, leafDer, cas, t)
    {
      assert cas[i..][1..] == cas[i + 1..];
      var verdict := TryValidateAgainstCa(f, leaf, cas[i], t);
      if verdict.Ok? && verdict.value.Some? {
        return Ok(verdict.value.value);
      }
      if verdict.Err? && firstError.None? {
        firstError := Some(verdict.error);
      }
      i := i + 1;
    }
    return Err(if firstError.Some? then firstError.value else UntrustedCertificate);
  }

  /** The search succeeds exactly when some authority validates, with the first one's result. */
  lemma {:induction false} SearchAccepts(
    f: Foreign, leaf: Certificate, cas: seq<CertificateAuthority>, t: int, firstError: Option<Error>)
    ensures var r := Search(f, leaf, cas, t, firstError);
            && (r.Ok? <==> exists i :: 0 <= i < |cas| && Validates(f, leaf, cas[i], t))
            && (forall i :: 0 <= i < |cas| && Validates(f, leaf, cas[i], t)
                            && (forall j :: 0 <= j < i ==> !Validates(f, leaf, cas[j], t))
                            ==> r == Ok(Verdict(f, leaf, cas[i], t).value.value))
  {
    if cas != [] {
      var rest, first := cas[1..], Verdict(f, leaf, cas[0], t);
      SearchAccepts(f, leaf, rest, t, if first.Err? && firstError.None? then Some(first.error) else firstError);
      assert forall i :: 1 <= i < |cas| ==> cas[i] == rest[i - 1];
      assert forall i :: 0 <= i < |rest| ==> rest[i] == cas[i + 1];
    }
  }

  lemma {:induction false} SearchKeepsError(
    f: Foreign, leaf: Certificate, cas: seq<CertificateAuthority>, t: int, e: Error)
    ensures var r := Search(f, leaf, cas, t, Some(e)); r.Err? ==> r.error == e
  {
    if cas != [] {
      SearchKeepsError(f, leaf, cas[1..], t, e);
    }
  }

  /** A failed search reports the first failing authority's error, or that none claims the leaf. */
  lemma {:induction false} SearchRejects(f: Foreign, leaf: Certificate, cas: seq<CertificateAuthority>, t: int)
    requires Search(f, leaf, cas, t, None).Err?
    ensures var e := Search(f, leaf, cas, t, None).error;
            && ((forall i :: 0 <= i < |cas| ==> Verdict(f, leaf, cas[i], t).Ok?) ==> e == UntrustedCertificate)
            && (forall i :: 0 <= i < |cas| && Verdict(f, leaf, cas[i], t).Err?
                            && (forall j :: 0 <= j < i ==> Verdict(f, leaf, cas[j], t).Ok?)
                            ==> e == Verdict(f, leaf, cas[i], t).error)
  {
    if cas != [] {
      var rest, first := cas[1..], Verdict(f, leaf, cas[0], t);
      if first.Err? {
        SearchKeepsError(f, leaf, rest, t, first.error);
      } else {
        SearchRejects(f, leaf, rest, t);
      }
      assert forall i :: 1 <= i < |cas| ==> cas[i] == rest[i - 1];
      assert forall i :: 0 <= i < |rest| ==> rest[i] == cas[i + 1];
    }
  }

  // ---- main results ----

  /** A leaf is accepted exactly when some authority of the store vouches for it in full. */
  lemma AcceptedIffVouched(f: Foreign, leafDer: Bytes, cas: seq<CertificateAuthority>, t: int)
    ensures ChainResult(f, leafDer, cas, t).Ok?
        <==> f.decodeCertificate(leafDer).Some?
             && exists ca, chain :: ca in cas && Vouches(f, ca, f.decodeCertificate(leafDer).value, t, chain)
  {
    var decoded := f.decodeCertificate(leafDer);
    if decoded.Some? {
      var leaf := decoded.value;
      SearchAccepts(f, leaf, cas, t, None);
      if ChainResult(f, leafDer, cas, t).Ok? {
        var i :| 0 <= i < |cas| && Validates(f, leaf, cas[i], t);
        VerdictExact(f, leaf, cas[i], t);
        var chain :| Vouches(f, cas[i], leaf, t, chain);
        assert cas[i] in cas;
      }
      if exists ca, chain :: ca in cas && Vouches(f, ca, leaf, t, chain) {
        var ca, chain :| ca in cas && Vouches(f, ca, leaf, t, chain);
        var i :| 0 <= i < |cas| && cas[i] == ca;
        VerdictExact(f, leaf, cas[i], t);
        assert Validates(f, leaf, cas[i], t);
      }
    }
  }

  /** Adding authorities, and so also reordering them, never turns an acceptance into a rejection. */
  lemma AcceptanceMonotone(
    f: Foreign, leafDer: Bytes, cas: seq<CertificateAuthority>, more: seq<CertificateAuthority>, t: int)
    requires forall ca :: ca in cas ==> ca in more
    requires ChainResult(f, leafDer, cas, t).Ok?
    ensures ChainResult(f, leafDer, more, t).Ok?
  {
    AcceptedIffVouched(f, leafDer, cas, t);
    AcceptedIffVouched(f, leafDer, more, t);
  }

  /** Acceptance depends only on which authorities are listed. */
  lemma AcceptanceIgnoresOrder(
    f: Foreign, leafDer: Bytes, cas: seq<CertificateAuthority>, other: seq<CertificateAuthority>, t: int)
    requires multiset(cas) == multiset(other)
    ensures ChainResult(f, leafDer, cas, t).Ok? <==> ChainResult(f, leafDer, other, t).Ok?
  {
    assert forall ca :: ca in cas <==> ca in multiset(cas);
    assert forall ca :: ca in other <==> ca in multiset(other);
    if ChainResult(f, leafDer, cas, t).Ok? {
      AcceptanceMonotone(f, leafDer, cas, other, t);
    }
    if ChainResult(f, leafDer, other, t).Ok? {
      AcceptanceMonotone(f, leafDer, other, cas, t);
    }
  }

  /** The reported leaf comes from the first authority that validates, and a rejection names the first
      failing authority's error, or that none claims the leaf. */
  lemma ResultIsFirst(f: Foreign, leafDer: Bytes, cas: seq<CertificateAuthority>, t: int, i: nat)
    requires f.decodeCertificate(leafDer).Some? && i < |cas|
    ensures var leaf := f.decodeCertificate(leafDer).value;
            var r := ChainResult(f, leafDer, cas, t);
            && (Validates(f, leaf, cas[i], t) && (forall j :: 0 <= j < i ==> !Validates(f, leaf, cas[j], t))
                ==> r == Ok(Verdict(f, leaf, cas[i], t).value.value))
            && (r.Err? && Verdict(f, leaf, cas[i], t).Err?
                && (forall j :: 0 <= j < i ==> Verdict(f, leaf, cas[j], t).Ok?)
                ==> r.error == Verdict(f, leaf, cas[i], t).error)
            && (r.Err? && (forall j :: 0 <= j < |cas| ==> Verdict(f, leaf, cas[j], t).Ok?)
                ==> r.error == UntrustedCertificate)
  {
    var leaf := f.decodeCertificate(leafDer).value;
    SearchAccepts(f, leaf, cas, t, None);
    if Search(f, leaf, cas, t, None).Err? {
      SearchRejects(f, leaf, cas, t);
    }
  }

  /** Authority `i` vouches for the leaf by this chain, and none before it does by any. */
  ghost predicate FirstVoucher(
    f: Foreign, leaf: Certificate, cas: seq<CertificateAuthority>, t: int, i: nat, chain: seq<Certificate>)
  {
    i < |cas| && Vouches(f, cas[i], leaf, t, chain)
    && forall j, c :: 0 <= j < i ==> !Vouches(f, cas[j], leaf, t, c)
  }

  /** What the search reports of a leaf and its chain. */
  function LeafBy(leaf: Certificate, chain: seq<Certificate>): ValidatedLeaf
    requires chain != []
  {
    ValidatedLeaf(leaf, leaf.spki, chain[0].spki, |chain|)
  }

  lemma VouchesIsValidates(f: Foreign, leaf: Certificate, ca: CertificateAuthority, t: int)
    ensures Validates(f, leaf, ca, t) <==> exists chain :: Vouches(f, ca, leaf, t, chain)
  {
    VerdictExact(f, leaf, ca, t);
  }

  /** The first authority that vouches decides the result. */
  lemma FirstVoucherDecides(
    f: Foreign, leafDer: Bytes, cas: seq<CertificateAuthority>, t: int, leaf: Certificate, i: nat,
    chain: seq<Certificate>)
    requires f.decodeCertificate(leafDer) == Some(leaf) && FirstVoucher(f, leaf, cas, t, i, chain)
    ensures chain != [] && ChainResult(f, leafDer, cas, t) == Ok(LeafBy(leaf, chain))
  {
    VerdictExact(f, leaf, cas[i], t);
    forall j | 0 <= j < i
      ensures !Validates(f, leaf, cas[j], t)
    {
      VouchesIsValidates(f, leaf, cas[j], t);
    }
    ResultIsFirst(f, leafDer, cas, t, i);
  }

  lemma {:induction false} SearchFindsVoucher(
    f: Foreign, leaf: Certificate, cas: seq<CertificateAuthority>, t: int, firstError: Option<Error>)
    returns (i: nat, chain: seq<Certificate>)
    requires Search(f, leaf, cas, t, firstError).Ok?
    ensures FirstVoucher(f, leaf, cas, t, i, chain)
  {
    var verdict := Verdict(f, leaf, cas[0], t);
    VouchesIsValidates(f, leaf, cas[0], t);
    if verdict.Ok? && verdict.value.Some? {
      i := 0;
      chain :| Vouches(f, cas[0], leaf, t, chain);
    } else {
      var rest := cas[1..];
      i, chain := SearchFindsVoucher(
        f, leaf, rest, t, if verdict.Err? && firstError.None? then Some(verdict.error) else firstError);
      assert forall j :: 1 <= j < |cas| ==> cas[j] == rest[j - 1];
      i := i + 1;
    }
  }

  /** An accepted leaf comes with the first authority of the store that vouches for it, and the reported keys
      are the leaf's own and its direct issuer's. */
  lemma AcceptedHasChain(f: Foreign, leafDer: Bytes, cas: seq<CertificateAuthority>, t: int)
    returns (i: nat, chain: seq<Certificate>)
    requires ChainResult(f, leafDer, cas, t).Ok?
    ensures f.decodeCertificate(leafDer).Some?
    ensures var leaf := f.decodeCertificate(leafDer).value;
            FirstVoucher(f, leaf, cas, t, i, chain) && chain != []
            && ChainResult(f, leafDer, cas, t) == Ok(LeafBy(leaf, chain))
  {
    var leaf := f.decodeCertificate(leafDer).value;
    i, chain := SearchFindsVoucher(f, leaf, cas, t, None);
    FirstVoucherDecides(f, leafDer, cas, t, leaf, i, chain);
  }

  // ---- errors of the chain step ----

  /** What no authority's own checks report: that nobody claims the leaf, or the signer's errors. */
  predicate IsNoAuthorityError(e: Error) {
    e == UntrustedCertificate || IsSignerError(e)
  }

  predicate IsDecodingError(e: Error) {
    e == DuplicateExtension || e == InvalidDer
  }

  lemma DecodingErrors<T>(extensions: seq<Extension>, oid: Bytes, decode: Bytes -> Option<T>)
    ensures var r := FindDecoded(extensions, oid, decode);
            r.Err? ==> IsDecodingError(r.error)
  {
  }

  lemma LeafProfileErrorsAre(f: Foreign, leaf: Certificate, e: Error)
    requires LeafProfile(f, leaf) == Err(e)
    ensures || e == UnknownCriticalExtension || e == InvalidBasicConstraints || e == MissingKeyUsage
            || e == MissingCodeSigningEku
            || FindDecoded(leaf.extensions, ID_CE_BASIC_CONSTRAINTS, f.decodeBasicConstraints) == Err(e)
            || FindDecoded(leaf.extensions, ID_CE_KEY_USAGE, f.decodeKeyUsage) == Err(e)
            || FindDecoded(leaf.extensions, ID_CE_EXT_KEY_USAGE, f.decodeExtKeyUsage) == Err(e)
  {
  }

  lemma LeafProfileErrors(f: Foreign, leaf: Certificate)
    ensures LeafProfile(f, leaf).Err? ==> !IsNoAuthorityError(LeafProfile(f, leaf).error)
  {
    if LeafProfile(f, leaf).Err? {
      LeafProfileErrorsAre(f, leaf, LeafProfile(f, leaf).error);
      DecodingErrors(leaf.extensions, ID_CE_BASIC_CONSTRAINTS, f.decodeBasicConstraints);
      DecodingErrors(leaf.extensions, ID_CE_KEY_USAGE, f.decodeKeyUsage);
      DecodingErrors(leaf.extensions, ID_CE_EXT_KEY_USAGE, f.decodeExtKeyUsage);
    }
  }

  lemma CaProfileErrorsAre(f: Foreign, c: Certificate, subordinates: nat, e: Error)
    requires CaProfile(f, c, subordinates) == Err(e)
    ensures || e == UnknownCriticalExtension || e == InvalidBasicConstraints || e == PathLengthExceeded
            || e == MissingKeyUsage
            || FindDecoded(c.extensions, ID_CE_BASIC_CONSTRAINTS, f.decodeBasicConstraints) == Err(e)
            || FindDecoded(c.extensions, ID_CE_KEY_USAGE, f.decodeKeyUsage) == Err(e)
  {
  }

  lemma CaProfileErrors(f: Foreign, c: Certificate, subordinates: nat)
    ensures var r := CaProfile(f, c, subordinates); r.Err? ==> !IsNoAuthorityError(r.error)
  {
    if CaProfile(f, c, subordinates).Err? {
      CaProfileErrorsAre(f, c, subordinates, CaProfile(f, c, subordinates).error);
      DecodingErrors(c.extensions, ID_CE_BASIC_CONSTRAINTS, f.decodeBasicConstraints);
      DecodingErrors(c.extensions, ID_CE_KEY_USAGE, f.decodeKeyUsage);
    }
  }

  lemma LinkErrorsAre(f: Foreign, leaf: Certificate, chain: seq<Certificate>, i: nat, t: int, e: Error)
    requires i < |chain| && LinkCheck(f, leaf, chain, i, t) == Err(e)
    ensures || e == IssuerNameMismatch || e == OutsideCertificateValidity || e == UnsupportedKeyAlgorithm
            || e == UnsupportedSignatureAlgorithm || e == SignatureInvalid || CaProfile(f, chain[i], i) == Err(e)
  {
  }

  lemma LinkErrors(f: Foreign, leaf: Certificate, chain: seq<Certificate>, i: nat, t: int)
    requires i < |chain|
    ensures var r := LinkCheck(f, leaf, chain, i, t); r.Err? ==> !IsNoAuthorityError(r.error)
  {
    if LinkCheck(f, leaf, chain, i, t).Err? {
      LinkErrorsAre(f, leaf, chain, i, t, LinkCheck(f, leaf, chain, i, t).error);
      CaProfileErrors(f, chain[i], i);
    }
  }

  lemma {:induction false} FirstFailureIsOne(checks: seq<Check>)
    ensures FirstFailure(checks).Err? ==> exists k :: 0 <= k < |checks| && checks[k] == FirstFailure(checks)
  {
    if checks != [] {
      FirstFailureIsOne(checks[1..]);
      assert forall k :: 0 <= k < |checks| - 1 ==> checks[1..][k] == checks[k + 1];
    }
  }

  lemma WalkErrors(f: Foreign, leaf: Certificate, chain: seq<Certificate>, t: int)
    ensures Walk(f, leaf, chain, t).Err? ==> !IsNoAuthorityError(Walk(f, leaf, chain, t).error)
  {
    var links := Links(f, leaf, chain, t);
    FirstFailureIsOne(links);
    if FirstFailure(links).Err? {
      var k :| 0 <= k < |links| && links[k] == FirstFailure(links);
      LinkErrors(f, leaf, chain, k, t);
    }
  }

  lemma VerdictErrorsAre(f: Foreign, leaf: Certificate, ca: CertificateAuthority, t: int, e: Error)
    requires Verdict(f, leaf, ca, t) == Err(e)
    ensures || e == InvalidDer || e == OutsideCaValidity || e == OutsideCertificateValidity
            || LeafProfile(f, leaf) == Err(e)
            || (DecodeChain(f, ca.certificates).Some?
                && Walk(f, leaf, DecodeChain(f, ca.certificates).value, t) == Err(e))
  {
  }

  lemma VerdictErrors(f: Foreign, leaf: Certificate, ca: CertificateAuthority, t: int)
    ensures Verdict(f, leaf, ca, t).Err? ==> !IsNoAuthorityError(Verdict(f, leaf, ca, t).error)
  {
    var r := Verdict(f, leaf, ca, t);
    if r.Err? {
      VerdictErrorsAre(f, leaf, ca, t, r.error);
      LeafProfileErrors(f, leaf);
      if DecodeChain(f, ca.certificates).Some? {
        WalkErrors(f, leaf, DecodeChain(f, ca.certificates).value, t);
      }
    }
  }

  lemma {:induction false} SearchErrors(
    f: Foreign, leaf: Certificate, cas: seq<CertificateAuthority>, t: int, firstError: Option<Error>)
    requires firstError.Some? ==> !IsSignerError(firstError.value)
    ensures var r := Search(f, leaf, cas, t, firstError); r.Err? ==> !IsSignerError(r.error)
  {
    if cas != [] {
      var verdict := Verdict(f, leaf, cas[0], t);
      VerdictErrors(f, leaf, cas[0], t);
      SearchErrors(
        f, leaf, cas[1..], t, if verdict.Err? && firstError.None? then Some(verdict.error) else firstError);
    }
  }

  /** A failed chain never blames the signer's signature or identity. */
  lemma ChainErrors(f: Foreign, leafDer: Bytes, cas: seq<CertificateAuthority>, t: int)
    ensures var r := ChainResult(f, leafDer, cas, t); r.Err? ==> !IsSignerError(r.error)
  {
    if f.decodeCertificate(leafDer).Some? {
      SearchErrors(f, f.decodeCertificate(leafDer).value, cas, t, None);
    }
  }

  /** The authority's chain decodes, and its first certificate, if any, does not bear the leaf's issuer name. */
  ghost predicate IsNoIssuer(f: Foreign, ca: CertificateAuthority, leaf: Certificate) {
    exists chain: seq<Certificate> ::
      DecodesTo(f, ca.certificates, chain) && (chain == [] || chain[0].subject != leaf.issuer)
  }

  lemma NoIssuerExact(f: Foreign, leaf: Certificate, ca: CertificateAuthority, t: int)
    ensures Verdict(f, leaf, ca, t) == Ok(None) <==> IsNoIssuer(f, ca, leaf)
  {
    DecodeChainExact(f, ca.certificates);
  }

  lemma {:induction false} SearchUntrusted(
    f: Foreign, leaf: Certificate, cas: seq<CertificateAuthority>, t: int, firstError: Option<Error>)
    requires firstError.Some? ==> !IsNoAuthorityError(firstError.value)
    ensures Search(f, leaf, cas, t, firstError) == Err(UntrustedCertificate)
        <==> firstError.None? && forall i :: 0 <= i < |cas| ==> Verdict(f, leaf, cas[i], t) == Ok(None)
  {
    if cas != [] {
      var rest, verdict := cas[1..], Verdict(f, leaf, cas[0], t);
      VerdictErrors(f, leaf, cas[0], t);
      SearchUntrusted(
        f, leaf, rest, t, if verdict.Err? && firstError.None? then Some(verdict.error) else firstError);
      assert forall i :: 1 <= i < |cas| ==> cas[i] == rest[i - 1];
      assert forall i :: 0 <= i < |rest| ==> rest[i] == cas[i + 1];
    }
  }

  /** The leaf is called untrusted exactly when it decodes, every authority's chain decodes, and none of them
      starts with a certificate that bears the leaf's issuer name. */
  lemma UntrustedExact(f: Foreign, leafDer: Bytes, cas: seq<CertificateAuthority>, t: int)
    ensures ChainResult(f, leafDer, cas, t) == Err(UntrustedCertificate)
        <==> && f.decodeCertificate(leafDer).Some?
             && forall i :: 0 <= i < |cas| ==> IsNoIssuer(f, cas[i], f.decodeCertificate(leafDer).value)
  {
    if f.decodeCertificate(leafDer).Some? {
      var leaf := f.decodeCertificate(leafDer).value;
      SearchUntrusted(f, leaf, cas, t, None);
      forall i | 0 <= i < |cas|
        ensures Verdict(f, leaf, cas[i], t) == Ok(None) <==> IsNoIssuer(f, cas[i], leaf)
      {
        NoIssuerExact(f, leaf, cas[i], t);
      }
    }
  }

  // ---- which error a rejection names ----

  predicate Repeated(extensions: seq<Extension>, oid: Bytes) {
    exists i, j :: 0 <= i < j < |extensions| && extensions[i].oid == oid && extensions[j].oid == oid
  }

  /** Why an extension cannot be read: it is repeated, or it occurs once and does not decode. */
  ghost function ExtensionError<T(!new)>(c: Certificate, oid: Bytes, decode: Bytes -> Option<T>): Option<Error> {
    if Repeated(c.extensions, oid) then Some(DuplicateExtension)
    else if exists e :: OccursOnce(c.extensions, oid, e) && decode(e.value).None? then Some(InvalidDer)
    else None
  }

  lemma OnceOrRepeated(extensions: seq<Extension>, oid: Bytes)
    ensures |WithOid(extensions, oid)| > 1 <==> Repeated(extensions, oid)
  {
    WithOidCases(extensions, oid);
    if !Absent(extensions, oid) && !Repeated(extensions, oid) {
      var k :| 0 <= k < |extensions| && extensions[k].oid == oid;
      assert OccursOnce(extensions, oid, extensions[k]);
    }
  }

  lemma FindDecodedErrors<T(!new)>(c: Certificate, oid: Bytes, decode: Bytes -> Option<T>)
    ensures var r := FindDecoded(c.extensions, oid, decode);
            ExtensionError(c, oid, decode) == if r.Err? then Some(r.error) else None
  {
    OnceOrRepeated(c.extensions, oid);
    FindExtensionExact(c.extensions, oid);
    var found := FindExtension(c.extensions, oid);
    if found.Ok? && found.value.Some? {
      assert OccursOnce(c.extensions, oid, found.value.value);
    }
  }

  predicate IsAuthority(bc: BasicConstraints) { bc.ca }

  /** The first fault of a leaf's profile, in the source's order, or none. */
  ghost function LeafFault(f: Foreign, c: Certificate): Option<Error> {
    if !NoUnknownCritical(c.extensions, KNOWN_LEAF_EXTENSIONS) then Some(UnknownCriticalExtension)
    else if ExtensionError(c, ID_CE_BASIC_CONSTRAINTS, f.decodeBasicConstraints).Some? then
      ExtensionError(c, ID_CE_BASIC_CONSTRAINTS, f.decodeBasicConstraints)
    else if CarriesSome(c, ID_CE_BASIC_CONSTRAINTS, f.decodeBasicConstraints, IsAuthority) then
      Some(InvalidBasicConstraints)
    else if ExtensionError(c, ID_CE_KEY_USAGE, f.decodeKeyUsage).Some? then
      ExtensionError(c, ID_CE_KEY_USAGE, f.decodeKeyUsage)
    else if !CarriesSome(c, ID_CE_KEY_USAGE, f.decodeKeyUsage, SignsData) then Some(MissingKeyUsage)
    else if ExtensionError(c, ID_CE_EXT_KEY_USAGE, f.decodeExtKeyUsage).Some? then
      ExtensionError(c, ID_CE_EXT_KEY_USAGE, f.decodeExtKeyUsage)
    else if !CarriesSome(c, ID_CE_EXT_KEY_USAGE, f.decodeExtKeyUsage, SignsCode) then Some(MissingCodeSigningEku)
    else None
  }

  /** One extension as a check of a profile: what cannot be read, and what is read or absent. */
  lemma ReadExtension<T(!new)>(c: Certificate, oid: Bytes, decode: Bytes -> Option<T>, holds: T -> bool)
    ensures var r := FindDecoded(c.extensions, oid, decode);
            && ExtensionError(c, oid, decode) == ErrorOf(r)
            && (CarriesSome(c, oid, decode, holds) <==> r.Ok? && r.value.Some? && holds(r.value.value))
  {
    FindDecodedErrors(c, oid, decode);
    FoundWith(c, oid, decode, holds);
  }

  lemma LeafProfileFault(f: Foreign, c: Certificate)
    ensures ErrorOf(LeafProfile(f, c)) == LeafFault(f, c)
  {
    ReadExtension(c, ID_CE_BASIC_CONSTRAINTS, f.decodeBasicConstraints, IsAuthority);
    ReadExtension(c, ID_CE_KEY_USAGE, f.decodeKeyUsage, SignsData);
    ReadExtension(c, ID_CE_EXT_KEY_USAGE, f.decodeExtKeyUsage, SignsCode);
  }

  /** The first fault of an authority's profile at its position, or none. */
  ghost function CaFault(f: Foreign, c: Certificate, subordinates: nat): Option<Error> {
    if !NoUnknownCritical(c.extensions, KNOWN_CA_CRITICAL_EXTENSIONS) then Some(UnknownCriticalExtension)
    else if ExtensionError(c, ID_CE_BASIC_CONSTRAINTS, f.decodeBasicConstraints).Some? then
      ExtensionError(c, ID_CE_BASIC_CONSTRAINTS, f.decodeBasicConstraints)
    else if !CarriesSome(c, ID_CE_BASIC_CONSTRAINTS, f.decodeBasicConstraints, IsAuthority) then
      Some(InvalidBasicConstraints)
    else if exists bc :: Carries(c, ID_CE_BASIC_CONSTRAINTS, f.decodeBasicConstraints, bc)
                         && bc.pathLen.Some? && bc.pathLen.value < subordinates then Some(PathLengthExceeded)
    else if ExtensionError(c, ID_CE_KEY_USAGE, f.decodeKeyUsage).Some? then
      ExtensionError(c, ID_CE_KEY_USAGE, f.decodeKeyUsage)
    else if !CarriesSome(c, ID_CE_KEY_USAGE, f.decodeKeyUsage, SignsCertificates) then Some(MissingKeyUsage)
    else None
  }

  lemma CaProfileFault(f: Foreign, c: Certificate, subordinates: nat)
    ensures ErrorOf(CaProfile(f, c, subordinates)) == CaFault(f, c, subordinates)
  {
    FindDecodedExact(c, ID_CE_BASIC_CONSTRAINTS, f.decodeBasicConstraints);
    ReadExtension(c, ID_CE_BASIC_CONSTRAINTS, f.decodeBasicConstraints, IsAuthority);
    ReadExtension(c, ID_CE_KEY_USAGE, f.decodeKeyUsage, SignsCertificates);
  }

  /** The first fault of one link: its name, its time, the authority's profile, its signature. */
  ghost function LinkFault(f: Foreign, leaf: Certificate, chain: seq<Certificate>, i: nat, t: int): Option<Error>
    requires i < |chain|
  {
    var signee := if i == 0 then leaf else chain[i - 1];
    if chain[i].subject != signee.issuer then Some(IssuerNameMismatch)
    else if !InValidity(chain[i], t) then Some(OutsideCertificateValidity)
    else if CaFault(f, chain[i], i).Some? then CaFault(f, chain[i], i)
    else if f.keyFromSpki(chain[i].spki).None? then Some(UnsupportedKeyAlgorithm)
    else if SignedBy(f, signee, chain[i]) then None
    else if signee.signatureAlgorithm
              == (if f.keyFromSpki(chain[i].spki).value.P256? then ECDSA_WITH_SHA_256 else ECDSA_WITH_SHA_384) then
      Some(SignatureInvalid)
    else Some(UnsupportedSignatureAlgorithm)
  }

  lemma LinkCheckFault(f: Foreign, leaf: Certificate, chain: seq<Certificate>, i: nat, t: int)
    requires i < |chain|
    ensures ErrorOf(LinkCheck(f, leaf, chain, i, t)) == LinkFault(f, leaf, chain, i, t)
  {
    CaProfileFault(f, chain[i], i);
  }

  lemma {:induction false} FirstFailureAt(checks: seq<Check>, k: nat)
    requires k < |checks| && checks[k].Err? && forall j :: 0 <= j < k ==> checks[j].Ok?
    ensures FirstFailure(checks) == checks[k]
  {
    if k > 0 {
      FirstFailureAt(checks[1..], k - 1);
    }
  }

  /** A walk fails with the fault of its first link that is not valid. */
  lemma WalkFault(f: Foreign, leaf: Certificate, chain: seq<Certificate>, t: int, k: nat)
    requires k < |chain| && !ValidLink(f, leaf, chain, k, t)
    requires forall j :: 0 <= j < k ==> ValidLink(f, leaf, chain, j, t)
    ensures ErrorOf(Walk(f, leaf, chain, t)) == LinkFault(f, leaf, chain, k, t)
  {
    var links := Links(f, leaf, chain, t);
    forall j | 0 <= j <= k
      ensures links[j].Ok? <==> ValidLink(f, leaf, chain, j, t)
    {
      LinkCheckExact(f, leaf, chain, j, t);
    }
    FirstFailureAt(links, k);
    LinkCheckFault(f, leaf, chain, k, t);
  }

  /** An authority that bears the leaf's issuer name fails it for its own window, the leaf's window, the leaf's
      profile or the walk, in this order. */
  lemma VerdictFault(f: Foreign, leaf: Certificate, ca: CertificateAuthority, t: int, chain: seq<Certificate>)
    requires DecodesTo(f, ca.certificates, chain) && chain != [] && chain[0].subject == leaf.issuer
    ensures ErrorOf(Verdict(f, leaf, ca, t))
         == if !WithinValidFor(t, ca.validFor) then Some(OutsideCaValidity)
            else if !InValidity(leaf, t) then Some(OutsideCertificateValidity)
            else if LeafFault(f, leaf).Some? then LeafFault(f, leaf)
            else ErrorOf(Walk(f, leaf, chain, t))
  {
    DecodeChainExact(f, ca.certificates);
    LeafProfileFault(f, leaf);
  }
}
