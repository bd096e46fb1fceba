/** Identity parsing and policy matching of src/policy_match.rs: authenticated claims
    against the caller's GitHub policy. Strings are their UTF-8 bytes. */
module Identity {
  import opened Basics
  import opened Glob
  import opened Primitives
  import opened TextCodecs

  const SLASH: byte := 47
  const AT: byte := 64
  const EXPECTED_ISSUER := Ascii("https://token.actions.githubusercontent.com")
  const GITHUB_URI_PREFIX := Ascii("https://github.com/")
  const WORKFLOW_PATH_PREFIX := Ascii(".github/workflows/")

  // ---- ASCII case ----

  function LowerByte(b: byte): byte {
    if 65 <= b <= 90 then b + 32 else b
  }

  function Lower(s: Bytes): Bytes {
    seq(|s|, i requires 0 <= i < |s| => LowerByte(s[i]))
  }

  /** `eq_ignore_ascii_case` */
  predicate EqIgnoreCase(a: Bytes, b: Bytes) {
    Lower(a) == Lower(b)
  }

  /** The same byte, or one the lowercase form of the other as an ASCII letter. */
  predicate SameLetter(x: byte, y: byte) {
    x == y || ('A' as int <= x <= 'Z' as int && y == x + 32) || ('A' as int <= y <= 'Z' as int && x == y + 32)
  }

  /** Texts that differ in the case of ASCII letters only. */
  predicate SameButCase(a: Bytes, b: Bytes) {
    |a| == |b| && forall i :: 0 <= i < |a| ==> SameLetter(a[i], b[i])
  }

  /** The comparison accepts exactly such texts, and no other folding. */
  lemma EqIgnoreCaseExact(a: Bytes, b: Bytes)
    ensures EqIgnoreCase(a, b) <==> SameButCase(a, b)
  {
    assert |Lower(a)| == |a| && |Lower(b)| == |b|;
    if EqIgnoreCase(a, b) {
      forall i | 0 <= i < |a|
        ensures SameLetter(a[i], b[i])
      {
        assert Lower(a)[i] == Lower(b)[i];
      }
    }
  }

  // ---- repository URIs ----

  /** `https://github.com/{owner}/{name}` and nothing more. */
  ghost predicate IsRepoUri(uri: Bytes, owner: Bytes, name: Bytes) {
    owner != [] && name != [] && SLASH !in owner && SLASH !in name &&
    uri == GITHUB_URI_PREFIX + (owner + [SLASH] + name)
  }

  /** `parse_github_repo_uri` */
  function ParseRepoUri(uri: Bytes): Option<(Bytes, Bytes)> {
    if !(GITHUB_URI_PREFIX <= uri) then None
    else
      var rest := uri[|GITHUB_URI_PREFIX|..];
      var k := IndexOf(rest, SLASH);
      if k == |rest| || k == 0 || k + 1 == |rest| || SLASH in rest[k + 1..] then None
      else Some((rest[..k], rest[k + 1..]))
  }

  lemma SplitFacts(s: Bytes, c: byte)
    ensures var k := IndexOf(s, c);
            c !in s[..k] && (k < |s| ==> s == s[..k] + [c] + s[k + 1..]) && (k == |s| ==> c !in s)
  {
  }

  lemma PrefixAndRest(prefix: Bytes, s: Bytes)
    requires prefix <= s
    ensures s == prefix + s[|prefix|..]
  {
  }

  lemma StripPrefix(prefix: Bytes, rest: Bytes)
    ensures prefix <= prefix + rest && (prefix + rest)[|prefix|..] == rest
  {
  }

  /** The parser accepts exactly the URIs of that form and returns their only reading. */
  lemma RepoUriExact(uri: Bytes, owner: Bytes, name: Bytes)
    ensures ParseRepoUri(uri) == Some((owner, name)) <==> IsRepoUri(uri, owner, name)
  {
    if ParseRepoUri(uri) == Some((owner, name)) {
      var rest := uri[|GITHUB_URI_PREFIX|..];
      SplitFacts(rest, SLASH);
      PrefixAndRest(GITHUB_URI_PREFIX, uri);
    }
    if IsRepoUri(uri, owner, name) {
      StripPrefix(GITHUB_URI_PREFIX, owner + [SLASH] + name);
      SplitAt(owner, SLASH, name);
    }
  }

  // ---- signer URIs ----

  datatype SignerUri = SignerUri(owner: Bytes, name: Bytes, path: Bytes, gitRef: Bytes)

  /** What stands before the revision: owner, name and a workflow path. */
  ghost predicate IsWorkflow(text: Bytes, owner: Bytes, name: Bytes, path: Bytes) {
    owner != [] && name != [] && SLASH !in owner && SLASH !in name && WORKFLOW_PATH_PREFIX <= path &&
    text == owner + [SLASH] + (name + [SLASH] + path)
  }

  /** `https://github.com/{owner}/{name}/{path}@{ref}` with a single `@`. */
  ghost predicate IsSignerUri(uri: Bytes, p: SignerUri) {
    exists text :: IsWorkflow(text, p.owner, p.name, p.path) && AT !in text && AT !in p.gitRef && p.gitRef != []
                   && uri == GITHUB_URI_PREFIX + (text + [AT] + p.gitRef)
  }

  /** The three pieces of `splitn(3, '/')`, with the source's checks on them. */
  function ParseWorkflow(text: Bytes): Option<(Bytes, Bytes, Bytes)> {
    var k := IndexOf(text, SLASH);
    if k == 0 || k == |text| then None
    else
      var rest := text[k + 1..];
      var j := IndexOf(rest, SLASH);
      if j == 0 || j == |rest| || !(WORKFLOW_PATH_PREFIX <= rest[j + 1..]) then None
      else Some((text[..k], rest[..j], rest[j + 1..]))
  }

  lemma WorkflowExact(text: Bytes, owner: Bytes, name: Bytes, path: Bytes)
    ensures ParseWorkflow(text) == Some((owner, name, path)) <==> IsWorkflow(text, owner, name, path)
  {
    if ParseWorkflow(text) == Some((owner, name, path)) {
      var k := IndexOf(text, SLASH);
      SplitFacts(text, SLASH);
      SplitFacts(text[k + 1..], SLASH);
    }
    if IsWorkflow(text, owner, name, path) {
      SplitAt(owner, SLASH, name + [SLASH] + path);
      SplitAt(name, SLASH, path);
    }
  }

  /** `parse_signer_san_uri` */
  function ParseSignerUri(uri: Bytes): Option<SignerUri> {
    if !(GITHUB_URI_PREFIX <= uri) then None
    else
      var rest := uri[|GITHUB_URI_PREFIX|..];
      var k := IndexOf(rest, AT);
      if k == |rest| || AT in rest[k + 1..] || rest[k + 1..] == [] then None
      else
        var workflow := ParseWorkflow(rest[..k]);
        if workflow.None? then None
        else Some(SignerUri(workflow.value.0, workflow.value.1, workflow.value.2, rest[k + 1..]))
  }

  lemma SignerUriSound(uri: Bytes, p: SignerUri)
    requires ParseSignerUri(uri) == Some(p)
    ensures IsSignerUri(uri, p)
  {
    var rest := uri[|GITHUB_URI_PREFIX|..];
    var k := IndexOf(rest, AT);
    SplitFacts(rest, AT);
    WorkflowExact(rest[..k], p.owner, p.name, p.path);
    PrefixAndRest(GITHUB_URI_PREFIX, uri);
  }

  lemma SignerUriComplete(uri: Bytes, p: SignerUri)
    requires IsSignerUri(uri, p)
    ensures ParseSignerUri(uri) == Some(p)
  {
    var text :| IsWorkflow(text, p.owner, p.name, p.path) && AT !in text && AT !in p.gitRef && p.gitRef != []
                && uri == GITHUB_URI_PREFIX + (text + [AT] + p.gitRef);
    StripPrefix(GITHUB_URI_PREFIX, text + [AT] + p.gitRef);
    SplitAt(text, AT, p.gitRef);
    WorkflowExact(text, p.owner, p.name, p.path);
  }

  /** The parser accepts exactly the URIs of that form; the reading is unique because it is returned. */
  lemma SignerUriExact(uri: Bytes, p: SignerUri)
    ensures ParseSignerUri(uri) == Some(p) <==> IsSignerUri(uri, p)
  {
    if ParseSignerUri(uri) == Some(p) {
      SignerUriSound(uri, p);
    }
    if IsSignerUri(uri, p) {
      SignerUriComplete(uri, p);
    }
  }

  /** A signer URI has at most one decomposition. */
  lemma SignerUriUnique(uri: Bytes, p: SignerUri, q: SignerUri)
    requires IsSignerUri(uri, p) && IsSignerUri(uri, q)
    ensures p == q
  {
    SignerUriExact(uri, p);
    SignerUriExact(uri, q);
  }

  // ---- policies and claims ----

  datatype RepositoryIdentity = RepositoryIdentity(
    owner: Bytes, name: Bytes, ownerId: Option<nat>, repositoryId: Option<nat>)

  datatype RefPolicy = Exact(gitRef: Bytes) | Pattern(glob: Bytes)
  datatype RevisionPolicy = Any | Ref(gitRef: Bytes) | Sha(sha: Bytes)

  datatype SourcePolicy = SourcePolicy(repository: RepositoryIdentity, gitRef: RefPolicy, commit: Option<Bytes>)
  datatype SignerPolicy = SignerPolicy(repository: RepositoryIdentity, path: Bytes, revision: RevisionPolicy)
  datatype GithubPolicy = GithubPolicy(source: SourcePolicy, signer: SignerPolicy)

  datatype Claims = Claims(
    issuer: Option<Bytes>, sourceUri: Option<Bytes>, sourceOwnerId: Option<Bytes>, sourceRepositoryId: Option<Bytes>,
    sourceRef: Option<Bytes>, sourceDigest: Option<Bytes>, sanUri: Option<Bytes>, signerDigest: Option<Bytes>)

  datatype MatchedIdentity = MatchedIdentity(
    issuer: Bytes, sourceOwner: Bytes, sourceName: Bytes, sourceRef: Bytes,
    signerOwner: Bytes, signerName: Bytes, workflowPath: Bytes)

  predicate SameRepository(owner: Bytes, name: Bytes, expected: RepositoryIdentity) {
    EqIgnoreCase(owner, expected.owner) && EqIgnoreCase(name, expected.name)
  }

  function RequireClaim(claim: Option<Bytes>): Result<Bytes, Error> {
    if claim.Some? then Ok(claim.value) else Err(MissingIdentityClaim)
  }

  /** `check_pinned_id`: a pinned id must be the claim's exact decimal text. */
  function CheckPinnedId(expected: Option<nat>, found: Option<Bytes>, mismatch: Error): Check {
    if expected.None? then Pass
    else if found.None? then Err(MissingIdentityClaim)
    else Require(found.value == Decimal(expected.value), mismatch)
  }

  /** A pinned hash must be the claim's hexadecimal text, in either case. */
  function CheckPinnedHash(expected: Option<Bytes>, found: Option<Bytes>, mismatch: Error): Check {
    if expected.None? then Pass
    else if found.None? then Err(MissingIdentityClaim)
    else Require(EqIgnoreCase(found.value, Hex(expected.value)), mismatch)
  }

  ghost predicate RefAccepts(policy: RefPolicy, gitRef: Bytes) {
    match policy
    case Exact(expected) => gitRef == expected
    case Pattern(glob) => Matches(glob, gitRef)
  }

  /** `check_ref_policy` */
  method CheckRefPolicy(gitRef: Bytes, policy: RefPolicy) returns (ok: bool)
    ensures ok <==> RefAccepts(policy, gitRef)
  {
    match policy {
      case Exact(expected) =>
        return gitRef == expected;
      case Pattern(glob) =>
        var matched, _ := GlobMatch(glob, gitRef);
        return matched;
    }
  }

  /** `check_signer_revision` */
  function CheckRevision(claims: Claims, signer: SignerUri, policy: RevisionPolicy): Check {
    match policy
    case Any => Pass
    case Ref(expected) => Require(signer.gitRef == expected, SignerRevisionMismatch)
    case Sha(expected) => CheckPinnedHash(Some(expected), claims.signerDigest, SignerRevisionMismatch)
  }

  // ---- match_policy ----

  /** The source half: repository, pinned ids, ref, pinned commit; returns owner, name and ref. */
  ghost function SourceResult(claims: Claims, policy: SourcePolicy): Result<(Bytes, Bytes, Bytes), Error> {
    if claims.sourceUri.None? then Err(MissingIdentityClaim)
    else if ParseRepoUri(claims.sourceUri.value).None? then Err(MalformedIdentityClaim)
    else
      var (owner, name) := ParseRepoUri(claims.sourceUri.value).value;
      var ownerId := CheckPinnedId(policy.repository.ownerId, claims.sourceOwnerId, SourceOwnerIdMismatch);
      var repoId := CheckPinnedId(
        policy.repository.repositoryId, claims.sourceRepositoryId, SourceRepositoryIdMismatch);
      var commit := CheckPinnedHash(policy.commit, claims.sourceDigest, SourceCommitMismatch);
      if !SameRepository(owner, name, policy.repository) then Err(SourceRepositoryMismatch)
      else if ownerId.Err? then Err(ownerId.error)
      else if repoId.Err? then Err(repoId.error)
      else if claims.sourceRef.None? then Err(MissingIdentityClaim)
      else if !RefAccepts(policy.gitRef, claims.sourceRef.value) then Err(SourceRefMismatch)
      else if commit.Err? then Err(commit.error)
      else Ok((owner, name, claims.sourceRef.value))
  }

  /** The checks on a signer that has been read: repository, workflow path, revision. */
  function SignerChecks(claims: Claims, policy: SignerPolicy, signer: SignerUri): Result<SignerUri, Error> {
    var revision := CheckRevision(claims, signer, policy.revision);
    if !SameRepository(signer.owner, signer.name, policy.repository) then Err(SignerRepositoryMismatch)
    else if signer.path != policy.path then Err(SignerWorkflowPathMismatch)
    else if revision.Err? then Err(revision.error)
    else Ok(signer)
  }

  /** The signer half. */
  function SignerResult(claims: Claims, policy: SignerPolicy): Result<SignerUri, Error> {
    if claims.sanUri.None? then Err(MissingIdentityClaim)
    else
      var signer := ParseSignerUri(claims.sanUri.value);
      if signer.None? then Err(MalformedIdentityClaim) else SignerChecks(claims, policy, signer.value)
  }

  ghost function PolicyResult(claims: Claims, policy: GithubPolicy): Result<MatchedIdentity, Error> {
    if claims.issuer.None? then Err(MissingIdentityClaim)
    else if claims.issuer.value != EXPECTED_ISSUER then Err(IssuerMismatch)
    else
      var source := SourceResult(claims, policy.source);
      var signer := SignerResult(claims, policy.signer);
      if source.Err? then Err(source.error)
      else if signer.Err? then Err(signer.error)
      else Ok(MatchedIdentity(claims.issuer.value, source.value.0, source.value.1, source.value.2,
                              signer.value.owner, signer.value.name, signer.value.path))
  }

  method MatchSource(claims: Claims, policy: SourcePolicy) returns (r: Result<(Bytes, Bytes, Bytes), Error>)
    ensures r == SourceResult(claims, policy)
  {
    var uri := RequireClaim(claims.sourceUri);
    if uri.Err? { return Err(uri.error); }
    var parsed := ParseRepoUri(uri.value);
    if parsed.None? { return Err(MalformedIdentityClaim); }
    var (owner, name) := parsed.value;
    if !SameRepository(owner, name, policy.repository) { return Err(SourceRepositoryMismatch); }
    var ownerId := CheckPinnedId(policy.repository.ownerId, claims.sourceOwnerId, SourceOwnerIdMismatch);
    if ownerId.Err? { return Err(ownerId.error); }
    var repoId := CheckPinnedId(policy.repository.repositoryId, claims.sourceRepositoryId, SourceRepositoryIdMismatch);
    if repoId.Err? { return Err(repoId.error); }
    var gitRef := RequireClaim(claims.sourceRef);
    if gitRef.Err? { return Err(gitRef.error); }
    var refOk := CheckRefPolicy(gitRef.value, policy.gitRef);
    if !refOk { return Err(SourceRefMismatch); }
    var commit := CheckPinnedHash(policy.commit, claims.sourceDigest, SourceCommitMismatch);
    if commit.Err? { return Err(commit.error); }
    return Ok((owner, name, gitRef.value));
  }

  /** `match_policy` */
  method MatchPolicy(claims: Claims, policy: GithubPolicy) returns (r: Result<MatchedIdentity, Error>)
    ensures r == PolicyResult(claims, policy)
  {
    var issuer := RequireClaim(claims.issuer);
    if issuer.Err? { return Err(issuer.error); }
    if issuer.value != EXPECTED_ISSUER { return Err(IssuerMismatch); }
    var source := MatchSource(claims, policy.source);
    if source.Err? { return Err(source.error); }
    var signer := SignerResult(claims, policy.signer);
    if signer.Err? { return Err(signer.error); }
    return Ok(MatchedIdentity(issuer.value, source.value.0, source.value.1, source.value.2,
                              signer.value.owner, signer.value.name, signer.value.path));
  }

  // ---- what acceptance means ----

  ghost predicate SourceAccepted(claims: Claims, policy: SourcePolicy, owner: Bytes, name: Bytes) {
    && claims.sourceUri.Some? && IsRepoUri(claims.sourceUri.value, owner, name)
    && SameButCase(owner, policy.repository.owner) && SameButCase(name, policy.repository.name)
    && (policy.repository.ownerId.Some? ==> claims.sourceOwnerId == Some(Decimal(policy.repository.ownerId.value)))
    && (policy.repository.repositoryId.Some? ==>
          claims.sourceRepositoryId == Some(Decimal(policy.repository.repositoryId.value)))
    && claims.sourceRef.Some?
    && (policy.gitRef.Exact? ==> claims.sourceRef.value == policy.gitRef.gitRef)
    && (policy.gitRef.Pattern? ==> Matches(policy.gitRef.glob, claims.sourceRef.value))
    && (policy.commit.Some? ==>
          claims.sourceDigest.Some? && SameButCase(claims.sourceDigest.value, Hex(policy.commit.value)))
  }

  ghost predicate RevisionAccepted(claims: Claims, p: SignerUri, policy: RevisionPolicy) {
    && (policy.Ref? ==> p.gitRef == policy.gitRef)
    && (policy.Sha? ==> claims.signerDigest.Some? && SameButCase(claims.signerDigest.value, Hex(policy.sha)))
  }

  ghost predicate SignerAccepted(claims: Claims, policy: SignerPolicy, p: SignerUri) {
    && claims.sanUri.Some? && IsSignerUri(claims.sanUri.value, p)
    && SameButCase(p.owner, policy.repository.owner) && SameButCase(p.name, policy.repository.name)
    && p.path == policy.path && RevisionAccepted(claims, p, policy.revision)
  }

  lemma SameRepositoryExact(owner: Bytes, name: Bytes, expected: RepositoryIdentity)
    ensures SameRepository(owner, name, expected)
        <==> SameButCase(owner, expected.owner) && SameButCase(name, expected.name)
  {
    EqIgnoreCaseExact(owner, expected.owner);
    EqIgnoreCaseExact(name, expected.name);
  }

  lemma PinnedHashExact(expected: Bytes, found: Option<Bytes>, mismatch: Error)
    ensures CheckPinnedHash(Some(expected), found, mismatch).Ok?
        <==> found.Some? && SameButCase(found.value, Hex(expected))
  {
    if found.Some? {
      EqIgnoreCaseExact(found.value, Hex(expected));
    }
  }

  lemma SourceExact(claims: Claims, policy: SourcePolicy)
    ensures SourceResult(claims, policy).Ok? <==> exists o, n :: SourceAccepted(claims, policy, o, n)
    ensures forall o, n :: SourceAccepted(claims, policy, o, n) ==>
              claims.sourceRef.Some? && SourceResult(claims, policy) == Ok((o, n, claims.sourceRef.value))
  {
    if policy.commit.Some? {
      PinnedHashExact(policy.commit.value, claims.sourceDigest, SourceCommitMismatch);
    }
    if claims.sourceUri.Some? {
      var uri := claims.sourceUri.value;
      if ParseRepoUri(uri).Some? {
        var (o, n) := ParseRepoUri(uri).value;
        RepoUriExact(uri, o, n);
        SameRepositoryExact(o, n, policy.repository);
        if SourceResult(claims, policy).Ok? {
          assert SourceAccepted(claims, policy, o, n);
        }
      }
      forall o, n | SourceAccepted(claims, policy, o, n)
        ensures SourceResult(claims, policy) == Ok((o, n, claims.sourceRef.value))
      {
        RepoUriExact(uri, o, n);
      }
    }
  }

  lemma RevisionExact(claims: Claims, p: SignerUri, policy: RevisionPolicy)
    ensures CheckRevision(claims, p, policy).Ok? <==> RevisionAccepted(claims, p, policy)
  {
    if policy.Sha? {
      PinnedHashExact(policy.sha, claims.signerDigest, SignerRevisionMismatch);
    }
  }

  lemma SignerChecksExact(claims: Claims, policy: SignerPolicy, p: SignerUri)
    ensures SignerChecks(claims, policy, p).Ok?
        <==> && SameButCase(p.owner, policy.repository.owner) && SameButCase(p.name, policy.repository.name)
             && p.path == policy.path && RevisionAccepted(claims, p, policy.revision)
    ensures SignerChecks(claims, policy, p).Ok? ==> SignerChecks(claims, policy, p).value == p
  {
    SameRepositoryExact(p.owner, p.name, policy.repository);
    RevisionExact(claims, p, policy.revision);
  }

  lemma SignerExact(claims: Claims, policy: SignerPolicy)
    ensures forall p :: SignerResult(claims, policy) == Ok(p) <==> SignerAccepted(claims, policy, p)
  {
    forall p
      ensures SignerResult(claims, policy) == Ok(p) <==> SignerAccepted(claims, policy, p)
    {
      if claims.sanUri.Some? {
        SignerUriExact(claims.sanUri.value, p);
        SignerChecksExact(claims, policy, p);
        var read := ParseSignerUri(claims.sanUri.value);
        if read.Some? {
          SignerChecksExact(claims, policy, read.value);
        }
      }
    }
  }

  /** The policy accepts exactly the claims that satisfy every requirement it states. */
  lemma PolicyExact(claims: Claims, policy: GithubPolicy)
    ensures PolicyResult(claims, policy).Ok?
        <==> && claims.issuer == Some(EXPECTED_ISSUER)
             && (exists o, n :: SourceAccepted(claims, policy.source, o, n))
             && (exists p :: SignerAccepted(claims, policy.signer, p))
    ensures forall o, n, p ::
              claims.issuer == Some(EXPECTED_ISSUER) && SourceAccepted(claims, policy.source, o, n)
              && SignerAccepted(claims, policy.signer, p) ==>
                claims.sourceRef.Some? && PolicyResult(claims, policy)
                  == Ok(MatchedIdentity(EXPECTED_ISSUER, o, n, claims.sourceRef.value, p.owner, p.name, p.path))
  {
    SourceExact(claims, policy.source);
    SignerExact(claims, policy.signer);
    if SignerResult(claims, policy.signer).Ok? {
      assert SignerAccepted(claims, policy.signer, SignerResult(claims, policy.signer).value);
    }
  }

  // ---- which error a rejection names ----

  ghost predicate SomeRepoUri(uri: Bytes) {
    exists o, n :: IsRepoUri(uri, o, n)
  }

  ghost predicate SomeSignerUri(uri: Bytes) {
    exists p :: IsSignerUri(uri, p)
  }

  /** A pinned id that the claims lack or contradict. */
  function IdFault(pinned: Option<nat>, claim: Option<Bytes>, mismatch: Error): (e: Option<Error>)
    ensures e.Some? ==> e.value == MissingIdentityClaim || e.value == mismatch
  {
    if pinned.None? || claim == Some(Decimal(pinned.value)) then None
    else if claim.None? then Some(MissingIdentityClaim) else Some(mismatch)
  }

  /** A pinned hash that the claims lack or contradict, whatever its case. */
  function HashFault(pinned: Option<Bytes>, claim: Option<Bytes>, mismatch: Error): (e: Option<Error>)
    ensures e.Some? ==> e.value == MissingIdentityClaim || e.value == mismatch
  {
    if pinned.None? then None
    else if claim.None? then Some(MissingIdentityClaim)
    else if SameButCase(claim.value, Hex(pinned.value)) then None else Some(mismatch)
  }

  /** The first fault of the source claims under a reading of their URI, or none. */
  ghost function SourceFaultAt(claims: Claims, policy: SourcePolicy, owner: Bytes, name: Bytes): Option<Error> {
    var expected := policy.repository;
    if !SameButCase(owner, expected.owner) || !SameButCase(name, expected.name) then Some(SourceRepositoryMismatch)
    else if IdFault(expected.ownerId, claims.sourceOwnerId, SourceOwnerIdMismatch).Some? then
      IdFault(expected.ownerId, claims.sourceOwnerId, SourceOwnerIdMismatch)
    else if IdFault(expected.repositoryId, claims.sourceRepositoryId, SourceRepositoryIdMismatch).Some? then
      IdFault(expected.repositoryId, claims.sourceRepositoryId, SourceRepositoryIdMismatch)
    else if claims.sourceRef.None? then Some(MissingIdentityClaim)
    else if !RefAccepts(policy.gitRef, claims.sourceRef.value) then Some(SourceRefMismatch)
    else HashFault(policy.commit, claims.sourceDigest, SourceCommitMismatch)
  }

  /** The first fault of the source claims, or none. */
  ghost function SourceFault(claims: Claims, policy: SourcePolicy): Option<Error> {
    if claims.sourceUri.None? then Some(MissingIdentityClaim)
    else if !SomeRepoUri(claims.sourceUri.value) then Some(MalformedIdentityClaim)
    else
      var owner, name :| IsRepoUri(claims.sourceUri.value, owner, name);
      SourceFaultAt(claims, policy, owner, name)
  }

  lemma PinnedHashFault(pinned: Option<Bytes>, claim: Option<Bytes>, mismatch: Error)
    ensures ErrorOf(CheckPinnedHash(pinned, claim, mismatch)) == HashFault(pinned, claim, mismatch)
  {
    if pinned.Some? {
      PinnedHashExact(pinned.value, claim, mismatch);
    }
  }

  lemma PinnedIdFault(pinned: Option<nat>, claim: Option<Bytes>, mismatch: Error)
    ensures ErrorOf(CheckPinnedId(pinned, claim, mismatch)) == IdFault(pinned, claim, mismatch)
  {
  }

  lemma SourceFaultOf(claims: Claims, policy: SourcePolicy, owner: Bytes, name: Bytes)
    requires claims.sourceUri.Some? && ParseRepoUri(claims.sourceUri.value) == Some((owner, name))
    ensures ErrorOf(SourceResult(claims, policy)) == SourceFaultAt(claims, policy, owner, name)
  {
    SameRepositoryExact(owner, name, policy.repository);
    PinnedIdFault(policy.repository.ownerId, claims.sourceOwnerId, SourceOwnerIdMismatch);
    PinnedIdFault(policy.repository.repositoryId, claims.sourceRepositoryId, SourceRepositoryIdMismatch);
    PinnedHashFault(policy.commit, claims.sourceDigest, SourceCommitMismatch);
  }

  lemma SourceFaultExact(claims: Claims, policy: SourcePolicy)
    ensures ErrorOf(SourceResult(claims, policy)) == SourceFault(claims, policy)
  {
    if claims.sourceUri.Some? {
      var uri := claims.sourceUri.value;
      if SomeRepoUri(uri) {
        var o, n :| IsRepoUri(uri, o, n);
        forall p, q | IsRepoUri(uri, p, q)
          ensures p == o && q == n
        {
          RepoUriExact(uri, o, n);
          RepoUriExact(uri, p, q);
        }
        RepoUriExact(uri, o, n);
        SourceFaultOf(claims, policy, o, n);
      } else if ParseRepoUri(uri).Some? {
        RepoUriExact(uri, ParseRepoUri(uri).value.0, ParseRepoUri(uri).value.1);
      }
    }
  }

  /** The first fault of the signer's claims under a reading of their URI, or none. */
  ghost function SignerFaultAt(claims: Claims, policy: SignerPolicy, p: SignerUri): Option<Error> {
    var expected := policy.repository;
    if !SameButCase(p.owner, expected.owner) || !SameButCase(p.name, expected.name) then
      Some(SignerRepositoryMismatch)
    else if p.path != policy.path then Some(SignerWorkflowPathMismatch)
    else if policy.revision.Ref? && p.gitRef != policy.revision.gitRef then Some(SignerRevisionMismatch)
    else HashFault(if policy.revision.Sha? then Some(policy.revision.sha) else None, claims.signerDigest,
                   SignerRevisionMismatch)
  }

  /** The first fault of the signer's claims, or none. */
  ghost function SignerFault(claims: Claims, policy: SignerPolicy): Option<Error> {
    if claims.sanUri.None? then Some(MissingIdentityClaim)
    else if !SomeSignerUri(claims.sanUri.value) then Some(MalformedIdentityClaim)
    else
      var p :| IsSignerUri(claims.sanUri.value, p);
      SignerFaultAt(claims, policy, p)
  }

  lemma RevisionFault(claims: Claims, p: SignerUri, policy: RevisionPolicy)
    ensures ErrorOf(CheckRevision(claims, p, policy))
         == if policy.Ref? && p.gitRef != policy.gitRef then Some(SignerRevisionMismatch)
            else HashFault(if policy.Sha? then Some(policy.sha) else None, claims.signerDigest, SignerRevisionMismatch)
  {
    PinnedHashFault(if policy.Sha? then Some(policy.sha) else None, claims.signerDigest, SignerRevisionMismatch);
  }

  lemma SignerFaultOf(claims: Claims, policy: SignerPolicy, p: SignerUri)
    ensures ErrorOf(SignerChecks(claims, policy, p)) == SignerFaultAt(claims, policy, p)
  {
    SameRepositoryExact(p.owner, p.name, policy.repository);
    RevisionFault(claims, p, policy.revision);
  }

  lemma SignerFaultExact(claims: Claims, policy: SignerPolicy)
    ensures ErrorOf(SignerResult(claims, policy)) == SignerFault(claims, policy)
  {
    if claims.sanUri.Some? {
      var uri := claims.sanUri.value;
      if SomeSignerUri(uri) {
        var p :| IsSignerUri(uri, p);
        forall q | IsSignerUri(uri, q)
          ensures q == p
        {
          SignerUriUnique(uri, p, q);
        }
        SignerUriExact(uri, p);
        SignerFaultOf(claims, policy, p);
      } else if ParseSignerUri(uri).Some? {
        SignerUriExact(uri, ParseSignerUri(uri).value);
      }
    }
  }

  /** A rejection names the first fault: the issuer's, else the source's, else the signer's. */
  lemma PolicyFault(claims: Claims, policy: GithubPolicy)
    ensures ErrorOf(PolicyResult(claims, policy))
         == if claims.issuer.None? then Some(MissingIdentityClaim)
            else if claims.issuer.value != EXPECTED_ISSUER then Some(IssuerMismatch)
            else if SourceFault(claims, policy.source).Some? then SourceFault(claims, policy.source)
            else SignerFault(claims, policy.signer)
  {
    SourceFaultExact(claims, policy.source);
    SignerFaultExact(claims, policy.signer);
  }

  lemma SourceFaultsAre(claims: Claims, policy: SourcePolicy, owner: Bytes, name: Bytes, e: Error)
    requires SourceFaultAt(claims, policy, owner, name) == Some(e)
    ensures || e == SourceRepositoryMismatch || e == SourceOwnerIdMismatch || e == SourceRepositoryIdMismatch
            || e == SourceRefMismatch || e == SourceCommitMismatch || e == MissingIdentityClaim
  {
  }

  lemma SourceErrors(claims: Claims, policy: SourcePolicy, e: Error)
    requires SourceFault(claims, policy) == Some(e)
    ensures || e == SourceRepositoryMismatch || e == SourceOwnerIdMismatch || e == SourceRepositoryIdMismatch
            || e == SourceRefMismatch || e == SourceCommitMismatch || e == MissingIdentityClaim
            || e == MalformedIdentityClaim
  {
    if claims.sourceUri.Some? && SomeRepoUri(claims.sourceUri.value) {
      var owner, name :| SourceFaultAt(claims, policy, owner, name) == Some(e);
      SourceFaultsAre(claims, policy, owner, name, e);
    }
  }

  lemma SignerErrors(claims: Claims, policy: SignerPolicy, e: Error)
    requires SignerFault(claims, policy) == Some(e)
    ensures || e == MissingIdentityClaim || e == MalformedIdentityClaim || e == SignerRepositoryMismatch
            || e == SignerWorkflowPathMismatch || e == SignerRevisionMismatch
  {
  }

  /** The policy step reports errors of identity only. */
  lemma PolicyErrors(claims: Claims, policy: GithubPolicy)
    ensures var r := PolicyResult(claims, policy); r.Err? ==> IsIdentityError(r.error)
  {
    PolicyFault(claims, policy);
    if SourceFault(claims, policy.source).Some? {
      SourceErrors(claims, policy.source, SourceFault(claims, policy.source).value);
    }
    if SignerFault(claims, policy.signer).Some? {
      SignerErrors(claims, policy.signer, SignerFault(claims, policy.signer).value);
    }
  }

  // ---- invariances ----

  datatype Repo = Repo(owner: Bytes, name: Bytes)

  ghost predicate IsRepo(uri: Bytes, r: Repo) {
    IsRepoUri(uri, r.owner, r.name)
  }

  /** Owners and names that differ in ASCII case only. */
  predicate Recased(r: Repo, s: Repo) {
    SameButCase(r.owner, s.owner) && SameButCase(r.name, s.name)
  }

  /** Two repository URIs, absent ones included, that differ only in the case of owner and name. */
  ghost predicate RecasedRepoClaim(u: Option<Bytes>, v: Option<Bytes>) {
    u == v || (u.Some? && v.Some? && exists r, s :: IsRepo(u.value, r) && IsRepo(v.value, s) && Recased(r, s))
  }

  predicate RecasedParts(p: SignerUri, q: SignerUri) {
    Recased(Repo(p.owner, p.name), Repo(q.owner, q.name)) && p.path == q.path && p.gitRef == q.gitRef
  }

  /** Two signer URIs, absent ones included, that differ only in the case of owner and name. */
  ghost predicate RecasedSignerClaim(u: Option<Bytes>, v: Option<Bytes>) {
    u == v || (u.Some? && v.Some? &&
               exists p, q :: IsSignerUri(u.value, p) && IsSignerUri(v.value, q) && RecasedParts(p, q))
  }

  ghost predicate RecasedClaims(a: Claims, b: Claims) {
    b == a.(sourceUri := b.sourceUri, sanUri := b.sanUri)
    && RecasedRepoClaim(a.sourceUri, b.sourceUri) && RecasedSignerClaim(a.sanUri, b.sanUri)
  }

  predicate RecasedIdentity(p: RepositoryIdentity, q: RepositoryIdentity) {
    q == p.(owner := q.owner, name := q.name) && Recased(Repo(p.owner, p.name), Repo(q.owner, q.name))
  }

  /** Policies that differ only in the case of the owners and names they require. */
  predicate RecasedPolicy(p: GithubPolicy, q: GithubPolicy) {
    && q.source == p.source.(repository := q.source.repository)
    && q.signer == p.signer.(repository := q.signer.repository)
    && RecasedIdentity(p.source.repository, q.source.repository)
    && RecasedIdentity(p.signer.repository, q.signer.repository)
  }

  /** Two acceptances, or two rejections with one error. */
  predicate SameVerdict<T, U>(r: Result<T, Error>, s: Result<U, Error>) {
    if r.Err? then s.Err? && s.error == r.error else s.Ok?
  }

  lemma SameRepositoryRecased(r: Repo, s: Repo, p: RepositoryIdentity, q: RepositoryIdentity)
    requires Recased(r, s) && RecasedIdentity(p, q)
    ensures SameRepository(r.owner, r.name, p) <==> SameRepository(s.owner, s.name, q)
  {
    EqIgnoreCaseExact(r.owner, s.owner);
    EqIgnoreCaseExact(r.name, s.name);
    EqIgnoreCaseExact(p.owner, q.owner);
    EqIgnoreCaseExact(p.name, q.name);
  }

  /** Both URIs are malformed, or both are read, with parts that differ in case only. */
  lemma RecasedRepoParses(u: Bytes, v: Bytes)
    requires RecasedRepoClaim(Some(u), Some(v))
    ensures ParseRepoUri(u).Some? <==> ParseRepoUri(v).Some?
    ensures ParseRepoUri(u).Some? ==>
              var (o, n) := ParseRepoUri(u).value;
              var (o', n') := ParseRepoUri(v).value;
              Recased(Repo(o, n), Repo(o', n'))
  {
    if u != v {
      var r, s :| IsRepo(u, r) && IsRepo(v, s) && Recased(r, s);
      RepoUriExact(u, r.owner, r.name);
      RepoUriExact(v, s.owner, s.name);
    }
  }

  lemma RecasedSignerParses(u: Bytes, v: Bytes)
    requires RecasedSignerClaim(Some(u), Some(v))
    ensures ParseSignerUri(u).Some? <==> ParseSignerUri(v).Some?
    ensures ParseSignerUri(u).Some? ==> RecasedParts(ParseSignerUri(u).value, ParseSignerUri(v).value)
  {
    if u != v {
      var p, q :| IsSignerUri(u, p) && IsSignerUri(v, q) && RecasedParts(p, q);
      SignerUriExact(u, p);
      SignerUriExact(v, q);
    }
  }

  lemma SourceIgnoresCase(a: Claims, b: Claims, p: SourcePolicy, q: SourcePolicy)
    requires b == a.(sourceUri := b.sourceUri, sanUri := b.sanUri) && RecasedRepoClaim(a.sourceUri, b.sourceUri)
    requires q == p.(repository := q.repository) && RecasedIdentity(p.repository, q.repository)
    ensures SameVerdict(SourceResult(a, p), SourceResult(b, q))
  {
    if a.sourceUri.Some? {
      var u, v := a.sourceUri.value, b.sourceUri.value;
      RecasedRepoParses(u, v);
      if ParseRepoUri(u).Some? {
        var (o, n) := ParseRepoUri(u).value;
        var (o', n') := ParseRepoUri(v).value;
        SameRepositoryRecased(Repo(o, n), Repo(o', n'), p.repository, q.repository);
      }
    }
  }

  lemma SignerChecksIgnoreCase(a: Claims, b: Claims, p: SignerPolicy, q: SignerPolicy, x: SignerUri, y: SignerUri)
    requires b.signerDigest == a.signerDigest && RecasedParts(x, y)
    requires q == p.(repository := q.repository) && RecasedIdentity(p.repository, q.repository)
    ensures SameVerdict(SignerChecks(a, p, x), SignerChecks(b, q, y))
  {
    SameRepositoryRecased(Repo(x.owner, x.name), Repo(y.owner, y.name), p.repository, q.repository);
  }

  lemma SignerIgnoresCase(a: Claims, b: Claims, p: SignerPolicy, q: SignerPolicy)
    requires b == a.(sourceUri := b.sourceUri, sanUri := b.sanUri) && RecasedSignerClaim(a.sanUri, b.sanUri)
    requires q == p.(repository := q.repository) && RecasedIdentity(p.repository, q.repository)
    ensures SameVerdict(SignerResult(a, p), SignerResult(b, q))
  {
    if a.sanUri.Some? {
      var u, v := a.sanUri.value, b.sanUri.value;
      RecasedSignerParses(u, v);
      if ParseSignerUri(u).Some? {
        SignerChecksIgnoreCase(a, b, p, q, ParseSignerUri(u).value, ParseSignerUri(v).value);
      }
    }
  }

  /** Neither acceptance nor the reported error depends on the ASCII case of owners and names, in the claims
      or in the policy. */
  lemma VerdictIgnoresCase(a: Claims, b: Claims, p: GithubPolicy, q: GithubPolicy)
    requires RecasedClaims(a, b) && RecasedPolicy(p, q)
    ensures SameVerdict(PolicyResult(a, p), PolicyResult(b, q))
  {
    SourceIgnoresCase(a, b, p.source, q.source);
    SignerIgnoresCase(a, b, p.signer, q.signer);
  }

  lemma StarFreeSource(claims: Claims, policy: SourcePolicy, r: Bytes)
    requires STAR !in r
    ensures SourceResult(claims, policy.(gitRef := Pattern(r))) == SourceResult(claims, policy.(gitRef := Exact(r)))
  {
    if claims.sourceRef.Some? {
      StarFreeIsExact(r, claims.sourceRef.value);
    }
  }

  /** A glob without a star is an exact ref. */
  lemma StarFreePatternIsExact(claims: Claims, policy: GithubPolicy, r: Bytes)
    requires STAR !in r
    ensures PolicyResult(claims, policy.(source := policy.source.(gitRef := Pattern(r))))
         == PolicyResult(claims, policy.(source := policy.source.(gitRef := Exact(r))))
  {
    StarFreeSource(claims, policy.source, r);
  }
}
