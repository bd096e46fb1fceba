/** `verify_checkpoint` of src/rekor.rs: the anchor comparisons and the two-pass search for
    a signature line with the trusted key's hint that verifies. Key names only order
    the attempts. */
module CheckpointSearch {
  import opened Basics
  import opened Checkpoint
  import opened CheckpointForm
  import opened Primitives

  const HTTPS := Ascii("https://")

  /** `checkpoint_key_hint`: the log's own checkpoint key id, or else its key's digest, cut to four bytes. */
  function KeyHint(hash: HashFn, log: TransparencyLog): Option<Bytes> {
    match log.checkpointKeyId
    case Some(id) => if |id| < KEY_HINT_BYTES then None else Some(id[..KEY_HINT_BYTES])
    case None => Some(hash(log.publicKey)[..KEY_HINT_BYTES])
  }

  /** The hint is the first four bytes of the log's own id, or of its key's digest when it has none; an id
      shorter than that has no hint. */
  lemma KeyHintExact(hash: HashFn, log: TransparencyLog, hint: Bytes)
    ensures KeyHint(hash, log) == Some(hint)
        <==> |hint| == 4 && hint <= (match log.checkpointKeyId case Some(id) => id case None => hash(log.publicKey))
  {
    var id := match log.checkpointKeyId case Some(id) => id case None => hash(log.publicKey);
    if |hint| == 4 && hint <= id {
      assert id[..4] == hint;
    }
  }

  /** `checkpoint_key_name_matches` */
  predicate NameMatches(log: TransparencyLog, name: Bytes) {
    name == log.baseUrl || (HTTPS <= log.baseUrl && name == log.baseUrl[|HTTPS|..])
  }

  /** A name has priority exactly when it is the base URL, with or without its one leading scheme. */
  lemma NameMatchesExact(log: TransparencyLog, name: Bytes)
    ensures NameMatches(log, name) <==> log.baseUrl == name || log.baseUrl == HTTPS + name
  {
    if HTTPS <= log.baseUrl {
      assert log.baseUrl == HTTPS + log.baseUrl[|HTTPS|..];
    }
    assert (HTTPS + name)[|HTTPS|..] == name;
  }

  /** What the search needs to know of a signature line. */
  datatype Query = Query(f: Foreign, key: Key, noteBody: Bytes, log: TransparencyLog, hint: Bytes)

  predicate Hinted(q: Query, s: CheckpointSignature) {
    s.keyHint == q.hint
  }

  predicate Verifies(q: Query, s: CheckpointSignature) {
    q.f.verifyDer(q.key, q.noteBody, s.signature)
  }

  /** The lines with the right hint whose name does, or does not, get priority, in order. */
  function Candidates(q: Query, signatures: seq<CheckpointSignature>, priority: bool): seq<CheckpointSignature> {
    if signatures == [] then []
    else
      var rest := Candidates(q, signatures[1..], priority);
      if Hinted(q, signatures[0]) && NameMatches(q.log, signatures[0].name) == priority
      then [signatures[0]] + rest else rest
  }

  /** The signature checks an `any` over candidates makes: it stops at the first success. */
  function Attempts(q: Query, candidates: seq<CheckpointSignature>): nat {
    if candidates == [] then 0
    else if Verifies(q, candidates[0]) then 1
    else 1 + Attempts(q, candidates[1..])
  }

  predicate AnyVerifies(q: Query, candidates: seq<CheckpointSignature>) {
    if candidates == [] then false
    else Verifies(q, candidates[0]) || AnyVerifies(q, candidates[1..])
  }

  /** The two passes: the second runs only when the first found nothing. */
  predicate TwoPass(q: Query, signatures: seq<CheckpointSignature>) {
    AnyVerifies(q, Candidates(q, signatures, true)) || AnyVerifies(q, Candidates(q, signatures, false))
  }

  function TwoPassAttempts(q: Query, signatures: seq<CheckpointSignature>): nat {
    var first := Candidates(q, signatures, true);
    Attempts(q, first) + if AnyVerifies(q, first) then 0 else Attempts(q, Candidates(q, signatures, false))
  }

  function HintCount(q: Query, signatures: seq<CheckpointSignature>): (n: nat)
    ensures n <= |signatures|
  {
    if signatures == [] then 0
    else (if Hinted(q, signatures[0]) then 1 else 0) + HintCount(q, signatures[1..])
  }

  // ---- the search refines the simple one ----

  lemma {:induction false} AnyOfCandidates(q: Query, signatures: seq<CheckpointSignature>, priority: bool)
    ensures AnyVerifies(q, Candidates(q, signatures, priority))
        <==> exists s :: s in signatures && Hinted(q, s) && NameMatches(q.log, s.name) == priority && Verifies(q, s)
  {
    if signatures != [] {
      AnyOfCandidates(q, signatures[1..], priority);
      HeadAndTail(signatures);
      var rest := Candidates(q, signatures[1..], priority);
      assert ([signatures[0]] + rest)[1..] == rest;
    }
  }

  /** The search accepts exactly when some line with the right hint verifies. */
  lemma TwoPassIsSimple(q: Query, signatures: seq<CheckpointSignature>)
    ensures TwoPass(q, signatures) <==> exists s :: s in signatures && Hinted(q, s) && Verifies(q, s)
  {
    AnyOfCandidates(q, signatures, true);
    AnyOfCandidates(q, signatures, false);
  }

  lemma {:induction false} CandidateCounts(q: Query, signatures: seq<CheckpointSignature>)
    ensures |Candidates(q, signatures, true)| + |Candidates(q, signatures, false)| == HintCount(q, signatures)
  {
    if signatures != [] {
      CandidateCounts(q, signatures[1..]);
    }
  }

  lemma {:induction false} AttemptsBound(q: Query, candidates: seq<CheckpointSignature>)
    ensures Attempts(q, candidates) <= |candidates|
    ensures !AnyVerifies(q, candidates) ==> Attempts(q, candidates) == |candidates|
  {
    if candidates != [] {
      AttemptsBound(q, candidates[1..]);
    }
  }

  /** The signature checks never exceed the lines with the right hint, and a line without priority is
      checked only after every line with priority has failed. */
  lemma WorkIsBounded(q: Query, signatures: seq<CheckpointSignature>)
    ensures TwoPassAttempts(q, signatures) <= HintCount(q, signatures) <= |signatures|
    ensures TwoPassAttempts(q, signatures) > |Candidates(q, signatures, true)| ==>
              forall s :: s in signatures && Hinted(q, s) && NameMatches(q.log, s.name) ==> !Verifies(q, s)
  {
    CandidateCounts(q, signatures);
    AttemptsBound(q, Candidates(q, signatures, true));
    AttemptsBound(q, Candidates(q, signatures, false));
    AnyOfCandidates(q, signatures, true);
  }

  /** A signature block without its names. */
  function Nameless(signatures: seq<CheckpointSignature>): seq<(Bytes, Bytes)> {
    seq(|signatures|, i requires 0 <= i < |signatures| => (signatures[i].keyHint, signatures[i].signature))
  }

  lemma FoundInNameless(q: Query, signatures: seq<CheckpointSignature>)
    ensures TwoPass(q, signatures)
        <==> exists p :: p in Nameless(signatures) && p.0 == q.hint && q.f.verifyDer(q.key, q.noteBody, p.1)
  {
    TwoPassIsSimple(q, signatures);
    var pairs := Nameless(signatures);
    if TwoPass(q, signatures) {
      var s :| s in signatures && Hinted(q, s) && Verifies(q, s);
      var i :| 0 <= i < |signatures| && signatures[i] == s;
      assert pairs[i] in pairs;
    }
    if exists p :: p in pairs && p.0 == q.hint && q.f.verifyDer(q.key, q.noteBody, p.1) {
      var p :| p in pairs && p.0 == q.hint && q.f.verifyDer(q.key, q.noteBody, p.1);
      var i :| 0 <= i < |pairs| && pairs[i] == p;
      assert signatures[i] in signatures && Hinted(q, signatures[i]) && Verifies(q, signatures[i]);
    }
  }

  /** Renaming and reordering signature lines never changes the verdict. */
  lemma VerdictIgnoresNamesAndOrder(q: Query, a: seq<CheckpointSignature>, b: seq<CheckpointSignature>)
    requires multiset(Nameless(a)) == multiset(Nameless(b))
    ensures TwoPass(q, a) <==> TwoPass(q, b)
  {
    FoundInNameless(q, a);
    FoundInNameless(q, b);
    assert forall p :: p in Nameless(a) <==> p in multiset(Nameless(a));
    assert forall p :: p in Nameless(b) <==> p in multiset(Nameless(b));
  }

  // ---- verify_checkpoint ----

  function Anchored(
    f: Foreign, c: ParsedCheckpoint, treeSize: nat, rootHash: Bytes, log: TransparencyLog, key: Key): Check
  {
    var hint := KeyHint(f.sha256, log);
    if c.fields.treeSize != treeSize then Err(CheckpointTreeSizeMismatch)
    else if c.fields.rootHash != rootHash then Err(CheckpointRootHashMismatch)
    else if hint.None? then Err(CheckpointSignatureInvalid)
    else Require(TwoPass(Query(f, key, c.noteBody, log, hint.value), c.signatures), CheckpointSignatureInvalid)
  }

  function Verified(
    f: Foreign, envelope: Bytes, treeSize: nat, rootHash: Bytes, log: TransparencyLog, key: Key)
    : Result<ParsedCheckpoint, Error>
  {
    var parsed := Parse(f.text, envelope);
    if parsed.Err? then parsed
    else
      var anchored := Anchored(f, parsed.value, treeSize, rootHash, log, key);
      if anchored.Err? then Err(anchored.error) else parsed
  }

  /** One `filter.filter.any` pass over the lines; `checks` counts the signature verifications. */
  method SearchPass(q: Query, signatures: seq<CheckpointSignature>, priority: bool)
    returns (found: bool, ghost checks: nat)
    ensures found <==> AnyVerifies(q, Candidates(q, signatures, priority))
    ensures checks == Attempts(q, Candidates(q, signatures, priority))
  {
    checks := 0;
    var i := 0;
    while i < |signatures|
      invariant 0 <= i <= |signatures|
      invariant AnyVerifies(q, Candidates(q, signatures[i..], priority))
            <==> AnyVerifies(q, Candidates(q, signatures, priority))
      invariant checks + Attempts(q, Candidates(q, signatures[i..], priority))
             == Attempts(q, Candidates(q, signatures, priority))
    {
      var rest := Candidates(q, signatures[i + 1..], priority);
      assert signatures[i..][0] == signatures[i] && signatures[i..][1..] == signatures[i + 1..];
      if Hinted(q, signatures[i]) && NameMatches(q.log, signatures[i].name) == priority {
        assert ([signatures[i]] + rest)[1..] == rest;
        checks := checks + 1;
        if Verifies(q, signatures[i]) {
          return true, checks;
        }
      }
      i := i + 1;
    }
    return false, checks;
  }

  /** The lines with a matching name, then, only if none of them verified, the others. */
  method TwoPassSearch(q: Query, signatures: seq<CheckpointSignature>) returns (found: bool, ghost checks: nat)
    ensures found <==> TwoPass(q, signatures)
    ensures checks == TwoPassAttempts(q, signatures)
  {
    found, checks := SearchPass(q, signatures, true);
    if !found {
      ghost var more;
      found, more := SearchPass(q, signatures, false);
      checks := checks + more;
    }
  }

  /** At most 32 signature checks are spent on any envelope. */
  lemma AtMost32Checks(f: Foreign, envelope: Bytes, log: TransparencyLog, key: Key, hint: Bytes)
    requires Parse(f.text, envelope).Ok?
    ensures var c := Parse(f.text, envelope).value;
            TwoPassAttempts(Query(f, key, c.noteBody, log, hint), c.signatures) <= MAX_CHECKPOINT_SIGNATURES
  {
    var c := Parse(f.text, envelope).value;
    SignedBodyFixesFields(f.text, envelope);
    WorkIsBounded(Query(f, key, c.noteBody, log, hint), c.signatures);
  }

  method VerifyCheckpoint(
    f: Foreign, envelope: Bytes, treeSize: nat, rootHash: Bytes, log: TransparencyLog, key: Key)
    returns (r: Result<ParsedCheckpoint, Error>, ghost checks: nat)
    ensures r == Verified(f, envelope, treeSize, rootHash, log, key)
    ensures checks <= MAX_CHECKPOINT_SIGNATURES
    ensures r.Ok? ==> checks == TwoPassAttempts(
              Query(f, key, r.value.noteBody, log, KeyHint(f.sha256, log).value), r.value.signatures)
  {
    checks := 0;
    var parsed := ParseCheckpoint(f.text, envelope);
    if parsed.Err? {
      return parsed, 0;
    }
    var c := parsed.value;
    if c.fields.treeSize != treeSize {
      return Err(CheckpointTreeSizeMismatch), 0;
    }
    if c.fields.rootHash != rootHash {
      return Err(CheckpointRootHashMismatch), 0;
    }
    var hint := KeyHint(f.sha256, log);
    if hint.None? {
      return Err(CheckpointSignatureInvalid), 0;
    }
    var found;
    found, checks := TwoPassSearch(Query(f, key, c.noteBody, log, hint.value), c.signatures);
    AtMost32Checks(f, envelope, log, key, hint.value);
    r := if found then parsed else Err(CheckpointSignatureInvalid);
  }

  /** The errors of a checkpoint's format, its anchoring and its signature. */
  predicate IsCheckpointError(e: Error) {
    IsFormatError(e) || e == CheckpointTreeSizeMismatch || e == CheckpointRootHashMismatch
    || e == CheckpointSignatureInvalid
  }

  lemma AnchoredErrors(
    f: Foreign, c: ParsedCheckpoint, treeSize: nat, rootHash: Bytes, log: TransparencyLog, key: Key)
    ensures var r := Anchored(f, c, treeSize, rootHash, log, key);
            r.Err? ==> IsCheckpointError(r.error)
  {
  }

  lemma VerifiedErrors(
    f: Foreign, envelope: Bytes, treeSize: nat, rootHash: Bytes, log: TransparencyLog, key: Key)
    ensures var r := Verified(f, envelope, treeSize, rootHash, log, key);
            r.Err? ==> IsCheckpointError(r.error)
  {
    var parsed := Parse(f.text, envelope);
    ParseErrors(f.text, envelope);
    if parsed.Ok? {
      AnchoredErrors(f, parsed.value, treeSize, rootHash, log, key);
    }
  }

  /** The envelope is a note for this size and root, and some line with the key's hint verifies over its body. */
  ghost predicate Endorsed(
    f: Foreign, envelope: Bytes, treeSize: nat, rootHash: Bytes, log: TransparencyLog, key: Key, c: ParsedCheckpoint)
  {
    && IsCheckpoint(f.text, envelope, c) && c.fields.treeSize == treeSize && c.fields.rootHash == rootHash
    && exists s :: s in c.signatures && Some(s.keyHint) == KeyHint(f.sha256, log)
                   && f.verifyDer(key, c.noteBody, s.signature)
  }

  lemma AnchoredExact(
    f: Foreign, c: ParsedCheckpoint, treeSize: nat, rootHash: Bytes, log: TransparencyLog, key: Key)
    ensures Anchored(f, c, treeSize, rootHash, log, key).Ok?
        <==> && c.fields.treeSize == treeSize && c.fields.rootHash == rootHash
             && exists s :: s in c.signatures && Some(s.keyHint) == KeyHint(f.sha256, log)
                            && f.verifyDer(key, c.noteBody, s.signature)
  {
    var hint := KeyHint(f.sha256, log);
    if hint.Some? {
      var q := Query(f, key, c.noteBody, log, hint.value);
      TwoPassIsSimple(q, c.signatures);
      assert forall s :: Hinted(q, s) && Verifies(q, s) <==>
                           Some(s.keyHint) == hint && f.verifyDer(key, c.noteBody, s.signature);
    }
  }

  /** A checkpoint is verified exactly when it is endorsed, whatever the order of the attempts. */
  lemma VerifiedExact(
    f: Foreign, envelope: Bytes, treeSize: nat, rootHash: Bytes, log: TransparencyLog, key: Key, c: ParsedCheckpoint)
    ensures Verified(f, envelope, treeSize, rootHash, log, key) == Ok(c)
        <==> Endorsed(f, envelope, treeSize, rootHash, log, key, c)
  {
    ParseExact(f.text, envelope, c);
    AnchoredExact(f, c, treeSize, rootHash, log, key);
  }

  /** A verified checkpoint signs its own origin, size and root: some line with the key's hint verifies over
      a body from which exactly these fields are read, and size and root are the proof's. */
  lemma VerifiedMeans(f: Foreign, envelope: Bytes, treeSize: nat, rootHash: Bytes, log: TransparencyLog, key: Key)
    requires Verified(f, envelope, treeSize, rootHash, log, key).Ok?
    ensures var c := Verified(f, envelope, treeSize, rootHash, log, key).value;
            && KeyHint(f.sha256, log).Some?
            && c.noteBody != [] && c.noteBody <= envelope && c.noteBody[|c.noteBody| - 1] == LF
            && ReadsBody(f.text, c.noteBody[..|c.noteBody| - 1], BodyFields(c.fields.origin, treeSize, rootHash))
            && exists s :: s in c.signatures && Some(s.keyHint) == KeyHint(f.sha256, log)
                           && f.verifyDer(key, c.noteBody, s.signature)
  {
    var c := Verified(f, envelope, treeSize, rootHash, log, key).value;
    SignedBodyFixesFields(f.text, envelope);
    ParseBodyExact(f.text, c.noteBody[..|c.noteBody| - 1], c.fields);
    var q := Query(f, key, c.noteBody, log, KeyHint(f.sha256, log).value);
    TwoPassIsSimple(q, c.signatures);
    var s :| s in c.signatures && Hinted(q, s) && Verifies(q, s);
    assert Some(s.keyHint) == KeyHint(f.sha256, log);
  }

  /** A checkpoint is rejected for its size, its root, or the want of a hinted line that verifies, in this order. */
  lemma VerifiedFault(
    f: Foreign, envelope: Bytes, treeSize: nat, rootHash: Bytes, log: TransparencyLog, key: Key, c: ParsedCheckpoint)
    requires IsCheckpoint(f.text, envelope, c)
    ensures ErrorOf(Verified(f, envelope, treeSize, rootHash, log, key))
         == if c.fields.treeSize != treeSize then Some(CheckpointTreeSizeMismatch)
            else if c.fields.rootHash != rootHash then Some(CheckpointRootHashMismatch)
            else if !Endorsed(f, envelope, treeSize, rootHash, log, key, c) then Some(CheckpointSignatureInvalid)
            else None
  {
    ParseExact(f.text, envelope, c);
    AnchoredExact(f, c, treeSize, rootHash, log, key);
  }
}
