/** The checkpoint-origin policy of src/policy.rs: which signed origins are accepted for
    which log key, built up call by call. */
module OriginPolicy {
  import opened Basics
  import opened Primitives

  datatype Binding = Binding(keyId: Digest, origins: seq<Bytes>)

  predicate ValidOrigin(origin: Bytes) {
    origin != [] && CR !in origin && LF !in origin
  }

  predicate ValidBinding(b: Binding) {
    b.origins != [] && forall o :: o in b.origins ==> ValidOrigin(o)
  }

  predicate ValidBindings(bindings: seq<Binding>) {
    forall i :: 0 <= i < |bindings| ==> ValidBinding(bindings[i])
  }

  /** `CheckpointOriginPolicy::allows` */
  predicate Allows(bindings: seq<Binding>, keyId: Digest, origin: Bytes) {
    exists i :: 0 <= i < |bindings| && bindings[i].keyId == keyId && origin in bindings[i].origins
  }

  /** The pairs a policy allows. */
  ghost function Pairs(bindings: seq<Binding>): (r: iset<(Digest, Bytes)>)
    ensures forall k, o :: (k, o) in r <==> Allows(bindings, k, o)
  {
    iset k: Digest, o: Bytes | Allows(bindings, k, o) :: (k, o)
  }

  /** `CheckpointOriginBinding::new` */
  function NewBinding(hash: HashFn, log: TransparencyLog, origins: seq<Bytes>): (r: Result<Binding, Error>)
    ensures r.Ok? <==> origins != [] && forall o :: o in origins ==> o != [] && CR !in o && LF !in o
    ensures r.Ok? ==> ValidBinding(r.value) && r.value == Binding(hash(log.publicKey), origins)
  {
    if origins == [] || exists o :: o in origins && !ValidOrigin(o) then Err(InvalidConfiguration)
    else Ok(Binding(hash(log.publicKey), origins))
  }

  /** The first binding of a key, or the number of bindings. */
  function FindKey(bindings: seq<Binding>, keyId: Digest): (i: nat)
    ensures i <= |bindings|
    ensures i < |bindings| ==> bindings[i].keyId == keyId
    ensures i == |bindings| ==> forall k :: 0 <= k < |bindings| ==> bindings[k].keyId != keyId
  {
    if bindings == [] || bindings[0].keyId == keyId then 0
    else
      var i := FindKey(bindings[1..], keyId);
      assert forall k :: 1 <= k < |bindings| ==> bindings[k] == bindings[1..][k - 1];
      i + 1
  }

  /** The bindings after one origin was allowed for a key: merged into the key's first binding. */
  function WithOrigin(bindings: seq<Binding>, keyId: Digest, origin: Bytes): seq<Binding> {
    var i := FindKey(bindings, keyId);
    if i == |bindings| then bindings + [Binding(keyId, [origin])]
    else if origin in bindings[i].origins then bindings
    else bindings[i := Binding(keyId, bindings[i].origins + [origin])]
  }

  lemma UpdateAddsPair(bindings: seq<Binding>, i: nat, origin: Bytes)
    requires i < |bindings|
    ensures var after := bindings[i := Binding(bindings[i].keyId, bindings[i].origins + [origin])];
            forall k, o :: Allows(after, k, o) <==> Allows(bindings, k, o) || (k == bindings[i].keyId && o == origin)
  {
    var after := bindings[i := Binding(bindings[i].keyId, bindings[i].origins + [origin])];
    forall k, o
      ensures Allows(after, k, o) <==> Allows(bindings, k, o) || (k == bindings[i].keyId && o == origin)
    {
      if Allows(bindings, k, o) {
        var j :| 0 <= j < |bindings| && bindings[j].keyId == k && o in bindings[j].origins;
        assert after[j].keyId == k && o in after[j].origins;
      }
      if k == bindings[i].keyId && o == origin {
        assert after[i].keyId == k && o in after[i].origins;
      }
    }
  }

  lemma AppendAddsPairs(bindings: seq<Binding>, b: Binding)
    ensures forall k, o :: Allows(bindings + [b], k, o) <==> Allows(bindings, k, o) || (k == b.keyId && o in b.origins)
  {
    var after := bindings + [b];
    forall k, o
      ensures Allows(after, k, o) <==> Allows(bindings, k, o) || (k == b.keyId && o in b.origins)
    {
      if Allows(bindings, k, o) {
        var j :| 0 <= j < |bindings| && bindings[j].keyId == k && o in bindings[j].origins;
        assert after[j] == bindings[j];
      }
      if k == b.keyId && o in b.origins {
        assert after[|bindings|] == b;
      }
    }
  }

  lemma WithOriginAddsPair(bindings: seq<Binding>, keyId: Digest, origin: Bytes)
    ensures forall k, o :: Allows(WithOrigin(bindings, keyId, origin), k, o)
                           <==> Allows(bindings, k, o) || (k == keyId && o == origin)
  {
    var i := FindKey(bindings, keyId);
    if i == |bindings| {
      AppendAddsPairs(bindings, Binding(keyId, [origin]));
    } else if origin in bindings[i].origins {
      assert Allows(bindings, keyId, origin);
    } else {
      UpdateAddsPair(bindings, i, origin);
    }
  }

  lemma WithOriginValid(bindings: seq<Binding>, keyId: Digest, origin: Bytes)
    requires ValidBindings(bindings) && ValidOrigin(origin)
    ensures ValidBindings(WithOrigin(bindings, keyId, origin))
  {
  }

  /** Bindings that were validated allow nothing only when there are none. */
  lemma EmptyIffNothingAllowed(bindings: seq<Binding>)
    requires ValidBindings(bindings)
    ensures bindings != [] <==> exists k, o :: Allows(bindings, k, o)
  {
    if bindings != [] {
      assert ValidBinding(bindings[0]);
      assert Allows(bindings, bindings[0].keyId, bindings[0].origins[0]);
    }
  }

  // ---- the builder ----

  /** The position found by scanning for a key. */
  method FirstWithKey(bindings: seq<Binding>, keyId: Digest) returns (i: nat)
    ensures i == FindKey(bindings, keyId)
  {
    i := 0;
    while i < |bindings| && bindings[i].keyId != keyId
      invariant 0 <= i <= |bindings|
      invariant FindKey(bindings, keyId) == i + FindKey(bindings[i..], keyId)
    {
      assert bindings[i..][0] == bindings[i] && bindings[i..][1..] == bindings[i + 1..];
      i := i + 1;
    }
    assert i < |bindings| ==> bindings[i..][0] == bindings[i];
  }

  function WithOrigins(bindings: seq<Binding>, keyId: Digest, origins: seq<Bytes>): seq<Binding>
    decreases |origins|
  {
    if origins == [] then bindings else WithOrigins(WithOrigin(bindings, keyId, origins[0]), keyId, origins[1..])
  }

  /** `CheckpointOriginPolicyBuilder`. A failed call leaves the pairs allowed so far; in the source it also
      consumes the builder. */
  class Builder {
    var bindings: seq<Binding>

    constructor ()
      ensures bindings == []
    {
      bindings := [];
    }

    method AddBinding(b: Binding)
      requires ValidBinding(b)
      modifies this
      ensures forall k, o :: Allows(bindings, k, o) <==> Allows(old(bindings), k, o) || (k == b.keyId && o in b.origins)
      ensures ValidBindings(old(bindings)) ==> ValidBindings(bindings)
      ensures bindings == old(bindings) + [b]
    {
      AppendAddsPairs(bindings, b);
      bindings := bindings + [b];
    }

    method AllowOrigin(hash: HashFn, log: TransparencyLog, origin: Bytes) returns (r: Check)
      modifies this
      ensures r == Require(origin != [] && CR !in origin && LF !in origin, InvalidConfiguration)
      ensures bindings == if r.Ok? then WithOrigin(old(bindings), hash(log.publicKey), origin) else old(bindings)
      ensures ValidBindings(old(bindings)) ==> ValidBindings(bindings)
    {
      var keyId := hash(log.publicKey);
      if !ValidOrigin(origin) {
        return Err(InvalidConfiguration);
      }
      if ValidBindings(bindings) {
        WithOriginValid(bindings, keyId, origin);
      }
      var i := FirstWithKey(bindings, keyId);
      if i == |bindings| {
        bindings := bindings + [Binding(keyId, [origin])];
      } else if origin !in bindings[i].origins {
        bindings := bindings[i := Binding(keyId, bindings[i].origins + [origin])];
      }
      return Pass;
    }

    /** Stops at the first invalid origin. */
    method AllowOrigins(hash: HashFn, log: TransparencyLog, origins: seq<Bytes>) returns (r: Check)
      modifies this
      ensures r.Ok? <==> forall j :: 0 <= j < |origins| ==> ValidOrigin(origins[j])
      ensures r.Ok? ==> bindings == WithOrigins(old(bindings), hash(log.publicKey), origins)
      ensures ValidBindings(old(bindings)) ==> ValidBindings(bindings)
    {
      var keyId := hash(log.publicKey);
      var j := 0;
      while j < |origins|
        invariant 0 <= j <= |origins|
        invariant forall k :: 0 <= k < j ==> ValidOrigin(origins[k])
        invariant WithOrigins(bindings, keyId, origins[j..]) == WithOrigins(old(bindings), keyId, origins)
        invariant ValidBindings(old(bindings)) ==> ValidBindings(bindings)
      {
        assert origins[j..][0] == origins[j] && origins[j..][1..] == origins[j + 1..];
        r := AllowOrigin(hash, log, origins[j]);
        if r.Err? {
          return;
        }
        j := j + 1;
      }
      return Pass;
    }

    /** A policy is built exactly when there is a pair it allows; it allows the builder's pairs. */
    method Build() returns (r: Result<seq<Binding>, Error>)
      ensures ValidBindings(bindings) ==> (r.Ok? <==> exists k, o :: Allows(bindings, k, o))
      ensures r.Ok? <==> bindings != []
      ensures r.Ok? ==> r.value == bindings
      ensures r.Err? ==> r.error == InvalidConfiguration
    {
      if ValidBindings(bindings) {
        EmptyIffNothingAllowed(bindings);
      }
      return if bindings == [] then Err(InvalidConfiguration) else Ok(bindings);
    }
  }

  lemma {:induction false} WithOriginsAddsPairs(bindings: seq<Binding>, keyId: Digest, origins: seq<Bytes>)
    ensures forall k, o :: Allows(WithOrigins(bindings, keyId, origins), k, o)
                           <==> Allows(bindings, k, o) || (k == keyId && o in origins)
    decreases |origins|
  {
    if origins != [] {
      WithOriginAddsPair(bindings, keyId, origins[0]);
      WithOriginsAddsPairs(WithOrigin(bindings, keyId, origins[0]), keyId, origins[1..]);
      HeadAndTail(origins);
    }
  }

  // ---- whole runs ----

  /** A call on the builder. */
  datatype Call =
    | Bind(b: Binding)
    | Allow(log: TransparencyLog, origin: Bytes)
    | AllowAll(log: TransparencyLog, origins: seq<Bytes>)

  predicate ValidCall(c: Call) {
    match c
    case Bind(b) => ValidBinding(b)
    case Allow(_, origin) => ValidOrigin(origin)
    case AllowAll(_, origins) => forall j :: 0 <= j < |origins| ==> ValidOrigin(origins[j])
  }

  predicate ValidCalls(calls: seq<Call>) {
    forall j :: 0 <= j < |calls| ==> ValidCall(calls[j])
  }

  function Apply(hash: HashFn, bindings: seq<Binding>, c: Call): seq<Binding> {
    match c
    case Bind(b) => bindings + [b]
    case Allow(log, origin) => WithOrigin(bindings, hash(log.publicKey), origin)
    case AllowAll(log, origins) => WithOrigins(bindings, hash(log.publicKey), origins)
  }

  /** The pairs a call adds. */
  predicate Adds(hash: HashFn, c: Call, keyId: Digest, origin: Bytes) {
    match c
    case Bind(b) => keyId == b.keyId && origin in b.origins
    case Allow(log, o) => keyId == hash(log.publicKey) && origin == o
    case AllowAll(log, origins) => keyId == hash(log.publicKey) && origin in origins
  }

  function Run(hash: HashFn, calls: seq<Call>): seq<Binding> {
    if calls == [] then [] else Apply(hash, Run(hash, calls[..|calls| - 1]), calls[|calls| - 1])
  }

  lemma ApplyAdds(hash: HashFn, bindings: seq<Binding>, c: Call)
    ensures forall k, o :: Allows(Apply(hash, bindings, c), k, o) <==> Allows(bindings, k, o) || Adds(hash, c, k, o)
  {
    match c
    case Bind(b) => AppendAddsPairs(bindings, b);
    case Allow(log, origin) => WithOriginAddsPair(bindings, hash(log.publicKey), origin);
    case AllowAll(log, origins) => WithOriginsAddsPairs(bindings, hash(log.publicKey), origins);
  }

  /** After any run of calls exactly the pairs that some call added are allowed. */
  lemma {:induction false} RunAllowsWhatWasAdded(hash: HashFn, calls: seq<Call>)
    ensures forall k, o :: Allows(Run(hash, calls), k, o) <==> exists c :: c in calls && Adds(hash, c, k, o)
  {
    if calls != [] {
      var front, last := calls[..|calls| - 1], calls[|calls| - 1];
      RunAllowsWhatWasAdded(hash, front);
      ApplyAdds(hash, Run(hash, front), last);
      assert calls == front + [last];
    }
  }

  /** Neither the order of the calls nor their repetition matters. */
  lemma RunIgnoresOrderAndRepetition(hash: HashFn, a: seq<Call>, b: seq<Call>)
    requires forall c :: c in a <==> c in b
    ensures Pairs(Run(hash, a)) == Pairs(Run(hash, b))
  {
    RunAllowsWhatWasAdded(hash, a);
    RunAllowsWhatWasAdded(hash, b);
    forall k, o
      ensures (k, o) in Pairs(Run(hash, a)) <==> (k, o) in Pairs(Run(hash, b))
    {
      assert Allows(Run(hash, a), k, o) <==> Allows(Run(hash, b), k, o);
    }
  }

  lemma {:induction false} WithOriginsValid(bindings: seq<Binding>, keyId: Digest, origins: seq<Bytes>)
    requires ValidBindings(bindings) && forall j :: 0 <= j < |origins| ==> ValidOrigin(origins[j])
    ensures ValidBindings(WithOrigins(bindings, keyId, origins))
    decreases |origins|
  {
    if origins != [] {
      WithOriginValid(bindings, keyId, origins[0]);
      WithOriginsValid(WithOrigin(bindings, keyId, origins[0]), keyId, origins[1..]);
    }
  }

  lemma ApplyValid(hash: HashFn, bindings: seq<Binding>, c: Call)
    requires ValidBindings(bindings) && ValidCall(c)
    ensures ValidBindings(Apply(hash, bindings, c))
  {
    match c {
      case Bind(b) =>
      case Allow(log, origin) =>
        WithOriginValid(bindings, hash(log.publicKey), origin);
      case AllowAll(log, origins) =>
        WithOriginsValid(bindings, hash(log.publicKey), origins);
    }
  }

  /** Every origin a run stores is non-empty and free of carriage returns and line feeds. */
  lemma {:induction false} RunStoresValidOrigins(hash: HashFn, calls: seq<Call>)
    requires ValidCalls(calls)
    ensures ValidBindings(Run(hash, calls))
    ensures forall k, o :: Allows(Run(hash, calls), k, o) ==> o != [] && CR !in o && LF !in o
  {
    if calls != [] {
      var front := calls[..|calls| - 1];
      assert ValidCall(calls[|calls| - 1]);
      RunStoresValidOrigins(hash, front);
      ApplyValid(hash, Run(hash, front), calls[|calls| - 1]);
    }
  }

  /** One call on a builder object. */
  method Perform(hash: HashFn, builder: Builder, c: Call) returns (r: Check)
    requires c.Bind? ==> ValidBinding(c.b)
    modifies builder
    ensures r.Ok? <==> ValidCall(c)
    ensures r.Ok? ==> builder.bindings == Apply(hash, old(builder.bindings), c)
  {
    match c {
      case Bind(b) =>
        builder.AddBinding(b);
        return Pass;
      case Allow(log, origin) =>
        r := builder.AllowOrigin(hash, log, origin);
      case AllowAll(log, origins) =>
        r := builder.AllowOrigins(hash, log, origins);
    }
  }

  /** The bindings that the source's types admit: those made by `CheckpointOriginBinding::new`. */
  predicate WellTyped(calls: seq<Call>) {
    forall j :: 0 <= j < |calls| && calls[j].Bind? ==> ValidBinding(calls[j].b)
  }

  lemma ValidByLast(calls: seq<Call>)
    requires calls != []
    ensures ValidCalls(calls) <==> ValidCalls(calls[..|calls| - 1]) && ValidCall(calls[|calls| - 1])
    ensures WellTyped(calls) <==>
              WellTyped(calls[..|calls| - 1]) && (calls[|calls| - 1].Bind? ==> ValidBinding(calls[|calls| - 1].b))
  {
  }

  /** A new builder put through a run of calls, up to the first that fails. It succeeds exactly when every call
      is valid, and its object then holds the bindings of the run. */
  method Assemble(hash: HashFn, calls: seq<Call>) returns (builder: Builder, r: Check)
    requires WellTyped(calls)
    ensures fresh(builder)
    ensures r.Ok? <==> ValidCalls(calls)
    ensures r.Ok? ==> builder.bindings == Run(hash, calls)
    decreases |calls|
  {
    if calls == [] {
      builder := new Builder();
      return builder, Pass;
    }
    ValidByLast(calls);
    builder, r := Assemble(hash, calls[..|calls| - 1]);
    if r.Err? {
      return;
    }
    r := Perform(hash, builder, calls[|calls| - 1]);
  }

  ghost predicate AddedBySome(hash: HashFn, calls: seq<Call>, keyId: Digest, origin: Bytes) {
    exists c :: c in calls && Adds(hash, c, keyId, origin)
  }

  lemma RunAllowsAdded(hash: HashFn, calls: seq<Call>)
    requires ValidCalls(calls)
    ensures ValidBindings(Run(hash, calls))
    ensures forall k, o :: Allows(Run(hash, calls), k, o) <==> AddedBySome(hash, calls, k, o)
  {
    RunStoresValidOrigins(hash, calls);
    RunAllowsWhatWasAdded(hash, calls);
  }

  /** A whole use of the builder, from nothing to a policy: it succeeds exactly when every call is valid and
      some call added a pair, and the policy then allows exactly the pairs that some call added. */
  method MakePolicy(hash: HashFn, calls: seq<Call>) returns (r: Result<seq<Binding>, Error>)
    requires WellTyped(calls)
    ensures r.Ok? <==> ValidCalls(calls) && exists k, o :: AddedBySome(hash, calls, k, o)
    ensures r.Ok? ==> forall k, o :: Allows(r.value, k, o) <==> AddedBySome(hash, calls, k, o)
    ensures r.Ok? ==> forall k, o :: Allows(r.value, k, o) ==> o != [] && CR !in o && LF !in o
    ensures r.Ok? ==> ValidBindings(r.value)
  {
    var builder, done := Assemble(hash, calls);
    if done.Err? {
      return Err(done.error);
    }
    RunAllowsAdded(hash, calls);
    r := builder.Build();
  }

  // ---- the verifier's check of a policy against its trust store ----

  predicate KnownKey(hash: HashFn, tlogs: seq<TransparencyLog>, keyId: Digest) {
    exists i :: 0 <= i < |tlogs| && hash(tlogs[i].publicKey) == keyId
  }

  lemma KnownKeyExact(hash: HashFn, tlogs: seq<TransparencyLog>, keyId: Digest)
    ensures KnownKey(hash, tlogs, keyId) <==> exists log :: log in tlogs && hash(log.publicKey) == keyId
  {
    if exists log :: log in tlogs && hash(log.publicKey) == keyId {
      var log :| log in tlogs && hash(log.publicKey) == keyId;
      var i :| 0 <= i < |tlogs| && tlogs[i] == log;
    }
    if KnownKey(hash, tlogs, keyId) {
      var i :| 0 <= i < |tlogs| && hash(tlogs[i].publicKey) == keyId;
      assert tlogs[i] in tlogs;
    }
  }

  /** The binding loop of `VerifierBuilder::build`. */
  method CheckKnownKeys(hash: HashFn, bindings: seq<Binding>, tlogs: seq<TransparencyLog>) returns (r: Check)
    ensures r.Ok? <==> forall b :: b in bindings ==> exists log :: log in tlogs && hash(log.publicKey) == b.keyId
    ensures r.Err? ==> r.error == InvalidConfiguration
    ensures r.Ok? ==> forall k, o :: Allows(bindings, k, o) ==> exists log :: log in tlogs && hash(log.publicKey) == k
  {
    for i := 0 to |bindings|
      invariant forall j :: 0 <= j < i ==> exists log :: log in tlogs && hash(log.publicKey) == bindings[j].keyId
    {
      KnownKeyExact(hash, tlogs, bindings[i].keyId);
      if !KnownKey(hash, tlogs, bindings[i].keyId) {
        assert bindings[i] in bindings;
        return Err(InvalidConfiguration);
      }
    }
    return Pass;
  }
}
