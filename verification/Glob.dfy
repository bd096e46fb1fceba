/** The ref glob of src/policy_match.rs: `*` stands for any byte sequence, every
    other byte for itself. The matcher keeps one remembered star and two cursors. */
module Glob {
  import opened Basics

  const STAR: byte := 42

  /** `parts` cuts a text into one piece per pattern byte. */
  ghost predicate Fits(pattern: Bytes, parts: seq<Bytes>) {
    |parts| == |pattern| &&
    forall k :: 0 <= k < |pattern| && pattern[k] != STAR ==> parts[k] == [pattern[k]]
  }

  function Concat(parts: seq<Bytes>): Bytes {
    if parts == [] then [] else parts[0] + Concat(parts[1..])
  }

  /** The declarative meaning: the text is a concatenation of pieces, one per pattern byte, where a star's
      piece is arbitrary and any other byte's piece is that byte. */
  ghost predicate Matches(pattern: Bytes, text: Bytes) {
    exists parts :: Fits(pattern, parts) && Concat(parts) == text
  }

  /** The same relation by recursion: the pattern from `pi` matches the text from `ti`. */
  ghost predicate At(p: Bytes, t: Bytes, pi: nat, ti: nat)
    decreases |p| - pi, 0
  {
    pi <= |p| && ti <= |t| &&
    if pi == |p| then ti == |t|
    else if p[pi] == STAR then AtSomewhereFrom(p, t, pi + 1, ti)
    else ti < |t| && p[pi] == t[ti] && At(p, t, pi + 1, ti + 1)
  }

  ghost predicate AtSomewhereFrom(p: Bytes, t: Bytes, pi: nat, ti: nat)
    decreases |p| - pi, 1
  {
    exists k: nat :: ti <= k <= |t| && At(p, t, pi, k)
  }

  lemma {:induction false} AtComplete(p: Bytes, t: Bytes, pi: nat, ti: nat, parts: seq<Bytes>)
    requires pi <= |p| && ti <= |t| && Fits(p[pi..], parts) && Concat(parts) == t[ti..]
    ensures At(p, t, pi, ti)
    decreases |p| - pi
  {
    if pi == |p| {
      assert t[ti..] == [];
    } else {
      var k := ti + |parts[0]|;
      assert t[ti..] == parts[0] + Concat(parts[1..]);
      assert t[k..] == t[ti..][|parts[0]|..] == Concat(parts[1..]);
      assert p[pi..][0] == p[pi] && p[pi..][1..] == p[pi + 1..];
      AtComplete(p, t, pi + 1, k, parts[1..]);
      if p[pi] != STAR {
        assert t[ti] == t[ti..][0] == parts[0][0];
      }
    }
  }

  lemma {:induction false} AtSound(p: Bytes, t: Bytes, pi: nat, ti: nat) returns (parts: seq<Bytes>)
    requires At(p, t, pi, ti)
    ensures Fits(p[pi..], parts) && Concat(parts) == t[ti..]
    decreases |p| - pi
  {
    if pi == |p| {
      parts := [];
    } else {
      var k: nat := ti + 1;
      if p[pi] == STAR {
        k :| ti <= k <= |t| && At(p, t, pi + 1, k);
      }
      var rest := AtSound(p, t, pi + 1, k);
      parts := [t[ti..k]] + rest;
      assert parts[1..] == rest;
      assert t[ti..] == t[ti..k] + t[k..];
      assert p[pi..] == [p[pi]] + p[pi + 1..];
    }
  }

  lemma MatchesIffAt(p: Bytes, t: Bytes)
    ensures Matches(p, t) <==> At(p, t, 0, 0)
  {
    assert p[0..] == p && t[0..] == t;
    if Matches(p, t) {
      var parts :| Fits(p, parts) && Concat(parts) == t;
      AtComplete(p, t, 0, 0, parts);
    }
    if At(p, t, 0, 0) {
      var parts := AtSound(p, t, 0, 0);
    }
  }

  lemma StarRest(p: Bytes, t: Bytes, s: nat, u: nat) returns (k: nat)
    requires s < |p| && p[s] == STAR && At(p, t, s, u)
    ensures u <= k <= |t| && At(p, t, s + 1, k)
  {
    var q := s + 1;
    assert AtSomewhereFrom(p, t, q, u);
    k :| u <= k <= |t| && At(p, t, q, k);
  }

  lemma StarFrom(p: Bytes, t: Bytes, s: nat, u: nat, k: nat)
    requires s < |p| && p[s] == STAR && u <= k <= |t| && At(p, t, s + 1, k)
    ensures At(p, t, s, u)
  {
  }

  /** A star-free stretch of the pattern from `a` to `b`, equal to the text from `u`. */
  ghost predicate Literal(p: Bytes, t: Bytes, a: nat, b: nat, u: nat) {
    a <= b <= |p| && u + (b - a) <= |t| && STAR !in p[a..b] && p[a..b] == t[u..u + (b - a)]
  }

  lemma SliceCons(s: Bytes, a: nat, b: nat)
    requires a < b <= |s|
    ensures s[a..b] == [s[a]] + s[a + 1..b]
  {
  }

  lemma LiteralCons(p: Bytes, t: Bytes, a: nat, b: nat, u: nat)
    requires a < b <= |p| && u < |t|
    ensures Literal(p, t, a, b, u) <==> p[a] != STAR && p[a] == t[u] && Literal(p, t, a + 1, b, u + 1)
  {
    if u + (b - a) <= |t| {
      SliceCons(p, a, b);
      SliceCons(t, u, u + (b - a));
    }
  }

  /** Star-free stretches consume exactly their own bytes. */
  lemma {:induction false} AtThroughLiteral(p: Bytes, t: Bytes, a: nat, b: nat, u: nat)
    requires a <= b <= |p| && u <= |t| && STAR !in p[a..b]
    ensures At(p, t, a, u) <==> Literal(p, t, a, b, u) && At(p, t, b, u + (b - a))
    decreases b - a
  {
    if a < b {
      SliceCons(p, a, b);
      if u < |t| {
        AtThroughLiteral(p, t, a + 1, b, u + 1);
        LiteralCons(p, t, a, b, u);
      }
    }
  }

  /** A remembered star may be dropped in favour of a later one. */
  lemma NewStarTakesOver(p: Bytes, t: Bytes, s: nat, u: nat, pi: nat)
    requires s < pi < |p| && p[s] == STAR && p[pi] == STAR
    requires Literal(p, t, s + 1, pi, u)
    ensures At(p, t, s, u) <==> At(p, t, pi, u + (pi - s - 1))
  {
    var w := pi - s - 1;
    if At(p, t, s, u) {
      var k := StarRest(p, t, s, u);
      AtThroughLiteral(p, t, s + 1, pi, k);
      var j := StarRest(p, t, pi, k + w);
      StarFrom(p, t, pi, u + w, j);
    }
    if At(p, t, pi, u + w) {
      AtThroughLiteral(p, t, s + 1, pi, u);
      StarFrom(p, t, s, u, u);
    }
  }

  /** At a mismatch the remembered star must take one byte more. */
  lemma StarTakesOneMore(p: Bytes, t: Bytes, s: nat, u: nat, pi: nat)
    requires s < pi <= |p| && p[s] == STAR && Literal(p, t, s + 1, pi, u)
    requires u + (pi - s - 1) < |t|
    requires pi < |p| ==> p[pi] != STAR && p[pi] != t[u + (pi - s - 1)]
    ensures At(p, t, s, u) <==> At(p, t, s, u + 1)
  {
    AtThroughLiteral(p, t, s + 1, pi, u);
    assert !At(p, t, s + 1, u);
    if At(p, t, s, u) {
      var k := StarRest(p, t, s, u);
      assert k != u;
      StarFrom(p, t, s, u + 1, k);
    }
    if At(p, t, s, u + 1) {
      var k := StarRest(p, t, s, u + 1);
      StarFrom(p, t, s, u, k);
    }
  }

  /** When the text is used up, the remembered star cannot have taken more. */
  lemma TextUsedUp(p: Bytes, t: Bytes, s: nat, u: nat, pi: nat)
    requires s < pi <= |p| && p[s] == STAR && Literal(p, t, s + 1, pi, u)
    requires u + (pi - s - 1) == |t|
    ensures At(p, t, s, u) <==> At(p, t, pi, |t|)
  {
    AtThroughLiteral(p, t, s + 1, pi, u);
    if At(p, t, s, u) {
      var k := StarRest(p, t, s, u);
      AtThroughLiteral(p, t, s + 1, pi, k);
      assert k == u;
    }
    if At(p, t, pi, |t|) {
      StarFrom(p, t, s, u, u);
    }
  }

  // ---- the two-pointer loop ----

  /** The most recent star: its pattern position and the text position it was last tried from. */
  datatype StarMark = Unset | Mark(pi: nat, ti: nat)

  /** What a loop state says about the whole match: nothing when its parts do not fit together. */
  ghost function Outlook(p: Bytes, t: Bytes, pi: nat, ti: nat, star: StarMark): (r: Option<bool>)
    ensures r.Some? ==> pi <= |p| && ti <= |t|
    ensures r.Some? && star.Mark? ==> star.pi < pi && star.ti <= ti
  {
    if pi > |p| || ti > |t| then None
    else match star
    case Unset =>
      if pi == ti then Some(At(p, t, pi, ti)) else None
    case Mark(s, u) =>
      if s < pi && p[s] == STAR && u <= ti && ti == u + (pi - s - 1) && Literal(p, t, s + 1, pi, u)
      then Some(At(p, t, s, u)) else None
  }

  lemma StepOnStar(p: Bytes, t: Bytes, pi: nat, ti: nat, star: StarMark, goal: bool)
    requires Outlook(p, t, pi, ti, star) == Some(goal) && pi < |p| && p[pi] == STAR
    ensures Outlook(p, t, pi + 1, ti, Mark(pi, ti)) == Some(goal)
  {
    if star.Mark? {
      NewStarTakesOver(p, t, star.pi, star.ti, pi);
    }
  }

  lemma StepOnLiteral(p: Bytes, t: Bytes, pi: nat, ti: nat, star: StarMark, goal: bool)
    requires Outlook(p, t, pi, ti, star) == Some(goal) && pi < |p| && ti < |t| && p[pi] != STAR && p[pi] == t[ti]
    ensures Outlook(p, t, pi + 1, ti + 1, star) == Some(goal)
  {
    if star.Mark? {
      var s, u := star.pi, star.ti;
      assert p[s + 1..pi + 1] == p[s + 1..pi] + [p[pi]];
      assert t[u..ti + 1] == t[u..ti] + [t[ti]];
    }
  }

  lemma StepBack(p: Bytes, t: Bytes, pi: nat, ti: nat, s: nat, u: nat, goal: bool)
    requires Outlook(p, t, pi, ti, Mark(s, u)) == Some(goal) && ti < |t|
    requires pi < |p| ==> p[pi] != STAR && p[pi] != t[ti]
    ensures Outlook(p, t, s + 1, u + 1, Mark(s, u + 1)) == Some(goal)
  {
    StarTakesOneMore(p, t, s, u, pi);
  }

  lemma NoStarMismatch(p: Bytes, t: Bytes, pi: nat, ti: nat, goal: bool)
    requires Outlook(p, t, pi, ti, Unset) == Some(goal) && ti < |t|
    requires pi < |p| ==> p[pi] != STAR && p[pi] != t[ti]
    ensures !goal
  {
  }

  /** After the main loop only the pattern's rest decides. */
  ghost predicate TailInvariant(p: Bytes, t: Bytes, pi: nat, goal: bool) {
    pi <= |p| && goal == At(p, t, pi, |t|)
  }

  lemma TextDone(p: Bytes, t: Bytes, pi: nat, star: StarMark, goal: bool)
    requires Outlook(p, t, pi, |t|, star) == Some(goal)
    ensures TailInvariant(p, t, pi, goal)
  {
    if star.Mark? {
      TextUsedUp(p, t, star.pi, star.ti, pi);
    }
  }

  lemma TailStep(p: Bytes, t: Bytes, pi: nat, goal: bool)
    requires TailInvariant(p, t, pi, goal) && pi < |p| && p[pi] == STAR
    ensures TailInvariant(p, t, pi + 1, goal)
  {
    if At(p, t, pi, |t|) {
      var k := StarRest(p, t, pi, |t|);
    }
    if At(p, t, pi + 1, |t|) {
      StarFrom(p, t, pi, |t|, |t|);
    }
  }

  lemma TailDone(p: Bytes, t: Bytes, pi: nat, goal: bool)
    requires TailInvariant(p, t, pi, goal) && (pi < |p| ==> p[pi] != STAR)
    ensures goal <==> pi == |p|
  {
  }

  ghost function Multiple(n: nat, m: nat): nat {
    if n == 0 then 0 else m + Multiple(n - 1, m)
  }

  lemma {:induction false} MultipleIsProduct(n: nat, m: nat)
    ensures Multiple(n, m) == n * m
  {
    if n > 0 {
      MultipleIsProduct(n - 1, m);
    }
  }

  /** One more than the star's text position, which every turn that moves the star raises. */
  function Rounds(star: StarMark): nat {
    if star.Mark? then star.ti + 1 else 0
  }

  /** The turns of the main loop so far, when the star's text position is below `rounds`. */
  ghost predicate WithinBudget(p: Bytes, steps: nat, rounds: nat, pi: nat) {
    steps <= Multiple(rounds, |p| + 1) + pi
  }

  lemma {:induction false} BudgetForward(p: Bytes, steps: nat, rounds: nat, pi: nat, rounds': nat)
    requires WithinBudget(p, steps, rounds, pi) && rounds <= rounds'
    ensures WithinBudget(p, steps + 1, rounds', pi + 1)
  {
    if rounds < rounds' {
      BudgetForward(p, steps, rounds, pi, rounds' - 1);
    }
  }

  lemma BudgetTotal(p: Bytes, t: Bytes, steps: nat, rounds: nat, pi: nat)
    requires WithinBudget(p, steps, rounds, pi) && pi <= |p| && rounds <= |t| + 1
    ensures steps <= (|t| + 2) * (|p| + 1)
  {
    BudgetForward(p, steps, rounds, pi, |t| + 1);
    MultipleIsProduct(|t| + 2, |p| + 1);
  }

  /** Before the first turn everything is still to be matched. */
  lemma OutlookAtStart(p: Bytes, t: Bytes, pi: nat, ti: nat, star: StarMark, goal: bool)
    requires pi == ti == 0 && star == Unset && goal == Matches(p, t)
    ensures Outlook(p, t, pi, ti, star) == Some(goal) && WithinBudget(p, 0, Rounds(star), pi)
  {
    MatchesIffAt(p, t);
  }

  /** The turn that rejects comes before any star was met. */
  lemma RejectingTurn(p: Bytes, t: Bytes, steps: nat, pi: nat)
    requires WithinBudget(p, steps, 0, pi) && pi <= |p|
    ensures steps + 1 <= (|t| + 2) * (|p| + 1)
  {
    MultipleIsProduct(|t| + 2, |p| + 1);
    assert Multiple(|t| + 2, |p| + 1) == |p| + 1 + Multiple(|t| + 1, |p| + 1);
  }

  /** The second loop: what is left of the pattern must be stars. */
  method OnlyStarsLeft(p: Bytes, t: Bytes, start: nat, ghost goal: bool) returns (matched: bool)
    requires TailInvariant(p, t, start, goal)
    ensures matched <==> goal
  {
    var pi := start;
    while pi < |p| && p[pi] == STAR
      invariant TailInvariant(p, t, pi, goal)
    {
      TailStep(p, t, pi, goal);
      pi := pi + 1;
    }
    TailDone(p, t, pi, goal);
    matched := pi == |p|;
  }

  /** `glob_match`: the answer is the declarative one for every pattern and text, in at most
      `(|t| + 2) * (|p| + 1)` turns of the main loop. */
  method GlobMatch(p: Bytes, t: Bytes) returns (matched: bool, ghost steps: nat)
    ensures matched <==> Matches(p, t)
    ensures steps <= (|t| + 2) * (|p| + 1)
  {
    ghost var goal := Matches(p, t);
    var pi: nat, ti: nat, star := 0, 0, Unset;
    OutlookAtStart(p, t, pi, ti, star, goal);
    steps := 0;
    while ti < |t|
      invariant Outlook(p, t, pi, ti, star) == Some(goal)
      invariant Rounds(star) <= |t| + 1
      invariant WithinBudget(p, steps, Rounds(star), pi)
      decreases |t| + 1 - Rounds(star), |p| - pi
    {
      if pi < |p| && p[pi] == STAR {
        StepOnStar(p, t, pi, ti, star, goal);
        BudgetForward(p, steps, Rounds(star), pi, ti + 1);
        star := Mark(pi, ti);
        pi := pi + 1;
      } else if pi < |p| && p[pi] == t[ti] {
        StepOnLiteral(p, t, pi, ti, star, goal);
        BudgetForward(p, steps, Rounds(star), pi, Rounds(star));
        pi := pi + 1;
        ti := ti + 1;
      } else if star.Mark? {
        var starPi, starTi := star.pi, star.ti;
        StepBack(p, t, pi, ti, starPi, starTi, goal);
        pi := starPi + 1;
        ti := starTi + 1;
        star := Mark(starPi, ti);
      } else {
        NoStarMismatch(p, t, pi, ti, goal);
        RejectingTurn(p, t, steps, pi);
        return false, steps + 1;
      }
      steps := steps + 1;
    }
    BudgetTotal(p, t, steps, Rounds(star), pi);
    TextDone(p, t, pi, star, goal);
    matched := OnlyStarsLeft(p, t, pi, goal);
  }

  // ---- consequences used by the ref policy ----

  /** A pattern without a star matches itself and nothing else. */
  lemma StarFreeIsExact(p: Bytes, t: Bytes)
    requires STAR !in p
    ensures Matches(p, t) <==> p == t
  {
    MatchesIffAt(p, t);
    assert p[0..|p|] == p;
    AtThroughLiteral(p, t, 0, |p|, 0);
    if |p| <= |t| {
      assert t == t[0..|p|] + t[|p|..];
    }
  }
}
