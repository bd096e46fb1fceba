/** Bytes, digests, options and results shared by every component, and the
    sequence facts that the prefix arguments about encodings rest on. */
module Basics {

  type byte = x: int | 0 <= x < 256
  type Bytes = seq<byte>

  /** A SHA-256 output. The hash itself is a parameter everywhere: nothing is assumed of it. */
  type Digest = d: Bytes | |d| == 32 witness seq(32, i => 0)
  type HashFn = Bytes -> Digest

  const LF: byte := 10
  const CR: byte := 13
  const SPACE: byte := 32

  const U64_LIMIT := 0x1_0000_0000_0000_0000
  const I64_MAX := 0x7FFF_FFFF_FFFF_FFFF
  type u64 = x: int | 0 <= x < U64_LIMIT

  datatype Option<+T> = None | Some(value: T)

  datatype Result<+T, +E> = Ok(value: T) | Err(error: E) {
    predicate IsFailure() {
      Err?
    }

    function PropagateFailure<U>(): Result<U, E>
      requires Err?
    {
      Err(error)
    }

    function Extract(): T
      requires Ok?
    {
      value
    }
  }

  function ErrorOf<T, E>(r: Result<T, E>): Option<E> {
    if r.Err? then Some(r.error) else None
  }

  /** The bytes of an ASCII literal. */
  function Ascii(s: string): (b: Bytes)
    ensures |b| == |s|
  {
    seq(|s|, i requires 0 <= i < |s| => s[i] as int % 256)
  }

  lemma AsciiConcat(s: string, t: string)
    ensures Ascii(s + t) == Ascii(s) + Ascii(t)
  {
  }

  lemma AsciiTwo(s: string)
    requires |s| == 2
    ensures Ascii(s) == [s[0] as int % 256, s[1] as int % 256]
  {
  }

  lemma AsciiFour(s: string)
    requires |s| == 4
    ensures Ascii(s) == [s[0] as int % 256, s[1] as int % 256, s[2] as int % 256, s[3] as int % 256]
  {
  }

  /** Two distinct inputs on which the hash agrees. */
  datatype Collision = Collision(first: Bytes, second: Bytes) {
    ghost predicate Breaks(hash: HashFn) {
      first != second && hash(first) == hash(second)
    }
  }

  // ---- sequences ----

  lemma HeadAndTail<T>(s: seq<T>)
    requires s != []
    ensures s == [s[0]] + s[1..]
  {
  }

  /** Equal concatenations whose left parts have equal length have equal parts. */
  lemma SplitEqual<T>(a: seq<T>, x: seq<T>, b: seq<T>, y: seq<T>)
    requires |a| == |b|
    requires a + x == b + y
    ensures a == b && x == y
  {
    assert a == (a + x)[..|a|] && b == (b + y)[..|a|];
    assert x == (a + x)[|a|..] && y == (b + y)[|a|..];
  }

  /** A common prefix cancels. */
  lemma CancelPrefix<T>(a: seq<T>, x: seq<T>, y: seq<T>)
    requires a + x == a + y
    ensures x == y
  {
    SplitEqual(a, x, a, y);
  }

  /** Two stop-free strings followed by the same stop symbol are equal, and so are their tails. */
  lemma {:induction false} SplitAtStop<T>(stop: T, a: seq<T>, x: seq<T>, b: seq<T>, y: seq<T>)
    requires stop !in a && stop !in b
    requires a + [stop] + x == b + [stop] + y
    ensures a == b && x == y
  {
    var s := a + [stop] + x;
    assert s == b + [stop] + y;
    assert s[|a|] == stop && s[|b|] == stop;
    assert forall i :: 0 <= i < |a| ==> s[i] == a[i];
    assert forall i :: 0 <= i < |b| ==> s[i] == b[i];
    assert |a| == |b|;
    SplitEqual(a, [stop] + x, b, [stop] + y) by {
      assert a + ([stop] + x) == s == b + ([stop] + y);
    }
    CancelPrefix([stop], x, y);
  }

  /** The position of the first occurrence of `c`, or the length when there is none. */
  function IndexOf<T(==)>(s: seq<T>, c: T): (k: nat)
    ensures k <= |s|
  {
    if s == [] || s[0] == c then 0 else IndexOf(s[1..], c) + 1
  }

  lemma {:induction false} IndexOfFirst<T>(s: seq<T>, c: T)
    ensures var k := IndexOf(s, c);
            c !in s[..k] && (k < |s| ==> s[k] == c) && (k == |s| <==> c !in s)
  {
    if s != [] && s[0] != c {
      IndexOfFirst(s[1..], c);
      var k := IndexOf(s[1..], c);
      assert s[..k + 1] == [s[0]] + s[1..][..k];
      assert s == [s[0]] + s[1..];
    }
  }

  /** The first occurrence is the only position at which a stop-free prefix can end. */
  lemma {:induction false} IndexOfUnique<T>(a: seq<T>, c: T, x: seq<T>)
    requires c !in a
    ensures IndexOf(a + [c] + x, c) == |a|
  {
    if a != [] {
      assert (a + [c] + x)[1..] == a[1..] + [c] + x;
      IndexOfUnique(a[1..], c, x);
    }
  }

  lemma {:induction false} IndexOfAbsent<T>(a: seq<T>, c: T)
    requires c !in a
    ensures IndexOf(a, c) == |a|
  {
    if a != [] {
      IndexOfAbsent(a[1..], c);
    }
  }

  /** A text cut at its first `c`. */
  lemma SplitAt(a: Bytes, c: byte, x: Bytes)
    requires c !in a
    ensures var s := a + [c] + x;
            IndexOf(s, c) == |a| < |s| && s[..|a|] == a && s[|a| + 1..] == x
  {
    IndexOfUnique(a, c, x);
  }
}
