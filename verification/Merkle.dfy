/** The RFC 6962 Merkle tree of a transparency log and the inclusion-proof
    check of src/rekor.rs.

    The tree hash and audit path are defined by recursion on the leaf list, as in
    sections 2.1 and 2.1.1 of RFC 6962; the verifier walks the bits of the leaf
    index from the bottom. The hash is a parameter, so soundness is stated by
    extracting an explicit collision. */
module Merkle {
  import opened Basics

  const LEAF_HASH_PREFIX: byte := 0x00
  const NODE_HASH_PREFIX: byte := 0x01

  function LeafInput(body: Bytes): Bytes {
    [LEAF_HASH_PREFIX] + body
  }

  function NodeInput(left: Digest, right: Digest): Bytes {
    [NODE_HASH_PREFIX] + left + right
  }

  function LeafHash(hash: HashFn, body: Bytes): Digest {
    hash(LeafInput(body))
  }

  function NodeHash(hash: HashFn, left: Digest, right: Digest): Digest {
    hash(NodeInput(left, right))
  }

  // ---- sections 2.1 and 2.1.1 of RFC 6962 ----

  function Pow2(h: nat): (p: nat)
    ensures p >= 1
  {
    if h == 0 then 1 else 2 * Pow2(h - 1)
  }

  predicate SplitsAt(n: nat, h: nat) {
    Pow2(h) < n <= 2 * Pow2(h)
  }

  lemma {:induction false} SplitLevelExists(n: nat)
    requires n >= 2
    ensures exists h: nat :: SplitsAt(n, h)
  {
    if n == 2 {
      assert SplitsAt(n, 0);
    } else {
      SplitLevelExists((n + 1) / 2);
      var h: nat :| SplitsAt((n + 1) / 2, h);
      assert SplitsAt(n, h + 1);
    }
  }

  /** The exponent of the largest power of two below `n`. */
  ghost function SplitLevel(n: nat): (h: nat)
    requires n >= 2
    ensures Pow2(h) < n <= 2 * Pow2(h)
  {
    SplitLevelExists(n);
    var h: nat :| SplitsAt(n, h);
    h
  }

  /** The Merkle tree hash of a leaf list. */
  ghost function TreeHash(hash: HashFn, leaves: seq<Bytes>): Digest
    decreases |leaves|
  {
    if leaves == [] then
      hash([])
    else if |leaves| == 1 then
      LeafHash(hash, leaves[0])
    else
      var k := Pow2(SplitLevel(|leaves|));
      NodeHash(hash, TreeHash(hash, leaves[..k]), TreeHash(hash, leaves[k..]))
  }

  /** The audit path of leaf `i`, nearest sibling first. */
  ghost function AuditPath(hash: HashFn, leaves: seq<Bytes>, i: nat): seq<Digest>
    requires i < |leaves|
    decreases |leaves|
  {
    if |leaves| == 1 then
      []
    else
      var k := Pow2(SplitLevel(|leaves|));
      if i < k then
        AuditPath(hash, leaves[..k], i) + [TreeHash(hash, leaves[k..])]
      else
        AuditPath(hash, leaves[k..], i - k) + [TreeHash(hash, leaves[..k])]
  }

  // ---- the bottom-up walk ----

  /** Whether the node at position `i` has a sibling on its level; otherwise it is promoted. */
  predicate HasSibling(i: nat, last: nat) {
    i % 2 == 1 || i < last
  }

  function ParentInput(x: Digest, i: nat, sibling: Digest): Bytes {
    if i % 2 == 1 then NodeInput(sibling, x) else NodeInput(x, sibling)
  }

  /** The root reached from node `x` at position `i` of a level whose last position is `last`. */
  function Climb(hash: HashFn, x: Digest, i: nat, last: nat, path: seq<Digest>): Option<Digest>
    decreases last
  {
    if last == 0 then
      if path == [] then Some(x) else None
    else if HasSibling(i, last) then
      if path == [] then None
      else Climb(hash, hash(ParentInput(x, i, path[0])), i / 2, last / 2, path[1..])
    else
      Climb(hash, x, i / 2, last / 2, path)
  }

  function RootFromPath(hash: HashFn, leafHash: Digest, index: nat, size: nat, path: seq<Digest>): Option<Digest> {
    if index >= size then None else Climb(hash, leafHash, index, size - 1, path)
  }

  /** `recompute_root`: the loop over the index bits and the remaining hashes. */
  method RecomputeRoot(hash: HashFn, leafHash: Digest, leafIndex: u64, treeSize: u64, hashes: seq<Digest>)
    returns (root: Option<Digest>)
    ensures root == RootFromPath(hash, leafHash, leafIndex, treeSize, hashes)
  {
    if leafIndex >= treeSize {
      return None;
    }
    var nodeIndex: int, lastNode: int := leafIndex, treeSize - 1;
    var nodeHash := leafHash;
    var next := 0;
    while lastNode > 0
      invariant 0 <= nodeIndex <= lastNode
      invariant 0 <= next <= |hashes|
      invariant Climb(hash, nodeHash, nodeIndex, lastNode, hashes[next..])
             == RootFromPath(hash, leafHash, leafIndex, treeSize, hashes)
    {
      if nodeIndex % 2 == 1 {
        if next == |hashes| {
          return None;
        }
        nodeHash := NodeHash(hash, hashes[next], nodeHash);
        next := next + 1;
      } else if nodeIndex < lastNode {
        if next == |hashes| {
          return None;
        }
        nodeHash := NodeHash(hash, nodeHash, hashes[next]);
        next := next + 1;
      }
      nodeIndex := nodeIndex / 2;
      lastNode := lastNode / 2;
    }
    if next < |hashes| {
      return None;
    }
    return Some(nodeHash);
  }

  // ---- splitting at a power of two ----

  /** Applies one more level on top of a walk that uses all but the last hash. */
  function ThenLeftOf(hash: HashFn, below: Option<Digest>, sibling: Digest): Option<Digest> {
    if below.Some? then Some(NodeHash(hash, below.value, sibling)) else None
  }

  function ThenRightOf(hash: HashFn, below: Option<Digest>, sibling: Digest): Option<Digest> {
    if below.Some? then Some(NodeHash(hash, sibling, below.value)) else None
  }

  /** One level of the walk, below the root and with a sibling. */
  lemma ClimbOne(hash: HashFn, x: Digest, i: nat, last: nat, path: seq<Digest>)
    requires last > 0 && HasSibling(i, last)
    ensures Climb(hash, x, i, last, path)
         == if path == [] then None else Climb(hash, hash(ParentInput(x, i, path[0])), i / 2, last / 2, path[1..])
  {
  }

  lemma FrontOfTail<T>(s: seq<T>)
    requires |s| >= 2
    ensures s[1..][..|s| - 2] == s[..|s| - 1][1..] && s[..|s| - 1] != [] && s[..|s| - 1][0] == s[0]
    ensures s[1..] != [] && s[1..][|s| - 2] == s[|s| - 1]
  {
  }

  lemma HalfOfPerfect(h: nat, i: nat, last: nat)
    requires h > 0 && i < Pow2(h) <= last < 2 * Pow2(h)
    ensures i / 2 < Pow2(h - 1) <= last / 2 < 2 * Pow2(h - 1) && (Pow2(h) - 1) / 2 == Pow2(h - 1) - 1 && Pow2(h) > 1
    ensures HasSibling(i, last) && HasSibling(i, Pow2(h) - 1)
  {
  }

  /** The bottom of that walk: one pair. */
  lemma LeftLeaf(hash: HashFn, x: Digest, path: seq<Digest>)
    ensures Climb(hash, x, 0, 1, path)
         == if path == [] then None else ThenLeftOf(hash, Climb(hash, x, 0, 0, path[..|path| - 1]), path[|path| - 1])
  {
    ClimbOne(hash, x, 0, 1, path);
    if |path| == 1 {
      assert path[1..] == [] && path[..0] == [];
    }
  }

  /** A walk that starts in the perfect left subtree stays in it for `h` levels, and only its last
      hash comes from the right. */
  lemma {:induction false} ClimbInLeftSubtree(hash: HashFn, x: Digest, h: nat, i: nat, last: nat, path: seq<Digest>)
    requires i < Pow2(h) <= last < 2 * Pow2(h)
    ensures Climb(hash, x, i, last, path)
         == if path == [] then None
            else ThenLeftOf(hash, Climb(hash, x, i, Pow2(h) - 1, path[..|path| - 1]), path[|path| - 1])
    decreases h, 1
  {
    if h == 0 {
      LeftLeaf(hash, x, path);
    } else {
      HalfOfPerfect(h, i, last);
      ClimbOne(hash, x, i, last, path);
      if path != [] {
        LeftStep(hash, x, h, i, last, path);
      }
    }
  }

  lemma {:induction false} LeftStep(hash: HashFn, x: Digest, h: nat, i: nat, last: nat, path: seq<Digest>)
    requires h > 0 && i < Pow2(h) <= last < 2 * Pow2(h) && path != []
    ensures Climb(hash, x, i, last, path)
         == ThenLeftOf(hash, Climb(hash, x, i, Pow2(h) - 1, path[..|path| - 1]), path[|path| - 1])
    decreases h, 0
  {
    HalfOfPerfect(h, i, last);
    var y, rest, front := hash(ParentInput(x, i, path[0])), path[1..], path[..|path| - 1];
    ClimbOne(hash, x, i, last, path);
    ClimbOne(hash, x, i, Pow2(h) - 1, front);
    ClimbInLeftSubtree(hash, y, h - 1, i / 2, last / 2, rest);
    if rest == [] {
      assert front == [];
    } else {
      FrontOfTail(path);
    }
  }

  lemma HalfOfShifted(h: nat, k: nat, i: nat)
    requires h > 0 && k == Pow2(h)
    ensures k / 2 == Pow2(h - 1) && k == 2 * (k / 2)
    ensures (k + i) % 2 == i % 2 && (k + i) / 2 == k / 2 + i / 2 && (i < k ==> i / 2 < k / 2)
  {
  }

  /** The bottom of that walk: one pair. */
  lemma RightLeaf(hash: HashFn, x: Digest, path: seq<Digest>)
    ensures Climb(hash, x, 1, 1, path)
         == if path == [] then None else ThenRightOf(hash, Climb(hash, x, 0, 0, path[..|path| - 1]), path[|path| - 1])
  {
    ClimbOne(hash, x, 1, 1, path);
    if |path| == 1 {
      assert path[1..] == [] && path[..0] == [];
    }
  }

  /** A walk that starts right of a perfect left subtree of size `k == Pow2(h)` is the walk inside the right
      subtree, then promotions, then the left subtree's hash. */
  lemma {:induction false} ClimbInRightSubtree(
    hash: HashFn, x: Digest, h: nat, k: nat, i: nat, last: nat, path: seq<Digest>)
    requires k == Pow2(h) && i <= last < k
    ensures Climb(hash, x, k + i, k + last, path)
         == if path == [] then None
            else ThenRightOf(hash, Climb(hash, x, i, last, path[..|path| - 1]), path[|path| - 1])
    decreases h, 2
  {
    if h == 0 {
      RightLeaf(hash, x, path);
    } else {
      HalfOfShifted(h, k, i);
      HalfOfShifted(h, k, last);
      if !HasSibling(i, last) {
        ClimbInRightSubtree(hash, x, h - 1, k / 2, i / 2, last / 2, path);
      } else if path != [] {
        RightStep(hash, x, h, k, i, last, path);
      }
    }
  }

  /** One level of the walk, right of a perfect left subtree of even size. */
  lemma ShiftedClimbOne(hash: HashFn, x: Digest, k: nat, i: nat, last: nat, path: seq<Digest>)
    requires k > 0 && k % 2 == 0 && path != [] && HasSibling(i, last)
    ensures Climb(hash, x, k + i, k + last, path)
         == Climb(hash, hash(ParentInput(x, i, path[0])), k / 2 + i / 2, k / 2 + last / 2, path[1..])
  {
    assert (k + i) % 2 == i % 2 && (k + i) / 2 == k / 2 + i / 2 && (k + last) / 2 == k / 2 + last / 2;
    ClimbOne(hash, x, k + i, k + last, path);
  }

  /** The walk inside the right subtree, one level on. */
  lemma InnerStep(hash: HashFn, x: Digest, i: nat, last: nat, path: seq<Digest>, y: Digest, rest: seq<Digest>)
    requires i <= last && path != [] && HasSibling(i, last)
    requires y == hash(ParentInput(x, i, path[0])) && rest == path[1..]
    ensures Climb(hash, x, i, last, path[..|path| - 1])
         == if rest == [] then None else Climb(hash, y, i / 2, last / 2, rest[..|rest| - 1])
    ensures rest != [] ==> rest[|rest| - 1] == path[|path| - 1]
  {
    ClimbOne(hash, x, i, last, path[..|path| - 1]);
    if |path| >= 2 {
      FrontOfTail(path);
    }
  }

  /** The walk right of the left subtree, one level on and then to its end. */
  lemma {:induction false} OuterStep(
    hash: HashFn, x: Digest, h: nat, k: nat, i: nat, last: nat, path: seq<Digest>, y: Digest, rest: seq<Digest>)
    requires h > 0 && k == Pow2(h) && i <= last < k && path != [] && HasSibling(i, last)
    requires y == hash(ParentInput(x, i, path[0])) && rest == path[1..]
    ensures Climb(hash, x, k + i, k + last, path)
         == if rest == [] then None
            else ThenRightOf(hash, Climb(hash, y, i / 2, last / 2, rest[..|rest| - 1]), rest[|rest| - 1])
    decreases h, 0
  {
    HalfOfShifted(h, k, last);
    ShiftedClimbOne(hash, x, k, i, last, path);
    ClimbInRightSubtree(hash, y, h - 1, k / 2, i / 2, last / 2, rest);
  }

  lemma {:induction false} RightStep(hash: HashFn, x: Digest, h: nat, k: nat, i: nat, last: nat, path: seq<Digest>)
    requires h > 0 && k == Pow2(h) && i <= last < k && path != [] && HasSibling(i, last)
    ensures Climb(hash, x, k + i, k + last, path)
         == ThenRightOf(hash, Climb(hash, x, i, last, path[..|path| - 1]), path[|path| - 1])
    decreases h, 1
  {
    var y, rest := hash(ParentInput(x, i, path[0])), path[1..];
    OuterStep(hash, x, h, k, i, last, path, y, rest);
    InnerStep(hash, x, i, last, path, y, rest);
  }

  lemma ExtendLeft(
    hash: HashFn, x: Digest, h: nat, k: nat, i: nat, last: nat, below: seq<Digest>, root: Digest, sibling: Digest)
    requires k == Pow2(h) && i < k <= last < 2 * k
    requires Climb(hash, x, i, k - 1, below) == Some(root)
    ensures Climb(hash, x, i, last, below + [sibling]) == Some(NodeHash(hash, root, sibling))
  {
    ClimbInLeftSubtree(hash, x, h, i, last, below + [sibling]);
    assert (below + [sibling])[..|below|] == below;
  }

  lemma ExtendRight(
    hash: HashFn, x: Digest, h: nat, k: nat, i: nat, last: nat, below: seq<Digest>, root: Digest, sibling: Digest)
    requires k == Pow2(h) && k <= i <= last < 2 * k
    requires Climb(hash, x, i - k, last - k, below) == Some(root)
    ensures Climb(hash, x, i, last, below + [sibling]) == Some(NodeHash(hash, sibling, root))
  {
    ClimbInRightSubtree(hash, x, h, k, i - k, last - k, below + [sibling]);
    assert (below + [sibling])[..|below|] == below;
  }

  lemma ExtendLeftTo(
    hash: HashFn, x: Digest, h: nat, k: nat, i: nat, last: nat, below: seq<Digest>, root: Digest, sibling: Digest,
    path: seq<Digest>)
    requires k == Pow2(h) && i < k <= last < 2 * k && path == below + [sibling]
    requires Climb(hash, x, i, k - 1, below) == Some(root)
    ensures Climb(hash, x, i, last, path) == Some(NodeHash(hash, root, sibling))
  {
    ExtendLeft(hash, x, h, k, i, last, below, root, sibling);
  }

  lemma ExtendRightTo(
    hash: HashFn, x: Digest, h: nat, k: nat, i: nat, last: nat, below: seq<Digest>, root: Digest, sibling: Digest,
    path: seq<Digest>)
    requires k == Pow2(h) && k <= i <= last < 2 * k && path == below + [sibling]
    requires Climb(hash, x, i - k, last - k, below) == Some(root)
    ensures Climb(hash, x, i, last, path) == Some(NodeHash(hash, sibling, root))
  {
    ExtendRight(hash, x, h, k, i, last, below, root, sibling);
  }

  // ---- main results ----

  lemma {:induction false} ClimbAuditPath(hash: HashFn, leaves: seq<Bytes>, i: nat, x: Digest, last: nat)
    requires i < |leaves| == last + 1 && x == LeafHash(hash, leaves[i])
    ensures Climb(hash, x, i, last, AuditPath(hash, leaves, i)) == Some(TreeHash(hash, leaves))
    decreases |leaves|, 2
  {
    if last > 0 {
      if i < Pow2(SplitLevel(|leaves|)) {
        ClimbFromLeft(hash, leaves, i, x, last);
      } else {
        ClimbFromRight(hash, leaves, i, x, last);
      }
    }
  }

  /** The path and the root of a leaf left, and right, of the split. */
  lemma LeftOfSplit(hash: HashFn, leaves: seq<Bytes>, i: nat, k: nat)
    requires |leaves| > 1 && k == Pow2(SplitLevel(|leaves|)) && i < k
    ensures AuditPath(hash, leaves, i) == AuditPath(hash, leaves[..k], i) + [TreeHash(hash, leaves[k..])]
    ensures TreeHash(hash, leaves) == NodeHash(hash, TreeHash(hash, leaves[..k]), TreeHash(hash, leaves[k..]))
  {
  }

  lemma RightOfSplit(hash: HashFn, leaves: seq<Bytes>, i: nat, k: nat)
    requires |leaves| > 1 && k == Pow2(SplitLevel(|leaves|)) && k <= i < |leaves|
    ensures AuditPath(hash, leaves, i) == AuditPath(hash, leaves[k..], i - k) + [TreeHash(hash, leaves[..k])]
    ensures TreeHash(hash, leaves) == NodeHash(hash, TreeHash(hash, leaves[..k]), TreeHash(hash, leaves[k..]))
  {
  }

  lemma {:induction false} ClimbFromLeft(hash: HashFn, leaves: seq<Bytes>, i: nat, x: Digest, last: nat)
    requires i < |leaves| == last + 1 && last > 0 && i < Pow2(SplitLevel(|leaves|)) && x == LeafHash(hash, leaves[i])
    ensures Climb(hash, x, i, last, AuditPath(hash, leaves, i)) == Some(TreeHash(hash, leaves))
    decreases |leaves|, 1
  {
    var h := SplitLevel(|leaves|);
    var below, root, sibling := LeftPieces(hash, leaves, i, x, Pow2(h));
    ExtendLeftTo(hash, x, h, Pow2(h), i, last, below, root, sibling, AuditPath(hash, leaves, i));
  }

  lemma {:induction false} LeftPieces(hash: HashFn, leaves: seq<Bytes>, i: nat, x: Digest, k: nat)
    returns (below: seq<Digest>, root: Digest, sibling: Digest)
    requires |leaves| > 1 && k == Pow2(SplitLevel(|leaves|)) && i < k && x == LeafHash(hash, leaves[i])
    ensures Climb(hash, x, i, k - 1, below) == Some(root)
    ensures AuditPath(hash, leaves, i) == below + [sibling] && TreeHash(hash, leaves) == NodeHash(hash, root, sibling)
    decreases |leaves|, 0
  {
    var left, right := leaves[..k], leaves[k..];
    LeftOfSplit(hash, leaves, i, k);
    ClimbAuditPath(hash, left, i, x, k - 1);
    below, root, sibling := AuditPath(hash, left, i), TreeHash(hash, left), TreeHash(hash, right);
  }

  lemma {:induction false} ClimbFromRight(hash: HashFn, leaves: seq<Bytes>, i: nat, x: Digest, last: nat)
    requires i < |leaves| == last + 1 && last > 0 && Pow2(SplitLevel(|leaves|)) <= i && x == LeafHash(hash, leaves[i])
    ensures Climb(hash, x, i, last, AuditPath(hash, leaves, i)) == Some(TreeHash(hash, leaves))
    decreases |leaves|, 1
  {
    var h := SplitLevel(|leaves|);
    var below, root, sibling := RightPieces(hash, leaves, i, x, Pow2(h), last);
    ExtendRightTo(hash, x, h, Pow2(h), i, last, below, root, sibling, AuditPath(hash, leaves, i));
  }

  lemma {:induction false} RightPieces(hash: HashFn, leaves: seq<Bytes>, i: nat, x: Digest, k: nat, last: nat)
    returns (below: seq<Digest>, root: Digest, sibling: Digest)
    requires |leaves| == last + 1 > 1 && k == Pow2(SplitLevel(|leaves|)) && k <= i <= last
    requires x == LeafHash(hash, leaves[i])
    ensures Climb(hash, x, i - k, last - k, below) == Some(root)
    ensures AuditPath(hash, leaves, i) == below + [sibling] && TreeHash(hash, leaves) == NodeHash(hash, sibling, root)
    decreases |leaves|, 0
  {
    var left, right := leaves[..k], leaves[k..];
    RightOfSplit(hash, leaves, i, k);
    ClimbAuditPath(hash, right, i - k, x, last - k);
    below, root, sibling := AuditPath(hash, right, i - k), TreeHash(hash, right), TreeHash(hash, left);
  }

  /** Completeness: the audit path of section 2.1.1 leads from the leaf to the root of section 2.1. */
  lemma AuditPathVerifies(hash: HashFn, leaves: seq<Bytes>, i: nat)
    requires i < |leaves|
    ensures RootFromPath(hash, LeafHash(hash, leaves[i]), i, |leaves|, AuditPath(hash, leaves, i))
         == Some(TreeHash(hash, leaves))
  {
    ClimbAuditPath(hash, leaves, i, LeafHash(hash, leaves[i]), |leaves| - 1);
  }

  /** The number of hashes consumed from position `i` of a level ending at `last`. */
  function PathLength(i: nat, last: nat): nat
    decreases last
  {
    if last == 0 then 0
    else (if HasSibling(i, last) then 1 else 0) + PathLength(i / 2, last / 2)
  }

  /** Exact length: a root is produced for exactly one number of hashes, whatever they are. */
  lemma {:induction false} RootExactlyForPathLength(hash: HashFn, x: Digest, i: nat, last: nat, path: seq<Digest>)
    ensures Climb(hash, x, i, last, path).Some? <==> |path| == PathLength(i, last)
    decreases last
  {
    if last > 0 {
      if HasSibling(i, last) {
        if path != [] {
          var y := hash(ParentInput(x, i, path[0]));
          RootExactlyForPathLength(hash, y, i / 2, last / 2, path[1..]);
        }
      } else {
        RootExactlyForPathLength(hash, x, i / 2, last / 2, path);
      }
    }
  }

  /** `recompute_root` answers exactly when the index is in the tree and the proof has the length of
      the RFC 6962 audit path for that position. */
  lemma RootIffAuditPathLength(hash: HashFn, leaves: seq<Bytes>, x: Digest, i: nat, path: seq<Digest>)
    ensures RootFromPath(hash, x, i, |leaves|, path).Some?
        <==> i < |leaves| && |path| == |AuditPath(hash, leaves, i)|
  {
    if i < |leaves| {
      var last := |leaves| - 1;
      ClimbAuditPath(hash, leaves, i, LeafHash(hash, leaves[i]), last);
      RootExactlyForPathLength(hash, LeafHash(hash, leaves[i]), i, last, AuditPath(hash, leaves, i));
      RootExactlyForPathLength(hash, x, i, last, path);
    }
  }

  /** A tree of at most `Pow2(h)` leaves has paths of at most `h` hashes. */
  lemma {:induction false} PathLengthBound(i: nat, last: nat, h: nat)
    requires last < Pow2(h)
    ensures PathLength(i, last) <= h
    decreases last
  {
    if last > 0 {
      PathLengthBound(i / 2, last / 2, h - 1);
    }
  }

  lemma EightMore(h: nat, p: nat)
    requires Pow2(h) == p
    ensures Pow2(h + 8) == 256 * p
  {
    assert Pow2(h + 4) == 2 * Pow2(h + 3) == 4 * Pow2(h + 2) == 8 * 2 * Pow2(h);
    assert Pow2(h + 8) == 2 * Pow2(h + 7) == 4 * Pow2(h + 6) == 8 * Pow2(h + 5);
  }

  lemma Pow2Of64()
    ensures Pow2(64) == U64_LIMIT
  {
    EightMore(0, 1);
    EightMore(8, 0x100);
    EightMore(16, 0x1_0000);
    EightMore(24, 0x100_0000);
    EightMore(32, 0x1_0000_0000);
    EightMore(40, 0x100_0000_0000);
    EightMore(48, 0x1_0000_0000_0000);
    EightMore(56, 0x100_0000_0000_0000);
  }

  /** Every proof that `recompute_root` accepts for a 64-bit tree size has at most 64 hashes. */
  lemma AcceptedPathAtMost64(hash: HashFn, x: Digest, i: u64, size: u64, path: seq<Digest>)
    requires RootFromPath(hash, x, i, size, path).Some?
    ensures |path| <= 64
  {
    Pow2Of64();
    PathLengthBound(i, size - 1, 64);
    RootExactlyForPathLength(hash, x, i, size - 1, path);
  }

  // ---- soundness by collision extraction ----

  /** Follows two walks from the same position and returns the first pair of distinct node inputs, from
      the top down, that the hash maps to the same node. */
  function ClimbCollision(hash: HashFn, x: Digest, y: Digest, i: nat, last: nat, p: seq<Digest>, q: seq<Digest>)
    : Collision
    requires |p| == |q| == PathLength(i, last)
    decreases last
  {
    if last == 0 then
      Collision([], [])
    else if HasSibling(i, last) then
      var a := ParentInput(x, i, p[0]);
      var b := ParentInput(y, i, q[0]);
      if hash(a) == hash(b) && p[1..] == q[1..] then
        Collision(a, b)
      else
        ClimbCollision(hash, hash(a), hash(b), i / 2, last / 2, p[1..], q[1..])
    else
      ClimbCollision(hash, x, y, i / 2, last / 2, p, q)
  }

  lemma NodeInputInjective(a: Digest, b: Digest, c: Digest, d: Digest)
    requires NodeInput(a, b) == NodeInput(c, d)
    ensures a == c && b == d
  {
    SplitEqual([NODE_HASH_PREFIX] + a, b, [NODE_HASH_PREFIX] + c, d);
    CancelPrefix([NODE_HASH_PREFIX], a, c);
  }

  /** Two walks from one position to one root agree in node and path, or the extracted pair is a
      collision. */
  lemma {:induction false} SameRootSameWalk(
    hash: HashFn, x: Digest, y: Digest, i: nat, last: nat, p: seq<Digest>, q: seq<Digest>)
    requires |p| == |q| == PathLength(i, last)
    requires Climb(hash, x, i, last, p).Some?
    requires Climb(hash, x, i, last, p) == Climb(hash, y, i, last, q)
    ensures (x == y && p == q) || ClimbCollision(hash, x, y, i, last, p, q).Breaks(hash)
    decreases last
  {
    if last > 0 {
      if HasSibling(i, last) {
        var a := ParentInput(x, i, p[0]);
        var b := ParentInput(y, i, q[0]);
        SameRootSameWalk(hash, hash(a), hash(b), i / 2, last / 2, p[1..], q[1..]);
        if a == b && p[1..] == q[1..] {
          if i % 2 == 1 {
            NodeInputInjective(p[0], x, q[0], y);
          } else {
            NodeInputInjective(x, p[0], y, q[0]);
          }
          HeadAndTail(p);
          HeadAndTail(q);
        }
      } else {
        SameRootSameWalk(hash, x, y, i / 2, last / 2, p, q);
      }
    }
  }

  /** The collision behind two bodies proved at one position of one root. */
  function PositionCollision(hash: HashFn, x: Bytes, y: Bytes, i: nat, size: nat, p: seq<Digest>, q: seq<Digest>)
    : Collision
    requires i < size && |p| == |q| == PathLength(i, size - 1)
  {
    if LeafHash(hash, x) == LeafHash(hash, y) && p == q then
      Collision(LeafInput(x), LeafInput(y))
    else
      ClimbCollision(hash, LeafHash(hash, x), LeafHash(hash, y), i, size - 1, p, q)
  }

  /** A position under a root holds one body with one path, unless the hash is broken by the extracted
      pair. */
  lemma PositionBindsBody(hash: HashFn, x: Bytes, y: Bytes, i: nat, size: nat, p: seq<Digest>, q: seq<Digest>)
    requires RootFromPath(hash, LeafHash(hash, x), i, size, p).Some?
    requires RootFromPath(hash, LeafHash(hash, x), i, size, p) == RootFromPath(hash, LeafHash(hash, y), i, size, q)
    ensures i < size && |p| == |q| == PathLength(i, size - 1)
    ensures (x == y && p == q) || PositionCollision(hash, x, y, i, size, p, q).Breaks(hash)
  {
    RootExactlyForPathLength(hash, LeafHash(hash, x), i, size - 1, p);
    RootExactlyForPathLength(hash, LeafHash(hash, y), i, size - 1, q);
    SameRootSameWalk(hash, LeafHash(hash, x), LeafHash(hash, y), i, size - 1, p, q);
    if x != y {
      assert LeafInput(x)[1..] == x && LeafInput(y)[1..] == y;
    }
  }

  lemma LengthOfAuditPath(hash: HashFn, leaves: seq<Bytes>, i: nat, body: Bytes, path: seq<Digest>)
    requires RootFromPath(hash, LeafHash(hash, body), i, |leaves|, path).Some?
    ensures i < |leaves| && |path| == |AuditPath(hash, leaves, i)| == PathLength(i, |leaves| - 1)
  {
    RootIffAuditPathLength(hash, leaves, LeafHash(hash, body), i, path);
    RootExactlyForPathLength(hash, LeafHash(hash, body), i, |leaves| - 1, path);
  }

  /** Soundness: a proof that reaches the RFC 6962 root of `leaves` proves the leaf that is really at
      that position, by its real audit path, or yields an explicit collision. */
  lemma InclusionSound(hash: HashFn, leaves: seq<Bytes>, i: nat, body: Bytes, path: seq<Digest>)
    requires RootFromPath(hash, LeafHash(hash, body), i, |leaves|, path) == Some(TreeHash(hash, leaves))
    ensures i < |leaves|
    ensures |path| == |AuditPath(hash, leaves, i)| == PathLength(i, |leaves| - 1)
    ensures (body == leaves[i] && path == AuditPath(hash, leaves, i))
         || PositionCollision(hash, body, leaves[i], i, |leaves|, path, AuditPath(hash, leaves, i)).Breaks(hash)
  {
    LengthOfAuditPath(hash, leaves, i, body, path);
    AuditPathVerifies(hash, leaves, i);
    PositionBindsBody(hash, body, leaves[i], i, |leaves|, path, AuditPath(hash, leaves, i));
  }

  // ---- section 2.1.3.2 of RFC 9162 ----

  /** Step 4.2.2: both indices are shifted until the first is odd or zero. */
  function ShiftWhileEven(fn: nat, sn: nat): (nat, nat) {
    if fn % 2 == 1 || fn == 0 then (fn, sn) else ShiftWhileEven(fn / 2, sn / 2)
  }

  /** Steps 4 and 5, without the comparison against the signed root: `None` is failure. */
  function Rfc9162Walk(hash: HashFn, r: Digest, fn: nat, sn: nat, path: seq<Digest>): Option<Digest>
    decreases path
  {
    if path == [] then
      if sn == 0 then Some(r) else None
    else if sn == 0 then
      None
    else if fn % 2 == 1 || fn == sn then
      var (f, s) := ShiftWhileEven(fn, sn);
      Rfc9162Walk(hash, NodeHash(hash, path[0], r), f / 2, s / 2, path[1..])
    else
      Rfc9162Walk(hash, NodeHash(hash, r, path[0]), fn / 2, sn / 2, path[1..])
  }

  /** Promotion of an unpaired last node is the shift of RFC 9162. */
  lemma {:induction false} ClimbSkipsPromotions(hash: HashFn, x: Digest, i: nat, path: seq<Digest>)
    requires i > 0
    ensures var (f, s) := ShiftWhileEven(i, i);
            f == s && f % 2 == 1 && f <= i && Climb(hash, x, i, i, path) == Climb(hash, x, f, f, path)
    decreases i
  {
    if i % 2 == 0 {
      ClimbSkipsPromotions(hash, x, i / 2, path);
    }
  }

  /** The loop of `recompute_root` is the reference verifier of section 2.1.3.2 of RFC 9162. */
  lemma {:induction false} AgreesWithRfc9162(hash: HashFn, x: Digest, i: nat, last: nat, path: seq<Digest>)
    requires i <= last
    ensures Climb(hash, x, i, last, path) == Rfc9162Walk(hash, x, i, last, path)
    decreases last
  {
    if last > 0 {
      if i == last {
        ClimbSkipsPromotions(hash, x, i, path);
        var (f, s) := ShiftWhileEven(i, i);
        if path != [] {
          AgreesWithRfc9162(hash, NodeHash(hash, path[0], x), f / 2, f / 2, path[1..]);
        }
      } else if path != [] {
        var y := hash(ParentInput(x, i, path[0]));
        AgreesWithRfc9162(hash, y, i / 2, last / 2, path[1..]);
      }
    }
  }

  // ---- an example, and the domains of the hash ----

  lemma {:induction false} Pow2Grows(h: nat, k: nat)
    ensures k >= h ==> Pow2(k) >= Pow2(h)
    decreases k
  {
    if k > h {
      Pow2Grows(h, k - 1);
    }
  }

  lemma SplitOfThree()
    ensures Pow2(SplitLevel(3)) == 2 && Pow2(SplitLevel(2)) == 1
  {
    assert Pow2(0) == 1 && Pow2(1) == 2 && Pow2(2) == 4;
    Pow2Grows(2, SplitLevel(3));
    Pow2Grows(1, SplitLevel(2));
  }

  lemma TwoLeaves(hash: HashFn, a: Bytes, b: Bytes)
    ensures TreeHash(hash, [a, b]) == hash([0x01] + hash([0x00] + a) + hash([0x00] + b))
  {
    SplitOfThree();
    assert [a, b][..1] == [a] && [a, b][1..] == [b];
  }

  /** The tree of three leaves, written out, and the proof of its middle leaf. */
  lemma ThreeLeaves(hash: HashFn, a: Bytes, b: Bytes, c: Bytes)
    ensures var x, y, z := hash([0x00] + a), hash([0x00] + b), hash([0x00] + c);
            var root := hash([0x01] + hash([0x01] + x + y) + z);
            TreeHash(hash, [a, b, c]) == root && RootFromPath(hash, y, 1, 3, [x, z]) == Some(root)
  {
    var leaves := [a, b, c];
    SplitOfThree();
    assert leaves[..2] == [a, b] && leaves[2..] == [c];
    assert [a, b][..1] == [a] && [a, b][1..] == [b];
    TwoLeaves(hash, a, b);
    var x, z := hash([0x00] + a), hash([0x00] + c);
    assert [x, z][1..] == [z] && [z][1..] == [];
  }

  /** A leaf is never hashed as the node above two others: the first byte tells them apart. */
  lemma LeafIsNoNode(body: Bytes, left: Digest, right: Digest)
    ensures LeafInput(body) != NodeInput(left, right)
    ensures LeafInput(body) == [0x00] + body && NodeInput(left, right) == [0x01] + left + right
  {
    assert LeafInput(body)[0] == 0 && NodeInput(left, right)[0] == 1;
  }

  // ---- verify_inclusion_proof ----

  /** Bundle fields are byte strings of any length; a hash of another length makes the proof invalid. */
  datatype InclusionProof = InclusionProof(
    logIndex: u64, rootHash: Bytes, treeSize: u64, hashes: seq<Bytes>, checkpointEnvelope: Bytes)

  function AsDigests(hashes: seq<Bytes>): (r: Option<seq<Digest>>)
    ensures r.Some? <==> forall h :: h in hashes ==> |h| == 32
    ensures r.Some? ==> r.value == hashes
  {
    if hashes == [] then Some([])
    else if |hashes[0]| != 32 then None
    else
      var rest := AsDigests(hashes[1..]);
      if rest.None? then
        assert exists h :: h in hashes[1..] && |h| != 32;
        None
      else
        Some([hashes[0]] + rest.value)
  }

  predicate InclusionProofValid(hash: HashFn, body: Bytes, proof: InclusionProof) {
    |proof.rootHash| == 32 &&
    var hashes := AsDigests(proof.hashes);
    hashes.Some? &&
    RootFromPath(hash, LeafHash(hash, body), proof.logIndex, proof.treeSize, hashes.value) == Some(proof.rootHash)
  }

  method VerifyInclusionProof(hash: HashFn, body: Bytes, proof: InclusionProof) returns (ok: bool)
    ensures ok <==> InclusionProofValid(hash, body, proof)
  {
    if |proof.rootHash| != 32 {
      return false;
    }
    var hashes := AsDigests(proof.hashes);
    if hashes.None? {
      return false;
    }
    var computed := RecomputeRoot(hash, LeafHash(hash, body), proof.logIndex, proof.treeSize, hashes.value);
    return computed == Some(proof.rootHash);
  }
}
