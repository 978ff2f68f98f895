/** The Merkle tree of schemas/examples/verify_golden_vectors.py and
    schemas/examples/verify_residence_allowlist_vectors.py: built level by level,
    a lone last node promoted unchanged, leaves tagged 0x00 and inner nodes 0x01. */
module MerkleTree {
  import opened Prelude

  // ----- Construction ----------------------------------------------------------------

  function LeafHash(H: Bytes -> Digest, leaf: Bytes): Digest {
    H([0x00] + leaf)
  }

  function InternalHash(H: Bytes -> Digest, left: Bytes, right: Bytes): Digest {
    H([0x01] + left + right)
  }

  /** Node `i` of the level above: a pair hashed, or a lone last node as it is. */
  function Node(H: Bytes -> Digest, level: seq<Bytes>, i: nat): Bytes
    requires 2 * i < |level|
  {
    if 2 * i + 1 == |level| then level[2 * i] else InternalHash(H, level[2 * i], level[2 * i + 1])
  }

  function NextLevel(H: Bytes -> Digest, level: seq<Bytes>): (next: seq<Bytes>)
    ensures |next| == (|level| + 1) / 2
  {
    seq((|level| + 1) / 2, i requires 0 <= i < (|level| + 1) / 2 => Node(H, level, i))
  }

  function Levels(H: Bytes -> Digest, level: seq<Bytes>): (levels: seq<seq<Bytes>>)
    requires |level| > 0
    ensures |levels| > 0 && levels[0] == level
    decreases |level|
  {
    if |level| == 1 then [level] else [level] + Levels(H, NextLevel(H, level))
  }

  function Root(H: Bytes -> Digest, level: seq<Bytes>): Bytes
    requires |level| > 0
    decreases |level|
  {
    if |level| == 1 then level[0] else Root(H, NextLevel(H, level))
  }

  /** One pass of the inner loop both checkers run. */
  method BuildNextLevel(H: Bytes -> Digest, level: seq<Bytes>) returns (next: seq<Bytes>)
    ensures next == NextLevel(H, level)
  {
    next := [];
    var i := 0;
    while i < |level|
      invariant 0 <= i <= |level| + 1 && i % 2 == 0
      invariant |next| == i / 2 && next <= NextLevel(H, level)
    {
      if i + 1 == |level| {
        next := next + [level[i]];
      } else {
        next := next + [InternalHash(H, level[i], level[i + 1])];
      }
      i := i + 2;
    }
  }

  method MerkleRoot(H: Bytes -> Digest, leaves: seq<Bytes>) returns (root: Option<Bytes>)
    ensures root == if |leaves| == 0 then None else Some(Root(H, leaves))
  {
    if |leaves| == 0 {
      return None;
    }
    var level := leaves;
    while |level| > 1
      invariant |level| > 0
      invariant Root(H, level) == Root(H, leaves)
      decreases |level|
    {
      level := BuildNextLevel(H, level);
    }
    root := Some(level[0]);
  }

  method MerkleLevels(H: Bytes -> Digest, leaves: seq<Bytes>) returns (levels: Option<seq<seq<Bytes>>>)
    ensures levels == if |leaves| == 0 then None else Some(Levels(H, leaves))
  {
    if |leaves| == 0 {
      return None;
    }
    var built, level := [leaves], leaves;
    while |level| > 1
      invariant |level| > 0
      invariant built + Levels(H, level)[1..] == Levels(H, leaves)
      decreases |level|
    {
      var next := BuildNextLevel(H, level);
      assert Levels(H, level)[1..] == [next] + Levels(H, next)[1..];
      built := built + [next];
      level := next;
    }
    assert built + Levels(H, level)[1..] == built;
    levels := Some(built);
  }

  // ----- The recursive tree hash of RFC 6962, section 2.1 ------------------------------

  /** The largest power of two strictly below `n`. */
  ghost function SplitPoint(n: nat): (k: nat)
    requires n > 1
    ensures 0 < k < n <= 2 * k
    ensures exists e :: k == Pow2(e)
  {
    if n == 2 then assert Pow2(0) == 1; 1
    else
      var half := SplitPoint((n + 1) / 2);
      var e: nat :| half == Pow2(e);
      assert Pow2(e + 1) == 2 * half;
      2 * half
  }

  /** MTH of RFC 6962, on the entries themselves. */
  ghost function MerkleTreeHash(H: Bytes -> Digest, entries: seq<Bytes>): Digest
    requires |entries| > 0
    decreases |entries|
  {
    if |entries| == 1 then H([0x00] + entries[0])
    else
      var k := SplitPoint(|entries|);
      H([0x01] + MerkleTreeHash(H, entries[..k]) + MerkleTreeHash(H, entries[k..]))
  }

  function LeafHashes(H: Bytes -> Digest, leaves: seq<Bytes>): (hashes: seq<Bytes>)
    ensures |hashes| == |leaves|
  {
    seq(|leaves|, i requires 0 <= i < |leaves| => LeafHash(H, leaves[i]))
  }

  lemma LevelSplits(H: Bytes -> Digest, level: seq<Bytes>, m: nat)
    requires 2 * m <= |level|
    ensures NextLevel(H, level)[..m] == NextLevel(H, level[..2 * m])
    ensures NextLevel(H, level)[m..] == NextLevel(H, level[2 * m..])
  {
  }

  lemma RootUp(H: Bytes -> Digest, level: seq<Bytes>)
    requires |level| > 0
    ensures Root(H, level) == Root(H, NextLevel(H, level))
  {
    if |level| == 1 {
      assert NextLevel(H, level) == level;
    }
  }

  lemma FrontRoot(H: Bytes -> Digest, level: seq<Bytes>, m: nat)
    requires 0 < m && 2 * m <= |level|
    ensures Root(H, level[..2 * m]) == Root(H, NextLevel(H, level)[..m])
  {
    LevelSplits(H, level, m);
    RootUp(H, level[..2 * m]);
  }

  lemma BackRoot(H: Bytes -> Digest, level: seq<Bytes>, m: nat)
    requires 2 * m < |level|
    ensures Root(H, level[2 * m..]) == Root(H, NextLevel(H, level)[m..])
  {
    LevelSplits(H, level, m);
    RootUp(H, level[2 * m..]);
  }

  lemma RootOfTwo(H: Bytes -> Digest, level: seq<Bytes>)
    requires |level| == 2
    ensures Root(H, level) == InternalHash(H, level[0], level[1])
  {
    RootUp(H, level);
  }

  /** Level-by-level building splits where RFC 6962 splits. */
  lemma {:induction false} RootSplits(H: Bytes -> Digest, level: seq<Bytes>, e: nat)
    requires Pow2(e) < |level| <= 2 * Pow2(e)
    ensures Root(H, level) == InternalHash(H, Root(H, level[..Pow2(e)]), Root(H, level[Pow2(e)..]))
    decreases e
  {
    if e == 0 {
      RootOfTwo(H, level);
    } else {
      var m := Pow2(e - 1);
      RootUp(H, level);
      FrontRoot(H, level, m);
      BackRoot(H, level, m);
      RootSplits(H, NextLevel(H, level), e - 1);
    }
  }

  /** Both reference checkers compute the tree hash of RFC 6962, section 2.1. */
  lemma {:induction false} RootIsRfc6962(H: Bytes -> Digest, leaves: seq<Bytes>)
    requires |leaves| > 0
    ensures Root(H, LeafHashes(H, leaves)) == MerkleTreeHash(H, leaves)
    decreases |leaves|
  {
    if |leaves| > 1 {
      var k := SplitPoint(|leaves|);
      var e: nat :| k == Pow2(e);
      var hashes := LeafHashes(H, leaves);
      assert hashes[..k] == LeafHashes(H, leaves[..k]) && hashes[k..] == LeafHashes(H, leaves[k..]);
      RootSplits(H, hashes, e);
      RootIsRfc6962(H, leaves[..k]);
      RootIsRfc6962(H, leaves[k..]);
    }
  }

  lemma LevelsUnfold(H: Bytes -> Digest, level: seq<Bytes>)
    requires |level| > 1
    ensures Levels(H, level) == [level] + Levels(H, NextLevel(H, level))
    ensures Levels(H, level)[1..] == Levels(H, NextLevel(H, level))
  {
  }

  /** The last level is the root alone, as the residence checker reads it. */
  lemma {:induction false} LevelsEndAtRoot(H: Bytes -> Digest, level: seq<Bytes>)
    requires |level| > 0
    ensures |Levels(H, level)| == Height(|level|) + 1
    ensures Levels(H, level)[Height(|level|)] == [Root(H, level)]
    decreases |level|
  {
    if |level| > 1 {
      LevelsEndAtRoot(H, NextLevel(H, level));
    }
  }

  // ----- Shape -------------------------------------------------------------------------

  function Height(count: nat): nat {
    if count <= 1 then 0 else 1 + Height((count + 1) / 2)
  }

  lemma {:induction false} HeightBounds(count: nat)
    requires count > 0
    ensures count <= Pow2(Height(count))
    ensures Height(count) > 0 ==> Pow2(Height(count) - 1) < count
    ensures count == 1 <==> Height(count) == 0
  {
    if count > 1 {
      HeightBounds((count + 1) / 2);
    }
  }

  lemma {:induction false} HeightOfPow2(e: nat)
    ensures Height(Pow2(e)) == e
  {
    if e > 0 {
      HeightOfPow2(e - 1);
      assert (Pow2(e) + 1) / 2 == Pow2(e - 1);
    }
  }

  /** Number of nodes `j` levels above `count` leaves. */
  function Width(count: nat, j: nat): nat {
    if j == 0 then count else Width((count + 1) / 2, j - 1)
  }

  /** Index, `j` levels up, of the node above leaf `index`. */
  function Ancestor(index: nat, j: nat): nat {
    if j == 0 then index else Ancestor(index / 2, j - 1)
  }

  lemma {:induction false} LevelWidth(H: Bytes -> Digest, level: seq<Bytes>, j: nat)
    requires |level| > 0 && j <= Height(|level|)
    ensures j < |Levels(H, level)| && |Levels(H, level)[j]| == Width(|level|, j)
    decreases j
  {
    LevelsEndAtRoot(H, level);
    if j > 0 {
      var next := NextLevel(H, level);
      LevelsUnfold(H, level);
      LevelWidth(H, next, j - 1);
      assert Levels(H, level)[j] == Levels(H, next)[j - 1];
    }
  }

  ghost predicate IsPow2(n: nat) {
    exists e :: n == Pow2(e)
  }
}
