/** Inclusion proofs over the tree of `MerkleTree`: how they are read off the levels, how the
    checkers and the dapp replay them, which levels they skip, and what an accepted one shows. */
module MerkleProofs {
  import opened Prelude
  import opened MerkleTree
  import Joining

  datatype ProofStep = ProofStep(siblingOnLeft: bool, sibling: Bytes)

  // ----- Replaying a proof -------------------------------------------------------------

  function Combine(H: Bytes -> Digest, current: Bytes, step: ProofStep): Digest {
    if step.siblingOnLeft then InternalHash(H, step.sibling, current) else InternalHash(H, current, step.sibling)
  }

  /** The hash reached from `current`; the last step is the one next to the root. */
  function Replay(H: Bytes -> Digest, current: Bytes, proof: seq<ProofStep>): Bytes {
    if |proof| == 0 then current
    else Combine(H, Replay(H, current, proof[..|proof| - 1]), proof[|proof| - 1])
  }

  method ReplayProof(H: Bytes -> Digest, leafHash: Bytes, proof: seq<ProofStep>) returns (current: Bytes)
    ensures current == Replay(H, leafHash, proof)
  {
    current := leafHash;
    for i := 0 to |proof|
      invariant current == Replay(H, leafHash, proof[..i])
    {
      assert proof[..i + 1][..i] == proof[..i];
      current := Combine(H, current, proof[i]);
    }
    assert proof[..|proof|] == proof;
  }

  lemma {:induction false} ReplayFromFirst(H: Bytes -> Digest, current: Bytes, first: ProofStep, rest: seq<ProofStep>)
    ensures Replay(H, current, [first] + rest) == Replay(H, Combine(H, current, first), rest)
    decreases |rest|
  {
    var proof := [first] + rest;
    if |rest| == 0 {
      assert proof[..|proof| - 1] == [];
    } else {
      assert proof[..|proof| - 1] == [first] + rest[..|rest| - 1];
      ReplayFromFirst(H, current, first, rest[..|rest| - 1]);
    }
  }

  // ----- Reading a proof off the levels --------------------------------------------------

  function SiblingIndex(index: nat): nat {
    if index % 2 == 0 then index + 1 else index - 1
  }

  function StepAt(level: seq<Bytes>, index: nat): seq<ProofStep> {
    var sibling := SiblingIndex(index);
    if sibling < |level| then [ProofStep(sibling < index, level[sibling])] else []
  }

  function StepsFrom(levels: seq<seq<Bytes>>, index: nat): (steps: seq<ProofStep>) {
    if |levels| <= 1 then [] else StepAt(levels[0], index) + StepsFrom(levels[1..], index / 2)
  }

  lemma StepsFromHere(levels: seq<seq<Bytes>>, level: nat, index: nat)
    requires level + 1 < |levels|
    ensures StepsFrom(levels[level..], index) ==
            StepAt(levels[level], index) + StepsFrom(levels[level + 1..], index / 2)
  {
    assert levels[level..][1..] == levels[level + 1..];
  }

  method ProofSteps(levels: seq<seq<Bytes>>, leafIndex: int) returns (steps: Option<seq<ProofStep>>)
    ensures steps == if |levels| > 0 && 0 <= leafIndex < |levels[0]| then Some(StepsFrom(levels, leafIndex)) else None
  {
    if |levels| == 0 || leafIndex < 0 || leafIndex >= |levels[0]| {
      return None;
    }
    var taken, index: nat, level := [], leafIndex, 0;
    assert levels[0..] == levels;
    while level < |levels| - 1
      invariant 0 <= level <= |levels| - 1
      invariant taken + StepsFrom(levels[level..], index) == StepsFrom(levels, leafIndex)
    {
      StepsFromHere(levels, level, index);
      ghost var here, rest := StepAt(levels[level], index), StepsFrom(levels[level + 1..], index / 2);
      Joining.Regroup(taken, here, rest);
      var sibling := SiblingIndex(index);
      if sibling < |levels[level]| {
        taken := taken + [ProofStep(sibling < index, levels[level][sibling])];
      }
      index := index / 2;
      level := level + 1;
    }
    assert taken + [] == taken;
    steps := Some(taken);
  }

  lemma StepUp(H: Bytes -> Digest, level: seq<Bytes>, index: nat)
    requires index < |level|
    ensures index / 2 < |NextLevel(H, level)|
    ensures StepAt(level, index) == [] ==> NextLevel(H, level)[index / 2] == level[index]
    ensures StepAt(level, index) != [] ==>
      StepAt(level, index) == [StepAt(level, index)[0]]
      && NextLevel(H, level)[index / 2] == Combine(H, level[index], StepAt(level, index)[0])
  {
  }

  lemma StepsUnfold(H: Bytes -> Digest, level: seq<Bytes>, index: nat)
    requires |level| > 1
    ensures StepsFrom(Levels(H, level), index) ==
            StepAt(level, index) + StepsFrom(Levels(H, NextLevel(H, level)), index / 2)
  {
    LevelsUnfold(H, level);
  }

  lemma ReplayStepsAt(H: Bytes -> Digest, level: seq<Bytes>, index: nat, above: Bytes, rest: seq<ProofStep>)
    requires index < |level|
    requires above ==
             if StepAt(level, index) == [] then level[index] else Combine(H, level[index], StepAt(level, index)[0])
    ensures Replay(H, level[index], StepAt(level, index) + rest) == Replay(H, above, rest)
  {
    if StepAt(level, index) == [] {
      assert [] + rest == rest;
    } else {
      ReplayFromFirst(H, level[index], StepAt(level, index)[0], rest);
    }
  }

  /** Completeness: every leaf's proof, read off the levels, replays to the root. */
  lemma {:induction false} ProofReplaysToRoot(H: Bytes -> Digest, level: seq<Bytes>, index: nat)
    requires index < |level|
    ensures Replay(H, level[index], StepsFrom(Levels(H, level), index)) == Root(H, level)
    decreases |level|
  {
    if |level| > 1 {
      var next := NextLevel(H, level);
      StepUp(H, level, index);
      StepsUnfold(H, level, index);
      ReplayStepsAt(H, level, index, next[index / 2], StepsFrom(Levels(H, next), index / 2));
      ProofReplaysToRoot(H, next, index / 2);
    }
  }

  // ----- Promotion -----------------------------------------------------------------------

  /** A last node with nothing on its right. */
  predicate Lone(index: nat, width: nat) {
    width % 2 == 1 && index == width - 1
  }

  function PromotedHere(index: nat, count: nat, level: nat): seq<nat> {
    if Lone(index, count) then [level] else []
  }

  function PromotedFrom(index: nat, count: nat, level: nat): (promoted: seq<nat>)
    decreases count
  {
    if count <= 1 then []
    else PromotedHere(index, count, level) + PromotedFrom(index / 2, (count + 1) / 2, level + 1)
  }

  method PromotedLevelsForLeaf(leafIndex: nat, leafCount: nat) returns (promoted: seq<nat>)
    ensures promoted == PromotedFrom(leafIndex, leafCount, 0)
  {
    promoted := [];
    var index, count, level := leafIndex, leafCount, 0;
    while count > 1
      invariant promoted + PromotedFrom(index, count, level) == PromotedFrom(leafIndex, leafCount, 0)
      decreases count
    {
      Joining.Regroup(promoted, PromotedHere(index, count, level), PromotedFrom(index / 2, (count + 1) / 2, level + 1));
      assert promoted + [] == promoted;
      if count % 2 == 1 && index == count - 1 {
        promoted := promoted + [level];
        index := count / 2;
      } else {
        index := index / 2;
      }
      count := (count + 1) / 2;
      level := level + 1;
    }
    assert promoted + [] == promoted;
  }

  /** The node `j` levels above leaf `index` stands alone on a level below the root. */
  predicate PromotedAt(index: nat, count: nat, j: nat) {
    j < Height(count) && Lone(Ancestor(index, j), Width(count, j))
  }

  lemma {:induction false} PromotedLevelsAscend(index: nat, count: nat, level: nat)
    ensures forall a :: 0 <= a < |PromotedFrom(index, count, level)| ==> level <= PromotedFrom(index, count, level)[a]
    ensures forall a, b :: 0 <= a < b < |PromotedFrom(index, count, level)| ==>
      PromotedFrom(index, count, level)[a] < PromotedFrom(index, count, level)[b]
    decreases count
  {
    if count > 1 {
      PromotedLevelsAscend(index / 2, (count + 1) / 2, level + 1);
      var rest := PromotedFrom(index / 2, (count + 1) / 2, level + 1);
      assert PromotedFrom(index, count, level) == PromotedHere(index, count, level) + rest;
    }
  }

  /** The promoted levels are exactly those where the leaf's ancestor stands alone. */
  lemma {:induction false} PromotedLevelsExact(index: nat, count: nat, level: nat, j: nat)
    ensures level + j in PromotedFrom(index, count, level) <==> PromotedAt(index, count, j)
    decreases count
  {
    if count > 1 {
      var half, rest := (count + 1) / 2, PromotedFrom(index / 2, (count + 1) / 2, level + 1);
      assert PromotedFrom(index, count, level) == PromotedHere(index, count, level) + rest;
      if j == 0 {
        PromotedLevelsAscend(index / 2, half, level + 1);
        assert level !in rest;
      } else {
        PromotedLevelsExact(index / 2, half, level + 1, j - 1);
        assert level + j in PromotedFrom(index, count, level) <==> level + 1 + (j - 1) in rest;
      }
    }
  }

  lemma StepOrPromotion(level: seq<Bytes>, index: nat)
    requires index < |level|
    ensures |StepAt(level, index)| == if Lone(index, |level|) then 0 else 1
  {
  }

  /** Each level below the root gives the leaf either a step or a promotion. */
  lemma {:induction false} StepsAndPromotionsFillHeight(H: Bytes -> Digest, level: seq<Bytes>, index: nat, base: nat)
    requires index < |level|
    ensures |StepsFrom(Levels(H, level), index)| + |PromotedFrom(index, |level|, base)| == Height(|level|)
    decreases |level|
  {
    if |level| > 1 {
      StepsUnfold(H, level, index);
      StepOrPromotion(level, index);
      StepsAndPromotionsFillHeight(H, NextLevel(H, level), index / 2, base + 1);
    }
  }

  datatype PromotionFault = EmptyNextLevel | NotPromotedUnchanged(level: nat) | NoOddPromotion

  predicate PromotedUnchanged(levels: seq<seq<Bytes>>, j: nat)
    requires j + 1 < |levels|
  {
    |levels[j]| % 2 == 1 ==> |levels[j + 1]| > 0 && levels[j + 1][|levels[j + 1]| - 1] == levels[j][|levels[j]| - 1]
  }

  /** The lowest level whose lone last node does not reappear at the end of the next. */
  ghost predicate FirstFault(levels: seq<seq<Bytes>>, j: nat) {
    && j + 1 < |levels| && !PromotedUnchanged(levels, j)
    && forall i: nat :: i < j ==> PromotedUnchanged(levels, i)
  }

  method ValidateOddPromotion(levels: seq<seq<Bytes>>) returns (r: Result<(), PromotionFault>)
    ensures r.Ok? <==>
      && (forall j: nat :: j + 1 < |levels| ==> PromotedUnchanged(levels, j))
      && (exists j: nat :: j + 1 < |levels| && |levels[j]| % 2 == 1)
    ensures r == Err(NoOddPromotion) <==> forall j: nat :: j + 1 < |levels| ==> |levels[j]| % 2 == 0
    ensures r == Err(EmptyNextLevel) <==> exists j: nat :: FirstFault(levels, j) && |levels[j + 1]| == 0
    ensures forall j: nat :: r == Err(NotPromotedUnchanged(j)) <==> FirstFault(levels, j) && |levels[j + 1]| > 0
  {
    var sawOddPromotion, j := false, 0;
    while j + 1 < |levels|
      invariant 0 <= j && (j == 0 || j < |levels|)
      invariant forall i: nat :: i < j ==> PromotedUnchanged(levels, i)
      invariant sawOddPromotion <==> exists i: nat :: i < j && |levels[i]| % 2 == 1
    {
      if |levels[j]| % 2 == 1 {
        if |levels[j + 1]| == 0 {
          assert FirstFault(levels, j);
          return Err(EmptyNextLevel);
        }
        if levels[j + 1][|levels[j + 1]| - 1] != levels[j][|levels[j]| - 1] {
          assert FirstFault(levels, j);
          return Err(NotPromotedUnchanged(j));
        }
        sawOddPromotion := true;
      }
      j := j + 1;
    }
    r := if sawOddPromotion then Ok(()) else Err(NoOddPromotion);
  }

  lemma {:induction false} LevelsPromoteUnchanged(H: Bytes -> Digest, level: seq<Bytes>, j: nat)
    requires |level| > 0 && j + 1 < |Levels(H, level)|
    ensures PromotedUnchanged(Levels(H, level), j)
    decreases j
  {
    LevelsUnfold(H, level);
    var next := NextLevel(H, level);
    if j > 0 {
      LevelsPromoteUnchanged(H, next, j - 1);
    }
  }

  lemma {:induction false} Pow2HasEvenWidths(e: nat, j: nat)
    requires j < e
    ensures Width(Pow2(e), j) % 2 == 0
    decreases j
  {
    if j > 0 {
      assert (Pow2(e) + 1) / 2 == Pow2(e - 1);
      Pow2HasEvenWidths(e - 1, j - 1);
    }
  }

  lemma DoublingPow2(n: nat)
    requires IsPow2(n)
    ensures IsPow2(2 * n)
  {
    var e: nat :| n == Pow2(e);
    assert 2 * n == Pow2(e + 1);
  }

  lemma {:induction false} OtherCountsHaveOddWidth(count: nat) returns (j: nat)
    requires count > 0 && !IsPow2(count)
    ensures j < Height(count) && Width(count, j) % 2 == 1
    decreases count
  {
    assert Pow2(0) == 1;
    j := 0;
    if count % 2 == 0 {
      var half := (count + 1) / 2;
      if IsPow2(half) {
        DoublingPow2(half);
      }
      j := OtherCountsHaveOddWidth(half);
      j := j + 1;
    }
  }

  /** The fixture check of the residence vectors passes on a real tree exactly when its
      leaf count is not a power of two. */
  lemma OddPromotionSeenIffNotPow2(H: Bytes -> Digest, leaves: seq<Bytes>)
    requires |leaves| > 0
    ensures forall j: nat :: j + 1 < |Levels(H, leaves)| ==> PromotedUnchanged(Levels(H, leaves), j)
    ensures (exists j: nat :: j + 1 < |Levels(H, leaves)| && |Levels(H, leaves)[j]| % 2 == 1) <==> !IsPow2(|leaves|)
  {
    var levels := Levels(H, leaves);
    LevelsEndAtRoot(H, leaves);
    forall j: nat | j + 1 < |levels| ensures PromotedUnchanged(levels, j) && |levels[j]| == Width(|leaves|, j) {
      LevelsPromoteUnchanged(H, leaves, j);
      LevelWidth(H, leaves, j);
    }
    if IsPow2(|leaves|) {
      var e: nat :| |leaves| == Pow2(e);
      forall j: nat | j + 1 < |levels| ensures |levels[j]| % 2 == 0 {
        HeightOfPow2(e);
        Pow2HasEvenWidths(e, j);
      }
    } else {
      var j := OtherCountsHaveOddWidth(|leaves|);
      assert |levels[j]| % 2 == 1;
    }
  }

  // ----- Soundness -------------------------------------------------------------------------

  ghost predicate Collision(H: Bytes -> Digest, x: Bytes, y: Bytes) {
    x != y && H(x) == H(y)
  }

  /** The bytes hashed last by a replay, or by the leaf hash when there is no step. */
  function LastPreimage(H: Bytes -> Digest, leaf: Bytes, proof: seq<ProofStep>): (x: Bytes)
    ensures H(x) == Replay(H, LeafHash(H, leaf), proof)
  {
    if |proof| == 0 then [0x00] + leaf
    else
      var below, step := Replay(H, LeafHash(H, leaf), proof[..|proof| - 1]), proof[|proof| - 1];
      if step.siblingOnLeft then [0x01] + step.sibling + below else [0x01] + below + step.sibling
  }

  lemma LastPreimageLeaf(H: Bytes -> Digest, leaf: Bytes, proof: seq<ProofStep>, other: Bytes)
    requires LastPreimage(H, leaf, proof) == [0x00] + other
    ensures leaf == other
  {
    var x, y: Bytes := LastPreimage(H, leaf, proof), [0x00] + other;
    assert x[0] == 0x00 && leaf == x[1..] && other == y[1..];
  }

  /** If the last hashed bytes are those of an inner node, the replay below ended in that node's child. */
  lemma LastPreimageChild(H: Bytes -> Digest, leaf: Bytes, proof: seq<ProofStep>, left: Bytes, right: Bytes)
    requires |left| == |right| == 32
    requires LastPreimage(H, leaf, proof) == [0x01] + left + right
    ensures |proof| > 0
    ensures Replay(H, LeafHash(H, leaf), proof[..|proof| - 1]) ==
            if proof[|proof| - 1].siblingOnLeft then right else left
  {
    var x, y: Bytes := LastPreimage(H, leaf, proof), [0x01] + left + right;
    assert y[0] == 0x01;
    var below, step := Replay(H, LeafHash(H, leaf), proof[..|proof| - 1]), proof[|proof| - 1];
    assert |below| == 32;
    if step.siblingOnLeft {
      assert below == x[|x| - 32..] && right == y[|y| - 32..];
    } else {
      assert below == x[1..33] && left == y[1..33];
    }
  }

  /** Whatever step list, of whatever length and with siblings of whatever width, replays a leaf
      hash to the root of `leaves` either shows the leaf to be among `leaves`, or hands over a
      collision of `H`. */
  lemma {:induction false} InclusionSound(H: Bytes -> Digest, leaves: seq<Bytes>, leaf: Bytes, proof: seq<ProofStep>)
    returns (index: nat, x: Bytes, y: Bytes)
    requires |leaves| > 0
    requires Replay(H, LeafHash(H, leaf), proof) == Root(H, LeafHashes(H, leaves))
    ensures (index < |leaves| && leaves[index] == leaf) || Collision(H, x, y)
    decreases |leaves|
  {
    RootIsRfc6962(H, leaves);
    index, x := 0, LastPreimage(H, leaf, proof);
    if |leaves| == 1 {
      y := [0x00] + leaves[0];
      if x == y {
        LastPreimageLeaf(H, leaf, proof, leaves[0]);
      }
      return;
    }
    var k := SplitPoint(|leaves|);
    y := [0x01] + MerkleTreeHash(H, leaves[..k]) + MerkleTreeHash(H, leaves[k..]);
    if x == y {
      LastPreimageChild(H, leaf, proof, MerkleTreeHash(H, leaves[..k]), MerkleTreeHash(H, leaves[k..]));
      if proof[|proof| - 1].siblingOnLeft {
        RootIsRfc6962(H, leaves[k..]);
        index, x, y := InclusionSound(H, leaves[k..], leaf, proof[..|proof| - 1]);
        index := k + index;
      } else {
        RootIsRfc6962(H, leaves[..k]);
        index, x, y := InclusionSound(H, leaves[..k], leaf, proof[..|proof| - 1]);
      }
    }
  }
}
