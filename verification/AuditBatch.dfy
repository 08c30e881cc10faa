/** The Merkle tree of a day's settlements (lib/server/audit-batches.ts). */
module AuditBatch {
  import opened Wrappers
  import opened JsText
  import opened Arith

  type Hash = string -> string

  type Level = seq<string>

  datatype Side = Left | Right

  datatype ProofStep = ProofStep(side: Side, hash: string)

  datatype BatchError = NoSettlements

  function Parent(h: Hash, left: string, right: string): string {
    h(left + right)
  }

  /** The right neighbour within a level; the last of an odd level repeats. */
  function Neighbour(level: Level, index: nat): string
    requires index < |level|
  {
    if index + 1 < |level| then level[index + 1] else level[index]
  }

  lemma {:induction false} NeighbourAt(level: Level, index: nat)
    requires index < |level|
    ensures Neighbour(level, index) == level[if index + 1 < |level| then index + 1 else |level| - 1]
  {
  }

  function NextLevel(h: Hash, level: Level): (next: Level)
    ensures |next| == (|level| + 1) / 2
  {
    seq((|level| + 1) / 2, i requires 0 <= i < (|level| + 1) / 2 =>
      Parent(h, level[2 * i], Neighbour(level, 2 * i)))
  }

  /** All levels from the leaves up to the root. */
  function Levels(h: Hash, leaves: Level): (levels: seq<Level>)
    requires leaves != []
    ensures levels != [] && levels[0] == leaves
    ensures |Last(levels)| == 1
    decreases |leaves|
  {
    if |leaves| == 1 then [leaves] else [leaves] + Levels(h, NextLevel(h, leaves))
  }

  function Root(h: Hash, leaves: Level): string
    requires leaves != []
  {
    Last(Levels(h, leaves))[0]
  }

  lemma {:induction false} NextLevelAt(h: Hash, level: Level, i: nat)
    requires 2 * i < |level|
    ensures i < |NextLevel(h, level)|
    ensures NextLevel(h, level)[i] == Parent(h, level[2 * i], Neighbour(level, 2 * i))
  {
  }

  lemma {:induction false} LevelsStep(h: Hash, levels: seq<Level>)
    requires levels != [] && |Last(levels)| > 1
    ensures var longer := levels + [NextLevel(h, Last(levels))];
            Front(longer) + Levels(h, Last(longer)) == Front(levels) + Levels(h, Last(levels))
  {
    hide NextLevel;
    var current := Last(levels);
    var next := NextLevel(h, current);
    assert Front(levels + [next]) == levels == Front(levels) + [current];
    assert Levels(h, current) == [current] + Levels(h, next);
  }

  /** Each value above is the hash of the two below it in their order, the last
      of an odd level standing for both. */
  predicate HashesPairs(h: Hash, below: Level, above: Level) {
    |above| == (|below| + 1) / 2
    && forall i :: 0 <= i < |above| ==>
         2 * i < |below| && above[i] == h(below[2 * i] + below[if 2 * i + 1 < |below| then 2 * i + 1 else 2 * i])
  }

  lemma {:induction false} NextHashes(h: Hash, level: Level)
    ensures HashesPairs(h, level, NextLevel(h, level))
  {
  }

  lemma {:induction false} LevelsHash(h: Hash, leaves: Level, k: nat)
    requires leaves != [] && k + 1 < |Levels(h, leaves)|
    ensures HashesPairs(h, Levels(h, leaves)[k], Levels(h, leaves)[k + 1])
    decreases |leaves|
  {
    hide HashesPairs;
    var next := NextLevel(h, leaves);
    assert Levels(h, leaves) == [leaves] + Levels(h, next);
    if k == 0 {
      NextHashes(h, leaves);
    } else {
      hide NextLevel;
      LevelsHash(h, next, k - 1);
      assert Levels(h, leaves)[k] == Levels(h, next)[k - 1] && Levels(h, leaves)[k + 1] == Levels(h, next)[k];
    }
  }

  method BuildMerkleTree(h: Hash, leaves: Level) returns (tree: Result<seq<Level>, BatchError>)
    ensures leaves == [] ==> tree == Err(NoSettlements)
    ensures leaves != [] ==> tree == Ok(Levels(h, leaves))
    ensures leaves != [] ==> tree.value != [] && tree.value[0] == leaves && |Last(tree.value)| == 1
    ensures leaves != [] ==> forall k :: 0 <= k < |tree.value| - 1 ==> HashesPairs(h, tree.value[k], tree.value[k + 1])
  {
    hide NextLevel, Parent, Neighbour, HashesPairs;
    if |leaves| == 0 {
      return Err(NoSettlements);
    }
    var levels := [leaves];
    while |Last(levels)| > 1
      invariant levels != [] && Last(levels) != []
      invariant Front(levels) + Levels(h, Last(levels)) == Levels(h, leaves)
      decreases |Last(levels)|
    {
      hide Levels;
      var current := Last(levels);
      var next: Level := [];
      var index := 0;
      while index < |current|
        invariant index == 2 * |next| && index <= |current| + 1
        invariant next == NextLevel(h, current)[..|next|]
      {
        NextLevelAt(h, current, |next|);
        next := next + [Parent(h, current[index], Neighbour(current, index))];
        index := index + 2;
      }
      assert next == NextLevel(h, current);
      LevelsStep(h, levels);
      levels := levels + [next];
    }
    assert Levels(h, Last(levels)) == [Last(levels)];
    assert levels == Front(levels) + [Last(levels)] == Levels(h, leaves);
    hide Levels;
    forall k | 0 <= k < |levels| - 1 ensures HashesPairs(h, levels[k], levels[k + 1]) { LevelsHash(h, leaves, k); }
    return Ok(levels);
  }

  // ---- inclusion proofs ----

  function StepAt(level: Level, index: nat): ProofStep
    requires index < |level|
  {
    if index % 2 == 1 then ProofStep(Left, level[index - 1]) else ProofStep(Right, Neighbour(level, index))
  }

  /** Whether an index stays inside as it is halved from level to level. */
  predicate Fits(levels: seq<Level>, index: nat)
    decreases |levels|
  {
    levels != [] ==> index < |levels[0]| && Fits(levels[1..], index / 2)
  }

  function ProofOf(levels: seq<Level>, index: nat): seq<ProofStep>
    requires Fits(levels, index)
    decreases |levels|
  {
    if |levels| <= 1 then [] else [StepAt(levels[0], index)] + ProofOf(levels[1..], index / 2)
  }

  method ProofForIndex(levels: seq<Level>, leafIndex: nat) returns (proof: seq<ProofStep>)
    requires Fits(levels, leafIndex)
    ensures proof == ProofOf(levels, leafIndex)
  {
    proof := [];
    var index := leafIndex;
    var k := 0;
    while k + 1 < |levels|
      invariant 0 <= k <= |levels| && Fits(levels[k..], index)
      invariant proof + ProofOf(levels[k..], index) == ProofOf(levels, leafIndex)
    {
      proof := proof + [StepAt(levels[k], index)];
      assert levels[k..][1..] == levels[k + 1..];
      index := index / 2;
      k := k + 1;
    }
  }

  /** The value a proof leads to from a leaf. */
  function Climb(h: Hash, leaf: string, proof: seq<ProofStep>): string
    decreases |proof|
  {
    if proof == [] then leaf else Climb(h, Above(h, leaf, proof[0]), proof[1..])
  }

  function Above(h: Hash, current: string, step: ProofStep): string {
    if step.side.Left? then Parent(h, step.hash, current) else Parent(h, current, step.hash)
  }

  predicate VerifyMerkleProof(h: Hash, leaf: string, proof: seq<ProofStep>, root: string) {
    Climb(h, leaf, proof) == root
  }

  /** A proof is checked step by step: the named hash goes before or behind the
      value reached so far, and both are hashed. */
  lemma {:induction false} VerifiedStep(h: Hash, leaf: string, step: ProofStep, rest: seq<ProofStep>, root: string)
    ensures VerifyMerkleProof(h, leaf, [], root) <==> leaf == root
    ensures VerifyMerkleProof(h, leaf, [step] + rest, root)
       <==> VerifyMerkleProof(h, if step.side.Left? then h(step.hash + leaf) else h(leaf + step.hash), rest, root)
  {
    assert ([step] + rest)[1..] == rest;
  }

  /** The index of the ancestor `k` levels up. */
  function Ancestor(index: nat, k: nat): nat {
    if k == 0 then index else Ancestor(index / 2, k - 1)
  }

  lemma {:induction false} AncestorIs(index: nat, k: nat)
    ensures Ancestor(index, k) == index / Pow2(k)
  {
    if k > 0 {
      AncestorIs(index / 2, k - 1);
      DivDiv(index, 2, Pow2(k - 1));
    }
  }

  lemma {:induction false} DivDiv(n: nat, a: nat, b: nat)
    requires a > 0 && b > 0 && a * b > 0
    ensures n / a / b == n / (a * b)
  {
    var q, r := n / a, n % a;
    var w, e := q / b, q % b;
    DivModIdentity(n, a);
    DivModIdentity(q, b);
    MulAdd(w * b, e, a);
    MulAssoc(w, b, a);
    MulLe(e + 1, b, a);
    MulAdd(e, 1, a);
    MulNonNeg(e, a);
    DivModUnique(n, a * b, w, e * a + r);
  }

  /** Step `k` names the sibling of the ancestor `k` levels up: the one before
      an odd index, the one behind an even one, or the value itself without. */
  lemma {:induction false} ProofNames(levels: seq<Level>, index: nat, k: nat)
    requires Fits(levels, index) && k + 1 < |levels|
    ensures |ProofOf(levels, index)| == |levels| - 1
    ensures Ancestor(index, k) == index / Pow2(k) && Ancestor(index, k) < |levels[k]|
    ensures var i, level := Ancestor(index, k), levels[k];
            ProofOf(levels, index)[k] == if i % 2 == 1 then ProofStep(Left, level[i - 1])
                                         else if i + 1 < |level| then ProofStep(Right, level[i + 1])
                                         else ProofStep(Right, level[i])
    decreases |levels|
  {
    AncestorIs(index, k);
    hide Pow2;
    if k > 0 {
      ProofNames(levels[1..], index / 2, k - 1);
    } else if |levels| > 2 {
      ProofNames(levels[1..], index / 2, 0);
    }
  }

  lemma {:induction false} LevelsFit(h: Hash, leaves: Level, index: nat)
    requires index < |leaves|
    ensures Fits(Levels(h, leaves), index)
    decreases |leaves|
  {
    if |leaves| > 1 {
      LevelsFit(h, NextLevel(h, leaves), index / 2);
      assert Levels(h, leaves)[1..] == Levels(h, NextLevel(h, leaves));
    } else {
      assert Levels(h, leaves)[1..] == [];
    }
  }

  lemma {:induction false} AboveIsNext(h: Hash, leaves: Level, index: nat)
    requires index < |leaves|
    ensures index / 2 < |NextLevel(h, leaves)|
    ensures Above(h, leaves[index], StepAt(leaves, index)) == NextLevel(h, leaves)[index / 2]
  {
    NextLevelAt(h, leaves, index / 2);
    hide NextLevel;
    if index % 2 == 1 {
      assert 2 * (index / 2) == index - 1;
    } else {
      assert 2 * (index / 2) == index;
    }
  }

  /** Every leaf's own proof leads to the root, for every number of leaves. */
  lemma {:induction false} ProofVerifies(h: Hash, leaves: Level, index: nat)
    requires index < |leaves|
    ensures Fits(Levels(h, leaves), index)
    ensures VerifyMerkleProof(h, leaves[index], ProofOf(Levels(h, leaves), index), Root(h, leaves))
    decreases |leaves|
  {
    LevelsFit(h, leaves, index);
    if |leaves| > 1 {
      hide NextLevel, Above, StepAt, Fits;
      var next := NextLevel(h, leaves);
      ProofVerifies(h, next, index / 2);
      AboveIsNext(h, leaves, index);
      assert Levels(h, leaves) == [leaves] + Levels(h, next);
      assert Levels(h, leaves)[1..] == Levels(h, next);
      var proof := ProofOf(Levels(h, leaves), index);
      assert proof == [StepAt(leaves, index)] + ProofOf(Levels(h, next), index / 2);
      assert proof[1..] == ProofOf(Levels(h, next), index / 2);
    }
  }

  // ---- what a root stands for ----

  /** The number of levels above `n` leaves. */
  function Depth(n: nat): nat {
    if n <= 1 then 0 else 1 + Depth((n + 1) / 2)
  }

  /** The leaf that a position of the full binary tree reads. */
  function Source(n: nat, position: nat): (index: nat)
    requires n > 0
    ensures index < n
  {
    if n == 1 then 0
    else
      var index := 2 * Source((n + 1) / 2, position / 2) + position % 2;
      if index < n then index else n - 1
  }

  /** The leaves of the full binary tree: repeated where a level was odd. It is
      defined by positions alone and knows nothing of the hash. */
  function Filled(leaves: Level): (full: Level)
    requires leaves != []
    ensures |full| == Pow2(Depth(|leaves|))
  {
    seq(Pow2(Depth(|leaves|)), p requires 0 <= p < Pow2(Depth(|leaves|)) => leaves[Source(|leaves|, p)])
  }

  lemma {:induction false} LevelsDepth(h: Hash, leaves: Level)
    requires leaves != []
    ensures |Levels(h, leaves)| == Depth(|leaves|) + 1
    decreases |leaves|
  {
    if |leaves| > 1 { LevelsDepth(h, NextLevel(h, leaves)); }
  }

  lemma {:induction false} SourceOfChildren(n: nat, q: nat)
    requires n > 1
    ensures var i := Source((n + 1) / 2, q);
            Source(n, 2 * q) == 2 * i && Source(n, 2 * q + 1) == if 2 * i + 1 < n then 2 * i + 1 else n - 1
  {
    assert (2 * q) / 2 == q && (2 * q) % 2 == 0;
    assert (2 * q + 1) / 2 == q && (2 * q + 1) % 2 == 1;
  }

  lemma {:induction false} DepthDoubles(n: nat)
    requires n > 1
    ensures Pow2(Depth(n)) == 2 * Pow2(Depth((n + 1) / 2))
  {
  }

  lemma {:induction false} FilledAt(leaves: Level, position: nat)
    requires leaves != [] && position < Pow2(Depth(|leaves|))
    ensures Filled(leaves)[position] == leaves[Source(|leaves|, position)]
  {
  }

  lemma {:induction false} FilledFromLeaves(leaves: Level, position: nat)
    requires leaves != [] && position < |Filled(leaves)|
    ensures Filled(leaves)[position] in leaves
  {
    FilledAt(leaves, position);
  }

  /** One level up, every position holds the parent of its two children. */
  lemma {:induction false} FilledNext(h: Hash, leaves: Level, q: nat)
    requires |leaves| > 1 && q < Pow2(Depth((|leaves| + 1) / 2))
    ensures 2 * q + 1 < Pow2(Depth(|leaves|))
    ensures Filled(NextLevel(h, leaves))[q] == Parent(h, Filled(leaves)[2 * q], Filled(leaves)[2 * q + 1])
  {
    hide *;
    var n, next := |leaves|, NextLevel(h, leaves);
    DepthDoubles(n);
    var i := Source((n + 1) / 2, q);
    SourceOfChildren(n, q);
    FilledAt(leaves, 2 * q);
    FilledAt(leaves, 2 * q + 1);
    FilledAt(next, q);
    NextLevelAt(h, leaves, i);
    assert Neighbour(leaves, 2 * i) == leaves[Source(n, 2 * q + 1)] by { NeighbourAt(leaves, 2 * i); }
  }

  /** No two different pairs of the given nodes have one parent. */
  ghost predicate NoCollisions(h: Hash, nodes: set<string>) {
    forall a, b, c, d ::
      a in nodes && b in nodes && c in nodes && d in nodes && Parent(h, a, b) == Parent(h, c, d) ==> a == c && b == d
  }

  lemma {:induction false} OneParent(h: Hash, nodes: set<string>, a: string, b: string, c: string, d: string)
    requires NoCollisions(h, nodes) && a in nodes && b in nodes && c in nodes && d in nodes
    requires Parent(h, a, b) == Parent(h, c, d)
    ensures a == c && b == d
  {
  }

  predicate AllIn(level: Level, nodes: set<string>) {
    forall k :: 0 <= k < |level| ==> level[k] in nodes
  }

  lemma {:induction false} InNodes(level: Level, nodes: set<string>, k: nat)
    requires AllIn(level, nodes) && k < |level|
    ensures level[k] in nodes
  {
  }

  /** The nodes of a whole tree. */
  predicate TreeIn(levels: seq<Level>, nodes: set<string>) {
    forall k :: 0 <= k < |levels| ==> AllIn(levels[k], nodes)
  }

  lemma {:induction false} TreeAbove(h: Hash, leaves: Level, nodes: set<string>)
    requires |leaves| > 1 && TreeIn(Levels(h, leaves), nodes)
    ensures TreeIn(Levels(h, NextLevel(h, leaves)), nodes) && AllIn(Filled(leaves), nodes)
  {
    var levels, above := Levels(h, leaves), Levels(h, NextLevel(h, leaves));
    assert levels == [leaves] + above;
    forall k | 0 <= k < |above| ensures AllIn(above[k], nodes) {
      assert above[k] == levels[k + 1];
    }
    assert AllIn(levels[0], nodes);
  }

  /** Whether two levels agree at a node exactly when they agree on its children. */
  predicate AgreeAt(up: Level, up': Level, full: Level, full': Level, q: nat)
    requires q < |up| == |up'| && |full| == |full'| == 2 * |up|
  {
    up[q] == up'[q] <==> full[2 * q] == full'[2 * q] && full[2 * q + 1] == full'[2 * q + 1]
  }

  lemma {:induction false} AgreeBelow(up: Level, up': Level, full: Level, full': Level)
    requires |up| == |up'| && |full| == |full'| == 2 * |up|
    requires forall q :: 0 <= q < |up| ==> AgreeAt(up, up', full, full', q)
    ensures up == up' <==> full == full'
  {
    if up == up' {
      forall p | 0 <= p < |full| ensures full[p] == full'[p] {
        assert AgreeAt(up, up', full, full', p / 2);
        assert p == 2 * (p / 2) || p == 2 * (p / 2) + 1;
      }
    }
    if full == full' {
      forall q | 0 <= q < |up| ensures up[q] == up'[q] {
        assert AgreeAt(up, up', full, full', q);
      }
    }
  }

  lemma {:induction false} FilledLength(h: Hash, leaves: Level)
    requires |leaves| > 1
    ensures |Filled(leaves)| == 2 * |Filled(NextLevel(h, leaves))| == Pow2(Depth(|leaves|))
  {
  }

  lemma {:induction false} FilledBelowAt(h: Hash, a: Level, b: Level, nodes: set<string>, q: nat)
    requires |a| > 1 && |b| > 1 && Depth(|a|) == Depth(|b|)
    requires NoCollisions(h, nodes) && AllIn(Filled(a), nodes) && AllIn(Filled(b), nodes)
    requires |Filled(b)| == |Filled(a)| == 2 * |Filled(NextLevel(h, a))|
    requires q < |Filled(NextLevel(h, a))| == |Filled(NextLevel(h, b))|
    ensures AgreeAt(Filled(NextLevel(h, a)), Filled(NextLevel(h, b)), Filled(a), Filled(b), q)
  {
    assert Depth((|a| + 1) / 2) == Depth((|b| + 1) / 2);
    hide Filled, Source, NextLevel, Parent, Depth, Pow2;
    FilledNext(h, a, q);
    FilledNext(h, b, q);
  }

  /** Filled lists agree one level up exactly when they agree below. */
  lemma {:induction false} FilledBelow(h: Hash, a: Level, b: Level, nodes: set<string>)
    requires |a| > 1 && |b| > 1 && Depth(|a|) == Depth(|b|)
    requires NoCollisions(h, nodes) && AllIn(Filled(a), nodes) && AllIn(Filled(b), nodes)
    ensures Filled(NextLevel(h, a)) == Filled(NextLevel(h, b)) <==> Filled(a) == Filled(b)
  {
    hide *;
    var up, up' := Filled(NextLevel(h, a)), Filled(NextLevel(h, b));
    FilledLength(h, a);
    FilledLength(h, b);
    forall q | 0 <= q < |up| ensures AgreeAt(up, up', Filled(a), Filled(b), q) {
      FilledBelowAt(h, a, b, nodes, q);
    }
    AgreeBelow(up, up', Filled(a), Filled(b));
  }

  /** Trees of one depth share a root exactly when their filled lists agree. */
  lemma {:induction false} SameDepthRoots(h: Hash, a: Level, b: Level, nodes: set<string>)
    requires a != [] && b != [] && Depth(|a|) == Depth(|b|)
    requires NoCollisions(h, nodes) && TreeIn(Levels(h, a), nodes) && TreeIn(Levels(h, b), nodes)
    ensures Root(h, a) == Root(h, b) <==> Filled(a) == Filled(b)
    decreases |a|
  {
    if |a| == 1 {
      assert |b| == 1;
      assert Filled(a) == a && Filled(b) == b;
    } else {
      TreeAbove(h, a, nodes);
      TreeAbove(h, b, nodes);
      SameDepthRoots(h, NextLevel(h, a), NextLevel(h, b), nodes);
      FilledBelow(h, a, b, nodes);
    }
  }

  /** A level is the leaf list of a tree with the same root. */
  lemma {:induction false} LevelRoot(h: Hash, leaves: Level, k: nat)
    requires leaves != [] && k <= Depth(|leaves|)
    ensures |Levels(h, leaves)| == Depth(|leaves|) + 1
    ensures var level := Levels(h, leaves)[k];
            level != [] && Depth(|level|) == Depth(|leaves|) - k
            && Levels(h, level) == Levels(h, leaves)[k..] && Root(h, level) == Root(h, leaves)
    decreases |leaves|
  {
    LevelsDepth(h, leaves);
    if k > 0 {
      LevelRoot(h, NextLevel(h, leaves), k - 1);
      assert Levels(h, leaves)[k] == Levels(h, NextLevel(h, leaves))[k - 1];
      assert Levels(h, leaves)[k..] == Levels(h, NextLevel(h, leaves))[k - 1..];
    }
  }

  /** Exactly when two leaf lists share a root, for every pair of lists: the
      shallower list, filled, is the filled level of the deeper tree that lies
      as many levels below its root. */
  lemma {:induction false} SharedRootIff(h: Hash, a: Level, b: Level, nodes: set<string>)
    requires a != [] && b != [] && Depth(|a|) <= Depth(|b|)
    requires NoCollisions(h, nodes) && TreeIn(Levels(h, a), nodes) && TreeIn(Levels(h, b), nodes)
    ensures var k := Depth(|b|) - Depth(|a|);
            k < |Levels(h, b)| && Levels(h, b)[k] != []
            && (Root(h, a) == Root(h, b) <==> Filled(a) == Filled(Levels(h, b)[k]))
  {
    hide Filled, Root, Levels, Depth;
    var k := Depth(|b|) - Depth(|a|);
    LevelRoot(h, b, k);
    var level := Levels(h, b)[k];
    assert TreeIn(Levels(h, level), nodes) by {
      assert forall j :: 0 <= j < |Levels(h, level)| ==> Levels(h, level)[j] == Levels(h, b)[k + j];
    }
    SameDepthRoots(h, a, level, nodes);
  }

  /** Repeating the last leaf of an odd list keeps the root, whatever the hash. */
  lemma {:induction false} RepeatedLastLeaf(h: Hash, leaves: Level)
    requires |leaves| > 1 && |leaves| % 2 == 1
    ensures Root(h, leaves) == Root(h, leaves + [Last(leaves)])
    ensures leaves != leaves + [Last(leaves)]
  {
    var longer := leaves + [Last(leaves)];
    assert NextLevel(h, leaves) == NextLevel(h, longer);
  }

  // ---- batches without repeated leaves ----

  predicate Distinct(leaves: Level) {
    forall i, j :: 0 <= i < j < |leaves| ==> leaves[i] != leaves[j]
  }

  /** The first positions read the leaves themselves. */
  lemma {:induction false} SourceOfLeaf(n: nat, index: nat)
    requires index < n
    ensures Source(n, index) == index && index < Pow2(Depth(n))
    decreases n
  {
    if n > 1 { SourceOfLeaf((n + 1) / 2, index / 2); }
  }

  lemma {:induction false} FilledStarts(leaves: Level, index: nat)
    requires index < |leaves|
    ensures index < |Filled(leaves)| && Filled(leaves)[index] == leaves[index]
  {
    SourceOfLeaf(|leaves|, index);
  }

  lemma {:induction false} FilledShorter(a: Level, b: Level)
    requires a != [] && |a| < |b| && Filled(a) == Filled(b)
    ensures !Distinct(b)
  {
    var n := |a|;
    FilledStarts(b, n);
    var i := Source(n, n);
    assert Filled(a)[n] == a[i];
    FilledStarts(a, i);
    FilledStarts(b, i);
    assert b[i] == b[n];
  }

  lemma {:induction false} DistinctFilled(a: Level, b: Level)
    requires a != [] && b != [] && Distinct(a) && Distinct(b)
    ensures Filled(a) == Filled(b) <==> a == b
  {
    if Filled(a) == Filled(b) {
      if |a| < |b| { FilledShorter(a, b); }
      if |b| < |a| { FilledShorter(b, a); }
      hide Filled;
      forall i | 0 <= i < |a| ensures a[i] == b[i] {
        FilledStarts(a, i);
        FilledStarts(b, i);
      }
    }
  }

  ghost predicate IsParent(h: Hash, value: string, nodes: set<string>) {
    exists a, b :: a in nodes && b in nodes && value == Parent(h, a, b)
  }

  /** No leaf is itself the parent of two nodes. */
  ghost predicate NoParents(h: Hash, leaves: Level, nodes: set<string>) {
    forall leaf :: leaf in leaves ==> !IsParent(h, leaf, nodes)
  }

  /** For batches whose leaves are distinct and are not parents, as hashes of
      different settlements are, the root names exactly one list, in order. */
  lemma {:induction false} RootNamesBatch(h: Hash, a: Level, b: Level, nodes: set<string>)
    requires a != [] && b != [] && Distinct(a) && Distinct(b)
    requires NoCollisions(h, nodes) && TreeIn(Levels(h, a), nodes) && TreeIn(Levels(h, b), nodes)
    requires NoParents(h, a, nodes) && NoParents(h, b, nodes)
    ensures Root(h, a) == Root(h, b) <==> a == b
  {
    if Root(h, a) == Root(h, b) {
      if Depth(|a|) < Depth(|b|) { DeeperDiffers(h, a, b, nodes); }
      if Depth(|b|) < Depth(|a|) { DeeperDiffers(h, b, a, nodes); }
      SameDepthRoots(h, a, b, nodes);
      DistinctFilled(a, b);
    }
  }

  lemma {:induction false} DeeperDiffers(h: Hash, a: Level, b: Level, nodes: set<string>)
    requires a != [] && b != [] && Depth(|a|) < Depth(|b|)
    requires NoCollisions(h, nodes) && TreeIn(Levels(h, a), nodes) && TreeIn(Levels(h, b), nodes)
    requires NoParents(h, a, nodes)
    ensures Root(h, a) != Root(h, b)
  {
    hide Filled, Root, Levels, Depth, NextLevel, Distinct;
    var k := Depth(|b|) - Depth(|a|);
    SharedRootIff(h, a, b, nodes);
    LevelsDepth(h, b);
    LevelRoot(h, b, k);
    ParentLevel(h, b, k, 0, nodes);
    FilledStarts(a, 0);
    FilledStarts(Levels(h, b)[k], 0);
    assert a[0] != Levels(h, b)[k][0];
  }

  /** A value in a level above the leaves is the parent of two below. */
  lemma {:induction false} ParentLevel(h: Hash, leaves: Level, k: nat, i: nat, nodes: set<string>)
    requires leaves != [] && 0 < k < |Levels(h, leaves)| && i < |Levels(h, leaves)[k]|
    requires TreeIn(Levels(h, leaves), nodes)
    ensures IsParent(h, Levels(h, leaves)[k][i], nodes)
    decreases |leaves|
  {
    var next := NextLevel(h, leaves);
    assert Levels(h, leaves) == [leaves] + Levels(h, next);
    assert Levels(h, leaves)[k] == Levels(h, next)[k - 1];
    TreeAbove(h, leaves, nodes);
    if k > 1 {
      hide Levels, Parent, NextLevel, IsParent;
      ParentLevel(h, next, k - 1, i, nodes);
    } else {
      assert AllIn(Levels(h, leaves)[0], nodes);
      hide Levels, Parent, TreeIn, Filled;
      assert next[i] == Parent(h, leaves[2 * i], Neighbour(leaves, 2 * i));
      assert leaves[2 * i] in nodes && Neighbour(leaves, 2 * i) in nodes;
    }
  }

  // ---- what an accepted proof shows ----

  /** The position that the sides of a proof spell out. */
  function Position(proof: seq<ProofStep>): nat
    decreases |proof|
  {
    if proof == [] then 0 else 2 * Position(proof[1..]) + (if proof[0].side.Left? then 1 else 0)
  }

  /** The values a proof names and passes through. */
  predicate PathIn(h: Hash, leaf: string, proof: seq<ProofStep>, nodes: set<string>)
    decreases |proof|
  {
    leaf in nodes
    && (proof != [] ==> proof[0].hash in nodes && PathIn(h, Above(h, leaf, proof[0]), proof[1..], nodes))
  }

  /** A step that reaches a filled position one level up starts at its child. */
  lemma {:induction false} ChildOfNext(h: Hash, leaves: Level, leaf: string, step: ProofStep, q: nat,
                                       nodes: set<string>)
    requires |leaves| > 1 && q < |Filled(NextLevel(h, leaves))|
    requires Filled(NextLevel(h, leaves))[q] == Above(h, leaf, step)
    requires NoCollisions(h, nodes) && AllIn(Filled(leaves), nodes) && leaf in nodes && step.hash in nodes
    ensures 2 * q + 1 < |Filled(leaves)|
    ensures Filled(leaves)[2 * q + (if step.side.Left? then 1 else 0)] == leaf
  {
    hide Filled, NextLevel, Parent, Depth, Pow2, NoCollisions, Source, AllIn;
    FilledNext(h, leaves, q);
    var left, right := Filled(leaves)[2 * q], Filled(leaves)[2 * q + 1];
    InNodes(Filled(leaves), nodes, 2 * q);
    InNodes(Filled(leaves), nodes, 2 * q + 1);
    if step.side.Left? {
      OneParent(h, nodes, left, right, step.hash, leaf);
    } else {
      OneParent(h, nodes, left, right, leaf, step.hash);
    }
  }

  /** An accepted proof of the tree's depth leads from exactly the leaf at the
      position its sides spell out, so nothing outside the batch is accepted. */
  lemma {:induction false} AcceptedProofIsLeaf(h: Hash, leaves: Level, leaf: string, proof: seq<ProofStep>,
                                               nodes: set<string>)
    requires leaves != [] && |proof| == Depth(|leaves|)
    requires VerifyMerkleProof(h, leaf, proof, Root(h, leaves))
    requires NoCollisions(h, nodes) && TreeIn(Levels(h, leaves), nodes) && PathIn(h, leaf, proof, nodes)
    ensures Position(proof) < |Filled(leaves)| && Filled(leaves)[Position(proof)] == leaf
    decreases |leaves|
  {
    if |leaves| > 1 {
      var next, q := NextLevel(h, leaves), Position(proof[1..]);
      TreeAbove(h, leaves, nodes);
      assert Root(h, leaves) == Root(h, next);
      assert PathIn(h, Above(h, leaf, proof[0]), proof[1..], nodes);
      hide Filled, Root, Levels, NextLevel, Above, Parent, PathIn, TreeIn, AllIn, NoCollisions;
      AcceptedProofIsLeaf(h, next, Above(h, leaf, proof[0]), proof[1..], nodes);
      ChildOfNext(h, leaves, leaf, proof[0], q, nodes);
    }
  }

  /** A shorter accepted proof shows an inner node of that many levels down. */
  lemma {:induction false} AcceptedProofIsNode(h: Hash, leaves: Level, leaf: string, proof: seq<ProofStep>,
                                               nodes: set<string>)
    requires leaves != [] && |proof| <= Depth(|leaves|)
    requires VerifyMerkleProof(h, leaf, proof, Root(h, leaves))
    requires NoCollisions(h, nodes) && TreeIn(Levels(h, leaves), nodes) && PathIn(h, leaf, proof, nodes)
    ensures var k := Depth(|leaves|) - |proof|;
            k < |Levels(h, leaves)| && leaf in Levels(h, leaves)[k]
  {
    hide Filled, Root, Levels, Depth, PathIn, Climb;
    var k := Depth(|leaves|) - |proof|;
    LevelRoot(h, leaves, k);
    var level := Levels(h, leaves)[k];
    assert TreeIn(Levels(h, level), nodes) by {
      assert forall j :: 0 <= j < |Levels(h, level)| ==> Levels(h, level)[j] == Levels(h, leaves)[k + j];
    }
    AcceptedProofIsLeaf(h, level, leaf, proof, nodes);
    FilledFromLeaves(level, Position(proof));
  }

  /** The end of a path is checked from the value its start leads to. */
  lemma {:induction false} PathSplit(h: Hash, leaf: string, proof: seq<ProofStep>, k: nat, nodes: set<string>)
    requires 0 < k <= |proof| && PathIn(h, leaf, proof, nodes)
    ensures var middle := Climb(h, leaf, proof[..k]);
            Climb(h, leaf, proof) == Climb(h, middle, proof[k..]) && PathIn(h, middle, proof[k..], nodes)
            && IsParent(h, middle, nodes)
    decreases |proof|
  {
    var above := Above(h, leaf, proof[0]);
    assert proof[..k] == [proof[0]] + proof[1..k];
    if k == 1 {
      assert Climb(h, leaf, proof[..1]) == above;
    } else {
      PathSplit(h, above, proof[1..], k - 1, nodes);
      assert proof[1..][..k - 1] == proof[1..k] && proof[1..][k - 1..] == proof[k..];
    }
  }

  lemma {:induction false} ShortProofFails(h: Hash, leaves: Level, leaf: string, proof: seq<ProofStep>,
                                           nodes: set<string>)
    requires leaves != [] && |proof| < Depth(|leaves|)
    requires NoCollisions(h, nodes) && TreeIn(Levels(h, leaves), nodes) && PathIn(h, leaf, proof, nodes)
    requires !IsParent(h, leaf, nodes)
    ensures !VerifyMerkleProof(h, leaf, proof, Root(h, leaves))
  {
    hide *;
    if VerifyMerkleProof(h, leaf, proof, Root(h, leaves)) {
      AcceptedProofIsNode(h, leaves, leaf, proof, nodes);
      var k := Depth(|leaves|) - |proof|;
      var i :| 0 <= i < |Levels(h, leaves)[k]| && Levels(h, leaves)[k][i] == leaf;
      ParentLevel(h, leaves, k, i, nodes);
    }
  }

  lemma {:induction false} LongProofFails(h: Hash, leaves: Level, leaf: string, proof: seq<ProofStep>,
                                          nodes: set<string>)
    requires leaves != [] && |proof| > Depth(|leaves|)
    requires NoCollisions(h, nodes) && TreeIn(Levels(h, leaves), nodes) && PathIn(h, leaf, proof, nodes)
    requires NoParents(h, leaves, nodes)
    ensures !VerifyMerkleProof(h, leaf, proof, Root(h, leaves))
  {
    hide Filled, Root, Levels, Depth, PathIn, Climb, Parent, IsParent, TreeIn, NoCollisions;
    if VerifyMerkleProof(h, leaf, proof, Root(h, leaves)) {
      var k := |proof| - Depth(|leaves|);
      var middle := Climb(h, leaf, proof[..k]);
      PathSplit(h, leaf, proof, k, nodes);
      AcceptedProofIsLeaf(h, leaves, middle, proof[k..], nodes);
      FilledFromLeaves(leaves, Position(proof[k..]));
    }
  }

  /** An accepted proof from a value that is no inner node shows a leaf of the
      batch, whatever the length of the proof. */
  lemma {:induction false} AcceptedIsMember(h: Hash, leaves: Level, leaf: string, proof: seq<ProofStep>,
                                            nodes: set<string>)
    requires leaves != [] && VerifyMerkleProof(h, leaf, proof, Root(h, leaves))
    requires NoCollisions(h, nodes) && TreeIn(Levels(h, leaves), nodes) && PathIn(h, leaf, proof, nodes)
    requires NoParents(h, leaves, nodes) && !IsParent(h, leaf, nodes)
    ensures leaf in leaves
  {
    hide *;
    if |proof| < Depth(|leaves|) { ShortProofFails(h, leaves, leaf, proof, nodes); }
    if |proof| > Depth(|leaves|) { LongProofFails(h, leaves, leaf, proof, nodes); }
    AcceptedProofIsLeaf(h, leaves, leaf, proof, nodes);
    FilledFromLeaves(leaves, Position(proof));
  }

  /** The tree's own proofs stay among its nodes. */
  lemma {:induction false} ProofPathIn(h: Hash, leaves: Level, index: nat, nodes: set<string>)
    requires index < |leaves| && TreeIn(Levels(h, leaves), nodes)
    ensures Fits(Levels(h, leaves), index)
    ensures PathIn(h, leaves[index], ProofOf(Levels(h, leaves), index), nodes)
    decreases |leaves|
  {
    LevelsFit(h, leaves, index);
    assert AllIn(Levels(h, leaves)[0], nodes);
    if |leaves| > 1 {
      hide NextLevel, Above, Fits, TreeIn;
      var next := NextLevel(h, leaves);
      TreeAbove(h, leaves, nodes);
      ProofPathIn(h, next, index / 2, nodes);
      AboveIsNext(h, leaves, index);
      assert Levels(h, leaves)[1..] == Levels(h, next);
      var proof := ProofOf(Levels(h, leaves), index);
      assert proof == [StepAt(leaves, index)] + ProofOf(Levels(h, next), index / 2);
      assert proof[1..] == ProofOf(Levels(h, next), index / 2);
    }
  }

  /** Some proof is accepted exactly for the leaves of the batch. */
  lemma {:induction false} ProvableIffMember(h: Hash, leaves: Level, leaf: string, nodes: set<string>)
    requires leaves != [] && NoCollisions(h, nodes) && TreeIn(Levels(h, leaves), nodes)
    requires NoParents(h, leaves, nodes) && !IsParent(h, leaf, nodes)
    ensures (exists proof :: PathIn(h, leaf, proof, nodes) && VerifyMerkleProof(h, leaf, proof, Root(h, leaves)))
            <==> leaf in leaves
  {
    hide Root, Levels, PathIn, VerifyMerkleProof, TreeIn;
    if proof :| PathIn(h, leaf, proof, nodes) && VerifyMerkleProof(h, leaf, proof, Root(h, leaves)) {
      AcceptedIsMember(h, leaves, leaf, proof, nodes);
    }
    if leaf in leaves {
      var i :| 0 <= i < |leaves| && leaves[i] == leaf;
      ProofVerifies(h, leaves, i);
      ProofPathIn(h, leaves, i, nodes);
    }
  }
}
