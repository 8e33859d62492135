/** Merkle roots and what they commit to.

    `Root` halves a level until one hash is left, repeating an odd last node. Because of that
    repetition different lists can share a root; `RootsAgreeIff` says exactly which ones do, and
    `DistinctLeavesAreCommitted` that lists without repeated leaves never do. Both ask only that
    the hash has no collision among the finitely many strings hashed for the two roots. */
module Merkle {
  import opened Types
  import opened Sorting

  type Digest = Bytes -> Hash

  const EMPTY_DOMAIN: byte := 0
  const NODE_DOMAIN: byte := 1

  /** The string hashed for an inner node. */
  function NodeInput(left: Hash, right: Hash): Bytes {
    [NODE_DOMAIN] + left + right
  }

  /** The string hashed for the `i`-th node above `level`; an odd last node is its own sibling. */
  function ParentInput(level: seq<Hash>, i: nat): Bytes
    requires 2 * i < |level|
  {
    NodeInput(level[2 * i], level[if 2 * i + 1 < |level| then 2 * i + 1 else 2 * i])
  }

  function Above(sha: Digest, level: seq<Hash>): (above: seq<Hash>)
    ensures |above| == (|level| + 1) / 2
    ensures forall i :: 0 <= i < |above| ==> above[i] == sha(ParentInput(level, i))
  {
    seq<Hash>((|level| + 1) / 2, i requires 0 <= i < (|level| + 1) / 2 => sha(ParentInput(level, i)))
  }

  function Root(sha: Digest, level: seq<Hash>): Hash
    decreases |level|
  {
    if |level| == 0 then sha([EMPTY_DOMAIN])
    else if |level| == 1 then level[0]
    else Root(sha, Above(sha, level))
  }

  /** The root as the loop computes it: each level gets its odd last node appended and is then
      rebuilt pair by pair. `None` is the refusal of a leaf that is not 32 bytes long. */
  method MerkleRoot(sha: Digest, leaves: seq<Bytes>) returns (root: Option<Hash>)
    ensures root.Some? <==> forall i :: 0 <= i < |leaves| ==> |leaves[i]| == HASH_LENGTH
    ensures root.Some? ==> var hashes: seq<Hash> := leaves; root.value == Root(sha, hashes)
  {
    if |leaves| == 0 {
      return Some(sha([EMPTY_DOMAIN]));
    }
    var checked := 0;
    while checked < |leaves|
      invariant 0 <= checked <= |leaves|
      invariant forall i :: 0 <= i < checked ==> |leaves[i]| == HASH_LENGTH
    {
      if |leaves[checked]| != HASH_LENGTH {
        return None;
      }
      checked := checked + 1;
    }
    var level: seq<Hash> := leaves;
    ghost var hashes := level;
    while |level| > 1
      invariant |level| >= 1
      invariant Root(sha, level) == Root(sha, hashes)
      decreases |level|
    {
      ghost var before := level;
      if |level| % 2 == 1 {
        level := level + [level[|level| - 1]];
      }
      var above: seq<Hash> := [];
      var index := 0;
      while index < |level|
        invariant 0 <= index <= |level| && index % 2 == 0 && |above| == index / 2
        invariant above == Above(sha, before)[..index / 2]
      {
        assert NodeInput(level[index], level[index + 1]) == ParentInput(before, index / 2);
        above := above + [sha([NODE_DOMAIN] + level[index] + level[index + 1])];
        index := index + 2;
      }
      assert above == Above(sha, before);
      level := above;
    }
    return Some(level[0]);
  }

  /** Small roots, in bytes: a left child comes before its right sibling, and an odd last node is paired
      with itself. */
  lemma SmallRoots(sha: Digest, x: Hash, y: Hash, z: Hash)
    ensures Root(sha, []) == sha([0]) && Root(sha, [x]) == x
    ensures Root(sha, [x, y]) == sha([1] + x + y)
    ensures Root(sha, [x, y, z]) == sha([1] + sha([1] + x + y) + sha([1] + z + z))
  {
    PairRoot(sha, x, y);
    assert Above(sha, [x, y, z]) == [sha([1] + x + y), sha([1] + z + z)];
    PairRoot(sha, sha([1] + x + y), sha([1] + z + z));
  }

  lemma PairRoot(sha: Digest, x: Hash, y: Hash)
    ensures Root(sha, [x, y]) == sha([1] + x + y)
  {
    assert Above(sha, [x, y]) == [sha([1] + x + y)];
  }

  // What was hashed on the way up

  /** Every string hashed to get from `level` to its root. */
  function Inputs(sha: Digest, level: seq<Hash>): set<Bytes>
    decreases |level|
  {
    if |level| == 0 then {[EMPTY_DOMAIN]}
    else if |level| == 1 then {}
    else (set i | 0 <= i < (|level| + 1) / 2 :: ParentInput(level, i)) + Inputs(sha, Above(sha, level))
  }

  ghost predicate CollisionFree(sha: Digest, inputs: set<Bytes>) {
    forall x, y :: x in inputs && y in inputs && sha(x) == sha(y) ==> x == y
  }

  /** No leaf is itself the hash of one of `inputs`. */
  ghost predicate LeavesAreNotNodes(sha: Digest, leaves: seq<Hash>, inputs: set<Bytes>) {
    forall i, x :: 0 <= i < |leaves| && x in inputs ==> leaves[i] != sha(x)
  }

  lemma NodeInputIsInjective(a: Hash, b: Hash, c: Hash, d: Hash)
    requires NodeInput(a, b) == NodeInput(c, d)
    ensures a == c && b == d
  {
    assert NodeInput(a, b)[1..33] == a && NodeInput(c, d)[1..33] == c;
    assert NodeInput(a, b)[33..] == b && NodeInput(c, d)[33..] == d;
  }

  // Which lists share a root

  function Height(n: nat): nat {
    if n <= 1 then 0 else 1 + Height((n + 1) / 2)
  }

  function Width(height: nat): (w: nat)
    ensures w >= 1
  {
    if height == 0 then 1 else 2 * Width(height - 1)
  }

  /** Which of `n` leaves stands at position `i` of the bottom row once repetitions are written out. */
  function Source(n: nat, height: nat, i: nat): (s: nat)
    requires n >= 1
    ensures s < n
  {
    if height == 0 then 0
    else
      var s := 2 * Source((n + 1) / 2, height - 1, i / 2) + i % 2;
      if s < n then s else n - 1
  }

  /** The bottom row of the full binary tree that the root is computed over. */
  function Filled(leaves: seq<Hash>): (row: seq<Hash>)
    ensures |row| == if |leaves| == 0 then 0 else Width(Height(|leaves|))
    ensures forall i :: 0 <= i < |row| ==> row[i] == leaves[Source(|leaves|, Height(|leaves|), i)]
  {
    if |leaves| == 0 then []
    else seq<Hash>(Width(Height(|leaves|)), i requires 0 <= i => leaves[Source(|leaves|, Height(|leaves|), i)])
  }

  lemma {:induction false} SourceIsIdentity(n: nat, i: nat)
    requires i < n
    ensures n <= Width(Height(n))
    ensures Source(n, Height(n), i) == i
    decreases n
  {
    if n > 1 {
      SourceIsIdentity((n + 1) / 2, i / 2);
    }
  }

  /** The bottom row begins with the leaves themselves. */
  lemma FilledStartsWithLeaves(leaves: seq<Hash>)
    ensures |leaves| <= |Filled(leaves)|
    ensures Filled(leaves)[..|leaves|] == leaves
  {
    forall i | 0 <= i < |leaves|
      ensures i < |Filled(leaves)| && Filled(leaves)[i] == leaves[i]
    {
      SourceIsIdentity(|leaves|, i);
    }
    if |leaves| > 0 {
      SourceIsIdentity(|leaves|, 0);
    }
  }

  /** Positions `2j` and `2j + 1` of the bottom row come from the two children of one parent. */
  lemma FilledPair(level: seq<Hash>, j: nat) returns (s: nat)
    requires |level| > 1 && 2 * j < |Filled(level)|
    ensures Height(|level|) > 0 && |Filled(level)| == 2 * Width(Height(|level|) - 1)
    ensures s == Source((|level| + 1) / 2, Height((|level| + 1) / 2), j) && 2 * s < |level|
    ensures NodeInput(Filled(level)[2 * j], Filled(level)[2 * j + 1]) == ParentInput(level, s)
  {
    var n := |level|;
    s := Source((n + 1) / 2, Height((n + 1) / 2), j);
    assert Source(n, Height(n), 2 * j) == 2 * s;
    assert Source(n, Height(n), 2 * j + 1) == if 2 * s + 1 < n then 2 * s + 1 else n - 1;
  }

  /** The row above holds, at `j`, the parent of positions `2j` and `2j + 1`. */
  lemma FilledAbove(sha: Digest, level: seq<Hash>, j: nat)
    requires |level| > 1 && 2 * j < |Filled(level)|
    ensures |Filled(level)| == 2 * |Filled(Above(sha, level))|
    ensures Filled(Above(sha, level))[j] == sha(NodeInput(Filled(level)[2 * j], Filled(level)[2 * j + 1]))
    ensures NodeInput(Filled(level)[2 * j], Filled(level)[2 * j + 1]) in Inputs(sha, level)
  {
    hide Source, NodeInput, ParentInput;
    var s := FilledPair(level, j);
    assert Above(sha, level)[s] == sha(ParentInput(level, s));
  }

  /** The root depends on the bottom row only. */
  lemma {:induction false} FilledFixesRoot(sha: Digest, a: seq<Hash>, b: seq<Hash>)
    requires |a| > 0 && |b| > 0 && Height(|a|) == Height(|b|) && Filled(a) == Filled(b)
    ensures Root(sha, a) == Root(sha, b)
    decreases |a|
  {
    if |a| > 1 {
      var above, other := Above(sha, a), Above(sha, b);
      forall j | 0 <= j < |Filled(above)|
        ensures j < |Filled(other)| && Filled(above)[j] == Filled(other)[j]
      {
        FilledAbove(sha, a, j);
        FilledAbove(sha, b, j);
      }
      assert Filled(above) == Filled(other);
      FilledFixesRoot(sha, above, other);
    } else {
      assert Filled(a)[0] == a[0] && Filled(b)[0] == b[0];
    }
  }

  /** Equal parents have equal children. */
  lemma ChildrenAgree(sha: Digest, a: seq<Hash>, b: seq<Hash>, inputs: set<Bytes>, j: nat)
    requires |a| > 1 && |b| > 1 && 2 * j < |Filled(a)| && 2 * j < |Filled(b)|
    requires Inputs(sha, a) <= inputs && Inputs(sha, b) <= inputs && CollisionFree(sha, inputs)
    requires j < |Filled(Above(sha, a))| && j < |Filled(Above(sha, b))|
    requires Filled(Above(sha, a))[j] == Filled(Above(sha, b))[j]
    ensures 2 * j + 1 < |Filled(a)| && 2 * j + 1 < |Filled(b)|
    ensures Filled(a)[2 * j] == Filled(b)[2 * j] && Filled(a)[2 * j + 1] == Filled(b)[2 * j + 1]
  {
    hide Filled, Inputs, Above, Height, Width, NodeInput;
    FilledAbove(sha, a, j);
    FilledAbove(sha, b, j);
    NodeInputIsInjective(Filled(a)[2 * j], Filled(a)[2 * j + 1], Filled(b)[2 * j], Filled(b)[2 * j + 1]);
  }

  /** Between trees of one height, equal roots mean equal bottom rows. */
  lemma {:induction false} EqualHeightsEqualRows(sha: Digest, a: seq<Hash>, b: seq<Hash>, inputs: set<Bytes>)
    requires |a| > 0 && |b| > 0 && Height(|a|) == Height(|b|)
    requires Inputs(sha, a) <= inputs && Inputs(sha, b) <= inputs && CollisionFree(sha, inputs)
    requires Root(sha, a) == Root(sha, b)
    ensures Filled(a) == Filled(b)
    decreases |a|
  {
    hide Filled, Source, CollisionFree, NodeInput, ParentInput;
    if |a| > 1 {
      var above, other := Above(sha, a), Above(sha, b);
      EqualHeightsEqualRows(sha, above, other, inputs);
      RowsAgree(sha, a, b, inputs);
    } else {
      assert a == b;
    }
  }

  lemma RowsAgree(sha: Digest, a: seq<Hash>, b: seq<Hash>, inputs: set<Bytes>)
    requires |a| > 1 && |b| > 1 && Filled(Above(sha, a)) == Filled(Above(sha, b))
    requires Inputs(sha, a) <= inputs && Inputs(sha, b) <= inputs && CollisionFree(sha, inputs)
    ensures Filled(a) == Filled(b)
  {
    hide Filled, Source, CollisionFree, NodeInput, ParentInput, Inputs, Height, Width, Above;
    FilledIsTwice(sha, a);
    FilledIsTwice(sha, b);
    forall i | 0 <= i < |Filled(a)|
      ensures Filled(a)[i] == Filled(b)[i]
    {
      assert i == 2 * (i / 2) || i == 2 * (i / 2) + 1;
      ChildrenAgree(sha, a, b, inputs, i / 2);
    }
  }

  lemma FilledIsTwice(sha: Digest, level: seq<Hash>)
    requires |level| > 1
    ensures |Filled(level)| == 2 * |Filled(Above(sha, level))|
  {
    FilledAbove(sha, level, 0);
  }

  /** `level` after `k` rounds of halving. */
  function Raised(sha: Digest, level: seq<Hash>, k: nat): (above: seq<Hash>)
    requires |level| > 0 && k <= Height(|level|)
    ensures |above| > 0 && Height(|above|) == Height(|level|) - k
    ensures Root(sha, above) == Root(sha, level)
    ensures Inputs(sha, above) <= Inputs(sha, level)
    decreases k
  {
    if k == 0 then level else Raised(sha, Above(sha, level), k - 1)
  }

  lemma {:induction false} RaisedIsANode(sha: Digest, level: seq<Hash>, k: nat)
    requires |level| > 0 && 0 < k <= Height(|level|)
    ensures exists x :: x in Inputs(sha, level) && sha(x) == Raised(sha, level, k)[0]
    decreases k
  {
    hide ParentInput;
    if k == 1 {
      assert Raised(sha, level, 1) == Raised(sha, Above(sha, level), 0) == Above(sha, level);
      assert ParentInput(level, 0) in Inputs(sha, level);
    } else {
      RaisedIsANode(sha, Above(sha, level), k - 1);
    }
  }

  /** Trees of different heights have different roots, unless a leaf of the lower one is a node. */
  lemma HeightsAgree(sha: Digest, a: seq<Hash>, b: seq<Hash>, inputs: set<Bytes>)
    requires |a| > 0 && |b| > 0 && Height(|a|) <= Height(|b|)
    requires Inputs(sha, a) <= inputs && Inputs(sha, b) <= inputs && CollisionFree(sha, inputs)
    requires LeavesAreNotNodes(sha, a, inputs)
    requires Root(sha, a) == Root(sha, b)
    ensures Height(|a|) == Height(|b|)
  {
    var k := Height(|b|) - Height(|a|);
    var raised := Raised(sha, b, k);
    EqualHeightsEqualRows(sha, a, raised, inputs);
    FilledStartsWithLeaves(a);
    FilledStartsWithLeaves(raised);
    assert a[0] == Filled(a)[..|a|][0] == Filled(raised)[..|raised|][0] == raised[0];
    assert k == 0 by {
      if k > 0 {
        RaisedIsANode(sha, b, k);
      }
    }
  }

  lemma EmptyRootIsAlone(sha: Digest, a: seq<Hash>, inputs: set<Bytes>)
    requires |a| > 0
    requires Inputs(sha, a) <= inputs && [EMPTY_DOMAIN] in inputs && CollisionFree(sha, inputs)
    requires LeavesAreNotNodes(sha, a, inputs)
    ensures Root(sha, a) != Root(sha, [])
  {
    var top := Raised(sha, a, Height(|a|));
    assert |top| == 1;
    if Height(|a|) > 0 {
      RaisedIsTheRoot(sha, a, Height(|a|));
    }
  }

  lemma {:induction false} RaisedIsTheRoot(sha: Digest, level: seq<Hash>, k: nat)
    requires |level| > 1 && k == Height(|level|)
    ensures exists l: Hash, r: Hash :: NodeInput(l, r) in Inputs(sha, level) && Root(sha, level) == sha(NodeInput(l, r))
    decreases k
  {
    if k == 1 {
      assert ParentInput(level, 0) in Inputs(sha, level);
      assert Root(sha, level) == Above(sha, level)[0];
    } else {
      RaisedIsTheRoot(sha, Above(sha, level), k - 1);
    }
  }

  /** Two lists have the same root exactly when they fill the same bottom row. */
  lemma RootsAgreeIff(sha: Digest, a: seq<Hash>, b: seq<Hash>)
    requires CollisionFree(sha, Inputs(sha, a) + Inputs(sha, b))
    requires LeavesAreNotNodes(sha, a + b, Inputs(sha, a) + Inputs(sha, b))
    ensures Root(sha, a) == Root(sha, b) <==> Filled(a) == Filled(b)
  {
    var inputs := Inputs(sha, a) + Inputs(sha, b);
    assert LeavesAreNotNodes(sha, a, inputs) by {
      assert forall i :: 0 <= i < |a| ==> a[i] == (a + b)[i];
    }
    assert LeavesAreNotNodes(sha, b, inputs) by {
      assert forall i :: 0 <= i < |b| ==> b[i] == (a + b)[|a| + i];
    }
    if |a| == 0 || |b| == 0 {
      if |a| > 0 {
        EmptyRootIsAlone(sha, a, inputs);
      } else if |b| > 0 {
        EmptyRootIsAlone(sha, b, inputs);
      }
    } else {
      if Root(sha, a) == Root(sha, b) {
        SameRootSameRow(sha, a, b, inputs);
      }
      if Filled(a) == Filled(b) {
        WidthFixesHeight(Height(|a|), Height(|b|));
        FilledFixesRoot(sha, a, b);
      }
    }
  }

  lemma SameRootSameRow(sha: Digest, a: seq<Hash>, b: seq<Hash>, inputs: set<Bytes>)
    requires |a| > 0 && |b| > 0 && Root(sha, a) == Root(sha, b)
    requires Inputs(sha, a) <= inputs && Inputs(sha, b) <= inputs && CollisionFree(sha, inputs)
    requires LeavesAreNotNodes(sha, a, inputs) && LeavesAreNotNodes(sha, b, inputs)
    ensures Filled(a) == Filled(b)
  {
    hide Filled, Inputs, CollisionFree, LeavesAreNotNodes, Root;
    if Height(|a|) <= Height(|b|) {
      HeightsAgree(sha, a, b, inputs);
    } else {
      HeightsAgree(sha, b, a, inputs);
    }
    EqualHeightsEqualRows(sha, a, b, inputs);
  }

  lemma {:induction false} WidthFixesHeight(g: nat, h: nat)
    requires Width(g) == Width(h)
    ensures g == h
  {
    if g > 0 && h > 0 {
      WidthFixesHeight(g - 1, h - 1);
    }
  }

  /** Past the end of the shorter of two lists that fill one row, the longer one repeats itself. */
  lemma LongerListRepeats(a: seq<Hash>, b: seq<Hash>)
    requires Filled(a) == Filled(b) && |a| < |b|
    ensures !Distinct(b)
  {
    FilledStartsWithLeaves(a);
    FilledStartsWithLeaves(b);
    var row := Filled(b);
    var i := Source(|a|, Height(|a|), |a|);
    assert row[..|b|][i] == row[..|a|][i] == a[i] == row[|a|] == row[..|b|][|a|];
  }

  lemma PrefixRowIsWhole(a: seq<Hash>, b: seq<Hash>)
    requires Distinct(b) && Filled(a) == Filled(b) && |a| <= |b|
    ensures a == b
  {
    assert |a| == |b| by {
      if |a| < |b| {
        LongerListRepeats(a, b);
      }
    }
    FilledStartsWithLeaves(a);
    FilledStartsWithLeaves(b);
  }

  /** Without repeated leaves the root determines the list, its length included. */
  lemma DistinctLeavesAreCommitted(sha: Digest, a: seq<Hash>, b: seq<Hash>)
    requires Distinct(a) && Distinct(b)
    requires CollisionFree(sha, Inputs(sha, a) + Inputs(sha, b))
    requires LeavesAreNotNodes(sha, a + b, Inputs(sha, a) + Inputs(sha, b))
    requires Root(sha, a) == Root(sha, b)
    ensures a == b
  {
    RootsAgreeIff(sha, a, b);
    if |a| <= |b| {
      PrefixRowIsWhole(a, b);
    } else {
      PrefixRowIsWhole(b, a);
    }
  }

  /** The repetition that `DistinctLeavesAreCommitted` has to exclude: a last leaf written twice. */
  lemma RepeatedLastLeafIsInvisible(sha: Digest, x: Hash, y: Hash, z: Hash)
    ensures Root(sha, [x, y, z]) == Root(sha, [x, y, z, z])
  {
    assert Above(sha, [x, y, z]) == Above(sha, [x, y, z, z]);
  }
}
