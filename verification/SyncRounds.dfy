/** Synchronizing from a peer, round by round, at the level of the two block trees.

    One round is one locator, one batch of at most 128 blocks and their submission. The theorems
    say exactly when repeating rounds reaches the tip of a peer whose chain stays fixed: when the
    first batch outweighs the local tip. If it does not, no later round changes anything. */
module SyncRounds {
  import opened Types
  import opened Branches
  import opened BlockTree
  import opened ChainRuns
  import opened Locator
  import opened Encoding
  import opened Protocol
  import Commitments
  import Merkle

  const MAX_BLOCKS_PER_RESPONSE := 128

  /** A hash the two trees share stands for the same branch in both. This is what a collision-free
      block hash gives (`Commitments.TipHashCommitsToBranch`). */
  ghost predicate SharedHistory(net: Network, t: Tree, r: Tree)
    requires Linked(net, t) && Linked(net, r)
  {
    forall h :: h in t.entries && h in r.entries ==> BlocksOf(net, t, h) == BlocksOf(net, r, h)
  }

  /** With the node's own hashes, two trees share their history unless some strings hashed for two of
      their branches collide. */
  lemma HashesShareHistory(sha: Bytes -> Hash, u: Unicode, base: Network, t: Tree, r: Tree)
    requires WireNetwork(base, u)
    requires var net := Commitments.Concrete(sha, u, base);
             && ValidTree(net, t) && ValidTree(net, r)
             && forall h :: h in t.entries && h in r.entries ==>
                  Merkle.CollisionFree(sha, Commitments.BranchStrings(sha, u, BlocksOf(net, t, h)) +
                                                 Commitments.BranchStrings(sha, u, BlocksOf(net, r, h)))
    ensures SharedHistory(Commitments.Concrete(sha, u, base), t, r)
  {
    hide WireNetwork, RunBranch, Commitments.BranchStrings, Merkle.CollisionFree;
    var net := Commitments.Concrete(sha, u, base);
    forall h | h in t.entries && h in r.entries
      ensures BlocksOf(net, t, h) == BlocksOf(net, r, h)
    {
      assert EntryHoldsItsBranch(net, t, h) && EntryHoldsItsBranch(net, r, h);
      assert EntryLinked(net, t.entries, h) && EntryLinked(net, r.entries, h);
      Commitments.TipHashCommitsToBranch(sha, u, base, BlocksOf(net, t, h), BlocksOf(net, r, h));
    }
  }

  ghost function ActiveHashes(net: Network, t: Tree): (path: seq<Hash>)
    requires Linked(net, t)
    ensures |path| > 0 && forall i :: 0 <= i < |path| ==> path[i] in t.entries
  {
    Path(net, t, t.tip)
  }

  ghost function ActiveBlocks(net: Network, t: Tree): (blocks: seq<Block>)
    requires Linked(net, t)
    ensures |blocks| == |ActiveHashes(net, t)|
  {
    BlocksOf(net, t, t.tip)
  }

  // The peer's answer

  /** Where a hash stands in a list; of several places, the last. */
  function PositionOf(active: seq<Hash>, h: Hash): (index: nat)
    requires h in active
    ensures index < |active| && active[index] == h
  {
    if active[|active| - 1] == h then |active| - 1 else PositionOf(active[..|active| - 1], h)
  }

  /** The position on `active` of the first locator hash that is there at all. */
  function CommonIndex(active: seq<Hash>, locator: seq<Hash>): (index: Option<nat>)
    ensures index.Some? ==> index.value < |active|
  {
    if locator == [] then None
    else if locator[0] in active then Some(PositionOf(active, locator[0]))
    else CommonIndex(active, locator[1..])
  }

  function Min(a: nat, b: nat): nat {
    if a < b then a else b
  }

  /** The blocks after the common one, at most 128 of them. */
  function BatchAfter(blocks: seq<Block>, common: nat): seq<Block>
    requires common < |blocks|
  {
    blocks[common + 1..Min(common + 1 + MAX_BLOCKS_PER_RESPONSE, |blocks|)]
  }

  // Where the two chains part

  lemma PathsAreHashes(net: Network, t: Tree, h: Hash, i: nat)
    requires Linked(net, t) && h in t.entries && i < |Path(net, t, h)|
    ensures |Path(net, t, h)| == |BlocksOf(net, t, h)|
    ensures Path(net, t, h)[i] == net.HashOf(BlocksOf(net, t, h)[i])
  {
    PathPrefix(net, t, h, i);
    assert EntryLinked(net, t.entries, Path(net, t, h)[i]);
  }

  /** The height of the last block the two active chains have in common. */
  ghost function Fork(net: Network, t: Tree, r: Tree): (fork: nat)
    requires Linked(net, t) && Linked(net, r)
    ensures fork < |ActiveHashes(net, t)| && fork < |ActiveHashes(net, r)|
  {
    GenesisIsFirst(net, t, t.tip);
    GenesisIsFirst(net, r, r.tip);
    CommonLength(ActiveHashes(net, t), ActiveHashes(net, r)) - 1
  }

  lemma SamePath(net: Network, t: Tree, r: Tree, h: Hash)
    requires Linked(net, t) && Linked(net, r) && h in t.entries && h in r.entries
    requires BlocksOf(net, t, h) == BlocksOf(net, r, h)
    ensures Path(net, t, h) == Path(net, r, h)
  {
    var a, b := Path(net, t, h), Path(net, r, h);
    assert |a| == |b|;
    forall i | 0 <= i < |a|
      ensures a[i] == b[i]
    {
      PathsAreHashes(net, t, h, i);
      PathsAreHashes(net, r, h, i);
    }
  }

  /** The peer has one of our active blocks on its active chain exactly up to the fork, and at the
      same height. */
  lemma SharedUpToTheFork(net: Network, t: Tree, r: Tree, p: nat)
    requires Linked(net, t) && Linked(net, r) && SharedHistory(net, t, r)
    requires p < |ActiveHashes(net, t)|
    ensures var mine, theirs := ActiveHashes(net, t), ActiveHashes(net, r);
            && (mine[p] in theirs <==> p <= Fork(net, t, r))
            && (mine[p] in theirs ==> theirs[p] == mine[p] && PositionOf(theirs, mine[p]) == p)
  {
    hide Linked, EntryLinked, Path, CommonLength, BlocksOf;
    var mine, theirs := ActiveHashes(net, t), ActiveHashes(net, r);
    var n := CommonLength(mine, theirs);
    if p < n {
      assert mine[p] == mine[..n][p] == theirs[..n][p] == theirs[p];
    }
    if mine[p] in theirs {
      var q := PositionOf(theirs, mine[p]);
      PathPrefix(net, t, t.tip, p);
      PathPrefix(net, r, r.tip, q);
      SamePath(net, t, r, mine[p]);
      assert |mine[..p + 1]| == |theirs[..q + 1]|;
      Prefixes(mine, theirs, p + 1);
    }
  }

  lemma {:induction false} CommonIndexIsFirstMatch(net: Network, t: Tree, r: Tree, heights: seq<nat>,
                                                   locator: seq<Hash>)
    requires Linked(net, t) && Linked(net, r) && SharedHistory(net, t, r)
    requires |locator| == |heights|
    requires forall i :: 0 <= i < |heights| ==>
               heights[i] < |ActiveHashes(net, t)| && locator[i] == ActiveHashes(net, t)[heights[i]]
    requires exists i :: 0 <= i < |heights| && heights[i] <= Fork(net, t, r)
    ensures CommonIndex(ActiveHashes(net, r), locator) == Some(FirstMatch(heights, Fork(net, t, r)))
  {
    hide Linked, Fork, ActiveHashes, SharedHistory, PositionOf;
    SharedUpToTheFork(net, t, r, heights[0]);
    if heights[0] > Fork(net, t, r) {
      var i :| 0 <= i < |heights| && heights[i] <= Fork(net, t, r);
      assert heights[1..][i - 1] == heights[i];
      CommonIndexIsFirstMatch(net, t, r, heights[1..], locator[1..]);
    }
  }

  /** Where the peer's answer to our locator starts. */
  ghost function Matched(net: Network, t: Tree, r: Tree): (common: nat)
    requires Linked(net, t) && Linked(net, r)
    ensures common <= Fork(net, t, r)
  {
    MatchIsClose(|ActiveHashes(net, t)|, Fork(net, t, r));
    FirstMatch(LocatorHeights(|ActiveHashes(net, t)|), Fork(net, t, r))
  }

  /** The peer finds exactly `Matched` in our locator; it is never without a common block, and its
      answer starts at most as deep as `Bound` allows. */
  lemma LocatorFindsTheMatch(net: Network, t: Tree, r: Tree)
    requires Linked(net, t) && Linked(net, r) && SharedHistory(net, t, r)
    ensures CommonIndex(ActiveHashes(net, r), LocatorHashes(ActiveHashes(net, t))) == Some(Matched(net, t, r))
    ensures ActiveHashes(net, r)[Matched(net, t, r)] == ActiveHashes(net, t)[Matched(net, t, r)]
    ensures var top := |ActiveHashes(net, t)| - 1;
            top < 0x80_0000_0000_0000 ==> top - Matched(net, t, r) <= Bound(top - Fork(net, t, r))
  {
    hide Linked, Fork, ActiveHashes, SharedHistory, PositionOf, Bound;
    var mine := ActiveHashes(net, t);
    MatchIsClose(|mine|, Fork(net, t, r));
    HeightsAreBelow(|mine| - 1, 0, 1);
    CommonIndexIsFirstMatch(net, t, r, LocatorHeights(|mine|), LocatorHashes(mine));
    SharedUpToTheFork(net, t, r, Matched(net, t, r));
  }

  // One round

  /** Submitting blocks one by one; a block that is refused or already known changes nothing. */
  ghost function Deliver(net: Network, t: Tree, blocks: seq<Block>): (t': Tree)
    requires ValidTree(net, t)
    ensures ValidTree(net, t') && Extends(t, t')
  {
    if blocks == [] then t
    else Attempt(net, Deliver(net, t, blocks[..|blocks| - 1]), blocks[|blocks| - 1])
  }

  ghost function Round(net: Network, t: Tree, r: Tree): (t': Tree)
    requires ValidTree(net, t) && ValidTree(net, r)
    ensures ValidTree(net, t') && Extends(t, t')
  {
    Deliver(net, t, BatchAfter(ActiveBlocks(net, r), Matched(net, t, r)))
  }

  function WorkOf(r: Tree, h: Hash): int
    requires h in r.entries
  {
    r.entries[h].record.work
  }

  lemma SharedWork(net: Network, t: Tree, r: Tree, h: Hash)
    requires ValidTree(net, t) && ValidTree(net, r) && h in t.entries && h in r.entries
    requires BlocksOf(net, t, h) == BlocksOf(net, r, h)
    ensures WorkOf(t, h) == WorkOf(r, h)
  {
    hide RunBranch, BlocksOf;
    assert EntryHoldsItsBranch(net, t, h) && EntryHoldsItsBranch(net, r, h);
  }

  /** The block at height `j` of the peer's chain: its hash, its parent and its branch. */
  lemma StepOfPath(net: Network, r: Tree, j: nat)
    requires ValidTree(net, r) && 0 < j < |ActiveHashes(net, r)|
    ensures var theirs, b := ActiveHashes(net, r), ActiveBlocks(net, r)[j];
            && net.HashOf(b) == theirs[j] && b.header.previous == theirs[j - 1]
            && BlocksOf(net, r, theirs[j]) == BlocksOf(net, r, theirs[j - 1]) + [b]
            && RunBranch(net, BlocksOf(net, r, theirs[j])).Ok?
            && RunBranch(net, BlocksOf(net, r, theirs[j])).value.work == WorkOf(r, theirs[j])
            && WorkOf(r, theirs[j - 1]) < WorkOf(r, theirs[j])
  {
    hide RunBranch;
    var theirs, blocks := ActiveHashes(net, r), ActiveBlocks(net, r);
    PathsAreHashes(net, r, r.tip, j);
    PathPrefix(net, r, r.tip, j);
    PathPrefix(net, r, r.tip, j - 1);
    assert blocks[..j + 1] == blocks[..j] + [blocks[j]];
    assert EntryHoldsItsBranch(net, r, theirs[j]) && EntryHoldsItsBranch(net, r, theirs[j - 1]);
    assert EntryLinked(net, r.entries, theirs[j]);
    WorkGrows(net, BlocksOf(net, r, theirs[j]));
    BranchHeaders(net, BlocksOf(net, r, theirs[j]));
    PathsAreHashes(net, r, r.tip, j - 1);
    assert BlocksOf(net, r, theirs[j])[..j] == BlocksOf(net, r, theirs[j - 1]);
  }

  /** One block of the peer's chain whose parent we have: we have it afterwards, and it becomes our
      tip exactly if it outweighs the one we had. */
  lemma DeliverOne(net: Network, t: Tree, r: Tree, j: nat)
    requires ValidTree(net, t) && ValidTree(net, r) && SharedHistory(net, t, r)
    requires 0 < j < |ActiveHashes(net, r)| && ActiveHashes(net, r)[j - 1] in t.entries
    ensures var h := ActiveHashes(net, r)[j];
            var t' := Attempt(net, t, ActiveBlocks(net, r)[j]);
            && SharedHistory(net, t', r) && h in t'.entries
            && t'.tip == if WorkOf(r, h) > t.Tip().record.work then h else t.tip
  {
    hide RunBranch, BlocksOf, Linked, EntryHoldsItsBranch, EntryLinked, ActiveHashes, ActiveBlocks;
    var h, p, b := ActiveHashes(net, r)[j], ActiveHashes(net, r)[j - 1], ActiveBlocks(net, r)[j];
    StepOfPath(net, r, j);
    if h in t.entries {
      SharedWork(net, t, r, h);
      assert NewEntry(net, t, b).Err?;
    } else {
      NewBlockOfPath(net, t, r, j);
    }
  }

  lemma NewBlockOfPath(net: Network, t: Tree, r: Tree, j: nat)
    requires ValidTree(net, t) && ValidTree(net, r) && SharedHistory(net, t, r)
    requires 0 < j < |ActiveHashes(net, r)| && ActiveHashes(net, r)[j - 1] in t.entries
    requires ActiveHashes(net, r)[j] !in t.entries
    ensures var h := ActiveHashes(net, r)[j];
            var t' := Attempt(net, t, ActiveBlocks(net, r)[j]);
            && SharedHistory(net, t', r) && h in t'.entries
            && t'.tip == if WorkOf(r, h) > t.Tip().record.work then h else t.tip
  {
    hide RunBranch, BlocksOf, EntryHoldsItsBranch, EntryLinked, ActiveHashes, ActiveBlocks, NewEntry, SwitchBetween;
    var h, p, b := ActiveHashes(net, r)[j], ActiveHashes(net, r)[j - 1], ActiveBlocks(net, r)[j];
    StepOfPath(net, r, j);
    AcceptedIffBranchValid(net, t, b);
    NewEntryHoldsItsBranch(net, t, b);
    NewBlocks(net, t, b);
    var t' := Attempt(net, t, b);
    assert NewEntry(net, t, b).value.record.hash == h by { NewEntryIsNamed(net, t, b); }
    forall k | k in t'.entries && k in r.entries
      ensures BlocksOf(net, t', k) == BlocksOf(net, r, k)
    {
      if k != h {
        PathsAreStable(net, t, t', k);
      }
    }
  }

  /** A stretch of the peer's chain that continues a block we have: we have all of it afterwards, and
      its last block becomes our tip exactly if it outweighs the one we had. */
  lemma {:induction false} DeliverStretch(net: Network, t: Tree, r: Tree, common: nat, end: nat)
    requires ValidTree(net, t) && ValidTree(net, r) && SharedHistory(net, t, r)
    requires common < end <= |ActiveHashes(net, r)| && ActiveHashes(net, r)[common] in t.entries
    ensures var last := ActiveHashes(net, r)[end - 1];
            var t' := Deliver(net, t, ActiveBlocks(net, r)[common + 1..end]);
            && SharedHistory(net, t', r) && last in t'.entries
            && t'.tip == if WorkOf(r, last) > t.Tip().record.work then last else t.tip
    decreases end
  {
    hide RunBranch, BlocksOf, EntryHoldsItsBranch, EntryLinked, ActiveHashes, ActiveBlocks, Deliver, Linked,
      SharedHistory;
    var theirs, blocks := ActiveHashes(net, r), ActiveBlocks(net, r);
    if common + 1 == end {
      assert blocks[common + 1..end] == [];
      DeliverNone(net, t, r, theirs[common]);
    } else {
      DeliverStretch(net, t, r, common, end - 1);
      assert blocks[common + 1..end] == blocks[common + 1..end - 1] + [blocks[end - 1]];
      DeliverOneMore(net, t, r, blocks[common + 1..end - 1], end - 1);
    }
  }

  lemma DeliverNone(net: Network, t: Tree, r: Tree, h: Hash)
    requires ValidTree(net, t) && ValidTree(net, r) && SharedHistory(net, t, r)
    requires h in t.entries && h in r.entries
    ensures Deliver(net, t, []) == t && WorkOf(r, h) <= t.Tip().record.work
  {
    SharedWork(net, t, r, h);
  }

  lemma DeliverOneMore(net: Network, t: Tree, r: Tree, before: seq<Block>, j: nat)
    requires ValidTree(net, t) && ValidTree(net, r)
    requires 0 < j < |ActiveHashes(net, r)| && SharedHistory(net, Deliver(net, t, before), r)
    requires var last, t' := ActiveHashes(net, r)[j - 1], Deliver(net, t, before);
             && last in t'.entries
             && t'.tip == if WorkOf(r, last) > t.Tip().record.work then last else t.tip
    ensures var last := ActiveHashes(net, r)[j];
            var t' := Deliver(net, t, before + [ActiveBlocks(net, r)[j]]);
            && SharedHistory(net, t', r) && last in t'.entries
            && t'.tip == if WorkOf(r, last) > t.Tip().record.work then last else t.tip
  {
    hide ValidTree, Linked, ActiveHashes, ActiveBlocks, Attempt, BlocksOf, SharedHistory;
    TipIsKnown(net, t);
    TipIsKnown(net, r);
    var b, t' := ActiveBlocks(net, r)[j], Deliver(net, t, before);
    TipIsKnown(net, t');
    assert (before + [b])[..|before|] == before;
    DeliverOne(net, t', r, j);
    StepOfPath(net, r, j);
    SharedEntryWork(net, t', r, ActiveHashes(net, r)[j - 1]);
    assert t'.entries[t.tip] == t.entries[t.tip];
  }

  lemma SharedEntryWork(net: Network, t: Tree, r: Tree, h: Hash)
    requires ValidTree(net, t) && ValidTree(net, r) && SharedHistory(net, t, r)
    requires h in t.entries && h in r.entries
    ensures WorkOf(t, h) == WorkOf(r, h)
  {
    SharedWork(net, t, r, h);
  }

  /** The last block of the peer's answer. */
  ghost function BatchEnd(net: Network, t: Tree, r: Tree): (end: Hash)
    requires Linked(net, t) && Linked(net, r)
    ensures end in r.entries
  {
    var theirs := ActiveHashes(net, r);
    theirs[Min(Matched(net, t, r) + 1 + MAX_BLOCKS_PER_RESPONSE, |theirs|) - 1]
  }

  /** What one round does: every block of the batch is known afterwards, and the last one becomes the
      tip exactly if it outweighs the tip from before. */
  lemma RoundOutcome(net: Network, t: Tree, r: Tree)
    requires ValidTree(net, t) && ValidTree(net, r) && SharedHistory(net, t, r)
    ensures var t', end := Round(net, t, r), BatchEnd(net, t, r);
            && SharedHistory(net, t', r) && end in t'.entries
            && t'.tip == if WorkOf(r, end) > t.Tip().record.work then end else t.tip
  {
    hide ValidTree, Linked, ActiveHashes, ActiveBlocks, Deliver, Matched, WorkOf, BlocksOf, SharedHistory;
    TipIsKnown(net, t);
    TipIsKnown(net, r);
    var common := Matched(net, t, r);
    LocatorFindsTheMatch(net, t, r);
    DeliverStretch(net, t, r, common, Min(common + 1 + MAX_BLOCKS_PER_RESPONSE, |ActiveHashes(net, r)|));
  }

  // Any number of rounds

  ghost function Rounds(net: Network, t: Tree, r: Tree, count: nat): (t': Tree)
    requires ValidTree(net, t) && ValidTree(net, r)
    ensures ValidTree(net, t')
  {
    if count == 0 then t else Round(net, Rounds(net, t, r, count - 1), r)
  }

  /** Our active chain is the peer's, cut after some block. */
  ghost predicate Behind(net: Network, t: Tree, r: Tree, length: nat)
    requires Linked(net, t) && Linked(net, r)
  {
    0 < length <= |ActiveHashes(net, r)| && ActiveHashes(net, t) == ActiveHashes(net, r)[..length]
  }

  lemma BehindMatchesTheTip(net: Network, t: Tree, r: Tree, length: nat)
    requires Linked(net, t) && Linked(net, r) && Behind(net, t, r, length)
    ensures Fork(net, t, r) == Matched(net, t, r) == length - 1
  {
    hide Path, Linked, EntryLinked;
    var mine, theirs := ActiveHashes(net, t), ActiveHashes(net, r);
    assert mine[..length] == theirs[..length];
    Prefixes(mine, theirs, length);
    LocatorShape(length);
    assert LocatorHeights(length)[0] <= length - 1;
  }

  lemma TipOnTheirChain(net: Network, t: Tree, r: Tree, length: nat)
    requires ValidTree(net, t) && ValidTree(net, r) && SharedHistory(net, t, r)
    requires 0 < length <= |ActiveHashes(net, r)| && t.tip == ActiveHashes(net, r)[length - 1]
    ensures Behind(net, t, r, length)
  {
    hide RunBranch, BlocksOf;
    PathPrefix(net, r, r.tip, length - 1);
    SamePath(net, t, r, t.tip);
  }

  lemma WorkRises(net: Network, r: Tree, i: nat, j: nat)
    requires ValidTree(net, r) && i < j < |ActiveHashes(net, r)|
    ensures WorkOf(r, ActiveHashes(net, r)[i]) < WorkOf(r, ActiveHashes(net, r)[j])
    decreases j
  {
    hide ActiveHashes, ActiveBlocks, BlocksOf, RunBranch;
    StepOfPath(net, r, j);
    if i < j - 1 {
      WorkRises(net, r, i, j - 1);
    }
  }

  /** A node that is only behind advances by 128 blocks a round until it is level with the peer. */
  lemma BehindAdvances(net: Network, t: Tree, r: Tree, length: nat)
    requires ValidTree(net, t) && ValidTree(net, r) && SharedHistory(net, t, r) && Behind(net, t, r, length)
    ensures SharedHistory(net, Round(net, t, r), r)
    ensures Behind(net, Round(net, t, r), r, Min(length + MAX_BLOCKS_PER_RESPONSE, |ActiveHashes(net, r)|))
  {
    hide Linked, Path, Round, EntryHoldsItsBranch, BlocksOf, RunBranch, EntryLinked;
    var theirs := ActiveHashes(net, r);
    var length' := Min(length + MAX_BLOCKS_PER_RESPONSE, |theirs|);
    RoundOutcome(net, t, r);
    BehindMatchesTheTip(net, t, r, length);
    BehindIsShort(net, t, r, length);
    SharedWork(net, t, r, t.tip);
    hide ActiveHashes, SharedHistory, Behind;
    if length < length' {
      WorkRises(net, r, length - 1, length' - 1);
    }
    TipOnTheirChain(net, Round(net, t, r), r, length');
  }

  lemma {:induction false} BehindAfter(net: Network, t: Tree, r: Tree, length: nat, count: nat)
    requires ValidTree(net, t) && ValidTree(net, r) && SharedHistory(net, t, r) && Behind(net, t, r, length)
    ensures var t' := Rounds(net, t, r, count);
            && SharedHistory(net, t', r)
            && Behind(net, t', r, Min(length + 128 * count, |ActiveHashes(net, r)|))
  {
    hide ValidTree, Linked, ActiveHashes, SharedHistory, Behind, Round;
    TipIsKnown(net, t);
    TipIsKnown(net, r);
    if count > 0 {
      var before := Rounds(net, t, r, count - 1);
      TipIsKnown(net, before);
      BehindAfter(net, t, r, length, count - 1);
      BehindAdvances(net, before, r, Min(length + 128 * (count - 1), |ActiveHashes(net, r)|));
    } else {
      BehindIsShort(net, t, r, length);
    }
  }

  lemma BehindIsShort(net: Network, t: Tree, r: Tree, length: nat)
    requires Linked(net, t) && Linked(net, r) && Behind(net, t, r, length)
    ensures 0 < length <= |ActiveHashes(net, r)| && t.tip == ActiveHashes(net, r)[length - 1]
  {
    assert t.tip == ActiveHashes(net, t)[length - 1];
  }

  /** A chain that is the peer's up to some block ends where the peer's ends only if it is all of it. */
  lemma LevelWithPeer(net: Network, t: Tree, r: Tree, length: nat)
    requires ValidTree(net, t) && ValidTree(net, r) && Behind(net, t, r, length)
    ensures t.tip == r.tip <==> length == |ActiveHashes(net, r)|
  {
    hide Path, BlocksOf, RunBranch;
    var theirs := ActiveHashes(net, r);
    BehindIsShort(net, t, r, length);
    assert r.tip == theirs[|theirs| - 1];
    if length < |theirs| {
      WorkRises(net, r, length - 1, |theirs| - 1);
    }
  }

  /** A node that is `n` blocks behind a fixed peer reaches its tip after ceil(n / 128) rounds and not
      before. */
  lemma ReachesTheTipInTime(net: Network, t: Tree, r: Tree, length: nat, count: nat)
    requires ValidTree(net, t) && ValidTree(net, r) && SharedHistory(net, t, r) && Behind(net, t, r, length)
    ensures Rounds(net, t, r, count).tip == r.tip <==> 128 * count >= |ActiveHashes(net, r)| - length
  {
    hide ValidTree, Linked, ActiveHashes, SharedHistory, Behind, Rounds;
    var t' := Rounds(net, t, r, count);
    TipIsKnown(net, t);
    TipIsKnown(net, r);
    TipIsKnown(net, t');
    BehindIsShort(net, t, r, length);
    BehindAfter(net, t, r, length, count);
    LevelWithPeer(net, t', r, Min(length + 128 * count, |ActiveHashes(net, r)|));
  }

  lemma {:induction false} FirstRoundFirst(net: Network, t: Tree, r: Tree, count: nat)
    requires ValidTree(net, t) && ValidTree(net, r)
    ensures Rounds(net, t, r, count + 1) == Rounds(net, Round(net, t, r), r, count)
  {
    hide ValidTree, Round;
    if count > 0 {
      FirstRoundFirst(net, t, r, count - 1);
    }
  }

  /** If the first batch outweighs the local tip, `count` rounds reach the peer's tip as soon as
      they cover the distance from the matched block. */
  lemma OutweighingConverges(net: Network, t: Tree, r: Tree, count: nat)
    requires ValidTree(net, t) && ValidTree(net, r) && SharedHistory(net, t, r) && count > 0
    requires WorkOf(r, BatchEnd(net, t, r)) > t.Tip().record.work
    ensures Rounds(net, t, r, count).tip == r.tip
       <==> Matched(net, t, r) + 1 + 128 * count >= |ActiveHashes(net, r)|
  {
    hide EntryLinked, EntryHoldsItsBranch, ActiveHashes, SharedHistory, Behind, Rounds, Round, Matched;
    var theirs, t' := ActiveHashes(net, r), Round(net, t, r);
    var length := Min(Matched(net, t, r) + 1 + MAX_BLOCKS_PER_RESPONSE, |theirs|);
    RoundOutcome(net, t, r);
    TipOnTheirChain(net, t', r, length);
    FirstRoundFirst(net, t, r, count - 1);
    ReachesTheTipInTime(net, t', r, length, count - 1);
  }

  lemma OneRoundStalls(net: Network, t: Tree, r: Tree)
    requires ValidTree(net, t) && ValidTree(net, r) && SharedHistory(net, t, r)
    requires WorkOf(r, BatchEnd(net, t, r)) <= t.Tip().record.work
    ensures var t' := Round(net, t, r);
            && SharedHistory(net, t', r) && t'.tip == t.tip && t'.Tip() == t.Tip()
            && BatchEnd(net, t', r) == BatchEnd(net, t, r)
            && LocatorHashes(ActiveHashes(net, t')) == LocatorHashes(ActiveHashes(net, t))
  {
    hide EntryLinked, EntryHoldsItsBranch, SharedHistory, Round, LocatorHeights;
    RoundOutcome(net, t, r);
    PathsAreStable(net, t, Round(net, t, r), t.tip);
  }

  /** If the first batch does not outweigh the local tip, no number of rounds ever moves the tip:
      every round sends the same locator again. */
  lemma {:induction false} OtherwiseStalls(net: Network, t: Tree, r: Tree, count: nat)
    requires ValidTree(net, t) && ValidTree(net, r) && SharedHistory(net, t, r)
    requires WorkOf(r, BatchEnd(net, t, r)) <= t.Tip().record.work
    ensures Rounds(net, t, r, count).tip == t.tip
    ensures LocatorHashes(ActiveHashes(net, Rounds(net, t, r, count))) == LocatorHashes(ActiveHashes(net, t))
    decreases count
  {
    hide EntryLinked, EntryHoldsItsBranch, SharedHistory, Round, BatchEnd;
    if count > 0 {
      OneRoundStalls(net, t, r);
      FirstRoundFirst(net, t, r, count - 1);
      OtherwiseStalls(net, Round(net, t, r), r, count - 1);
    }
  }

  /** Synchronizing with a fixed heavier peer ends on its tip if and only if its first batch
      outweighs the local tip. */
  lemma ConvergesIff(net: Network, t: Tree, r: Tree)
    requires ValidTree(net, t) && ValidTree(net, r) && SharedHistory(net, t, r)
    requires r.Tip().record.work > t.Tip().record.work
    ensures (exists count :: Rounds(net, t, r, count).tip == r.tip)
       <==> WorkOf(r, BatchEnd(net, t, r)) > t.Tip().record.work
  {
    hide EntryLinked, EntryHoldsItsBranch, SharedHistory, Rounds, BatchEnd, Matched, ActiveHashes;
    if WorkOf(r, BatchEnd(net, t, r)) > t.Tip().record.work {
      OutweighingConverges(net, t, r, |ActiveHashes(net, r)|);
    } else {
      forall count: nat
        ensures Rounds(net, t, r, count).tip != r.tip
      {
        OtherwiseStalls(net, t, r, count);
        assert t.tip != r.tip by {
          if t.tip == r.tip {
            SharedEntryWork(net, t, r, t.tip);
          }
        }
      }
    }
  }
}
