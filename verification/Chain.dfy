/** The mutable chain: a map of validated entries and the hash of the active tip. */
module Chain {
  import opened Types
  import opened State
  import opened Consensus
  import opened Branches
  import opened BlockTree

  class Chain {
    const net: Network
    var entries: map<Hash, Entry>
    var tip: Hash

    function Tree(): BlockTree.Tree
      reads this
    {
      BlockTree.Tree(entries, tip)
    }

    ghost predicate Valid()
      reads this
    {
      ValidTree(net, Tree())
    }

    /** A chain holding the genesis block, which is validated like any other. */
    constructor (net: Network)
      requires GenesisMined(net)
      ensures Valid() && this.net == net && Tree() == GenesisTree(net)
    {
      GenesisTreeIsValid(net);
      var genesis := GenesisBlock(net);
      var state := new AccountState(net, EMPTY_LEDGER);
      var execution := ValidateAndExecuteBlock(net, genesis, None, state, 0, None);
      var hash := net.HashOf(genesis);
      var record := Record(hash, None, 0, WorkForTarget(genesis.header.target), execution.value.supply);
      this.net := net;
      entries := map[hash := Entry(genesis, record, execution.value.ledger)];
      tip := hash;
    }

    /** An independently mutable tree over the same immutable entries. */
    constructor CopyOf(chain: Chain)
      requires chain.Valid()
      ensures Valid() && net == chain.net && Tree() == chain.Tree()
    {
      net, entries, tip := chain.net, chain.entries, chain.tip;
    }

    /** The account state of any known block. */
    method StateAt(hash: Hash) returns (state: AccountState)
      requires Valid() && hash in entries
      ensures fresh(state) && state.Valid() && state.net == net
      ensures state.Snapshot() == entries[hash].ledger
    {
      assert EntryHoldsItsBranch(net, Tree(), hash);
      BranchCounts(net, BlocksOf(net, Tree(), hash));
      state := new AccountState(net, entries[hash].ledger);
    }

    method AncestorAtHeight(hash: Hash, height: nat) returns (entry: Entry)
      requires Valid() && hash in entries && height <= entries[hash].record.height
      ensures entry == entries[Path(net, Tree(), hash)[height]]
    {
      ghost var path := Path(net, Tree(), hash);
      entry := entries[hash];
      while entry.record.height > height
        invariant height <= entry.record.height < |path|
        invariant path[entry.record.height] in entries && entry == entries[path[entry.record.height]]
        decreases entry.record.height
      {
        StepDown(net, Tree(), hash, entry.record.height);
        entry := entries[entry.record.parent.value];
      }
    }

    method ExpectedTargetForChild(parentHash: Hash) returns (r: Result<int>)
      requires Valid()
      ensures r == if parentHash !in entries then Err(UnknownParent)
                   else if entries[parentHash].record.height == U64_MAX then Err(HeightExhausted)
                   else Ok(TargetAfter(BlocksOf(net, Tree(), parentHash)))
    {
      if parentHash !in entries { return Err(UnknownParent); }
      var parent := entries[parentHash];
      assert EntryLinked(net, entries, parentHash);
      if parent.record.height == U64_MAX { return Err(HeightExhausted); }
      var next := parent.record.height + 1;
      if next % 120 != 0 { return Ok(parent.block.header.target); }
      var start := AncestorAtHeight(parentHash, next - 120);
      PathPrefix(net, Tree(), parentHash, next - 120);
      r := Ok(Retarget(parent.block.header.target,
                       parent.block.header.timestamp - start.block.header.timestamp));
    }

    /** A candidate on top of any known block. */
    method BuildCandidate(miner: Text, txs: seq<Transaction>, timestamp: int, parentHash: Hash)
      returns (r: Result<Block>)
      requires Valid()
      ensures parentHash !in entries ==> r == Err(UnknownParent)
      ensures parentHash in entries && entries[parentHash].record.height == U64_MAX ==>
                r == Err(HeightExhausted)
      ensures parentHash in entries && entries[parentHash].record.height != U64_MAX ==>
                var parent := entries[parentHash];
                r == Candidate(net, parent.block, parent.ledger, parent.record.supply, miner, txs,
                               timestamp, Some(TargetAfter(BlocksOf(net, Tree(), parentHash))))
    {
      if parentHash !in entries { return Err(UnknownParent); }
      var parent := entries[parentHash];
      var state := StateAt(parentHash);
      var target := ExpectedTargetForChild(parentHash);
      if target.Err? { return Err(target.fault); }
      r := BuildBlockCandidate(net, parent.block, state, parent.record.supply, miner, txs, timestamp,
                               Some(target.value));
    }

    /** The three-loop walk to the common ancestor. It never runs off a branch. */
    method ReorganizationPaths(oldTip: Hash, newTip: Hash) returns (s: Switch)
      requires Linked(net, Tree()) && oldTip in entries && newTip in entries
      ensures s == SwitchBetween(net, Tree(), oldTip, newTip)
    {
      hide Cursor, DifferentAbove, Linked, EntryLinked, Reversed, SwitchBetween;
      ghost var t := Tree();
      StartCursor(net, t, oldTip);
      StartCursor(net, t, newTip);
      var oldHash, newHash := oldTip, newTip;
      var disconnected: seq<Hash>, connectedReverse: seq<Hash> := [], [];
      while entries[oldHash].record.height > entries[newHash].record.height
        invariant newHash == newTip && oldHash in entries && Cursor(net, t, oldTip, oldHash, disconnected)
        invariant disconnected != [] ==> entries[oldHash].record.height >= entries[newTip].record.height
        decreases entries[oldHash].record.height
      {
        OnlyGenesisIsAtZero(net, t, newTip);
        StepCursor(net, t, oldTip, oldHash, disconnected);
        disconnected := disconnected + [oldHash];
        oldHash := entries[oldHash].record.parent.value;
      }
      while entries[newHash].record.height > entries[oldHash].record.height
        invariant oldHash in entries && Cursor(net, t, oldTip, oldHash, disconnected)
        invariant newHash in entries && Cursor(net, t, newTip, newHash, connectedReverse)
        invariant entries[newHash].record.height >= entries[oldHash].record.height
        invariant disconnected != [] ==>
                    && connectedReverse == []
                    && entries[newHash].record.height == entries[oldHash].record.height
        decreases entries[newHash].record.height
      {
        OnlyGenesisIsAtZero(net, t, oldHash);
        StepCursor(net, t, newTip, newHash, connectedReverse);
        connectedReverse := connectedReverse + [newHash];
        newHash := entries[newHash].record.parent.value;
      }
      NothingAbove(net, t, oldTip, newTip, oldHash, newHash, disconnected, connectedReverse);
      while oldHash != newHash
        invariant oldHash in entries && Cursor(net, t, oldTip, oldHash, disconnected)
        invariant newHash in entries && Cursor(net, t, newTip, newHash, connectedReverse)
        invariant entries[oldHash].record.height == entries[newHash].record.height
        invariant DifferentAbove(net, t, oldTip, newTip, entries[oldHash].record.height + 1)
        decreases entries[oldHash].record.height
      {
        SameHeightHasParents(net, t, oldHash, newHash);
        StillDifferent(net, t, oldTip, newTip, oldHash, newHash, disconnected, connectedReverse);
        StepCursor(net, t, oldTip, oldHash, disconnected);
        StepCursor(net, t, newTip, newHash, connectedReverse);
        disconnected := disconnected + [oldHash];
        connectedReverse := connectedReverse + [newHash];
        oldHash := entries[oldHash].record.parent.value;
        newHash := entries[newHash].record.parent.value;
      }
      MeetingPoint(net, t, oldTip, newTip, oldHash, disconnected, connectedReverse);
      s := Switch(oldHash, disconnected, Reversed(connectedReverse));
    }

    /** Validates a block on its own parent's branch, stores it, and switches the tip if the new
        branch has strictly more work. A rejected block changes nothing. */
    method AddBlock(b: Block) returns (r: Result<Update>)
      requires Valid()
      modifies this
      ensures Valid()
      ensures match Insert(net, old(Tree()), b)
              case Ok(grown) => r == Ok(grown.update) && Tree() == grown.tree
              case Err(fault) => r == Err(fault) && Tree() == old(Tree())
      ensures r.Ok? ==> net.hashValue(net.blockHash(b.header)) <= b.header.target
    {
      hide NewEntry, Insert, SwitchBetween, ValidTree, Linked;
      ghost var before := Tree();
      TipIsKnown(net, before);
      InsertFollowsEntry(net, before, b);
      var checked := CheckBlock(b);
      if checked.Err? { return Err(checked.fault); }
      var entry := checked.value;
      var hash := entry.record.hash;
      NewEntryIsMined(net, before, b);
      NewEntryIsLinked(net, before, b);
      InsertKeepsValid(net, before, b);
      entries := entries[hash := entry];
      var oldTip := tip;
      var becameActive := entry.record.work > entries[oldTip].record.work;
      var common: Option<Hash> := None;
      var disconnected: seq<Hash>, connected: seq<Hash> := [], [];
      var reorganized := false;
      if becameActive {
        LinkedWhateverTheTip(net, WithEntry(before, entry), tip);
        var s := ReorganizationPaths(oldTip, hash);
        common, disconnected, connected := Some(s.ancestor), s.disconnected, s.connected;
        reorganized := |disconnected| > 0;
        tip := hash;
        SwitchWhateverTheTip(net, Tree(), oldTip, oldTip, hash);
      }
      r := Ok(Update(hash, tip, becameActive, reorganized, common, disconnected, connected));
    }

    /** Validates a block on its own parent's branch and gives the entry it would get. */
    method CheckBlock(b: Block) returns (r: Result<Entry>)
      requires Valid()
      ensures r == NewEntry(net, Tree(), b)
    {
      hide ExecuteBody, ExecuteGenesis, FirstBrokenShape, Mined, BodyEncodable, TargetAfter, EntryLinked,
        EntryHoldsItsBranch, BlocksOf, RunBranch, Path, HeaderEncodable;
      if !HeaderEncodable(b.header) { return Err(NotEncodable); }
      if net.HashOf(b) in entries { return Err(AlreadyKnown); }
      var parentHash := b.header.previous;
      if parentHash !in entries { return Err(UnknownParent); }
      var parent := entries[parentHash];
      var state := StateAt(parentHash);
      var target := ExpectedTargetForChild(parentHash);
      if target.Err? { return Err(target.fault); }
      var execution := ValidateAndExecuteBlock(net, b, Some(parent.block), state, parent.record.supply,
                                               Some(target.value));
      if execution.Err? { return Err(execution.fault); }
      r := Ok(EntryFor(net, parent, b, execution.value));
    }

    /** The active branch, genesis first. */
    method ActiveChain() returns (blocks: seq<Block>)
      requires Valid()
      ensures blocks == BlocksOf(net, Tree(), tip)
    {
      hide Path, BlocksOf, EntryLinked, EntryHoldsItsBranch, RunBranch;
      ghost var all := BlocksOf(net, Tree(), tip);
      OnlyGenesisIsAtZero(net, Tree(), tip);
      var hash := tip;
      blocks := [entries[tip].block];
      while entries[hash].record.parent.Some?
        invariant hash in entries && 0 <= entries[hash].record.height < |all|
        invariant Path(net, Tree(), tip)[entries[hash].record.height] == hash
        invariant blocks == all[entries[hash].record.height..]
        decreases entries[hash].record.height
      {
        OnlyGenesisIsAtZero(net, Tree(), hash);
        StepDown(net, Tree(), tip, entries[hash].record.height);
        hash := entries[hash].record.parent.value;
        PathPrefix(net, Tree(), tip, entries[hash].record.height);
        TailOneLower(all, entries[hash].record.height);
        blocks := [entries[hash].block] + blocks;
      }
      OnlyGenesisIsAtZero(net, Tree(), hash);
    }
  }

  // ---------------------------------------------------------------------------------------------
  // Walking down a branch
  // ---------------------------------------------------------------------------------------------

  /** Below a block above genesis lies its parent, one lower on the same path. */
  lemma StepDown(net: Network, t: Tree, h: Hash, i: nat)
    requires Linked(net, t) && h in t.entries && 0 < i <= t.entries[h].record.height
    ensures var path := Path(net, t, h);
            && t.entries[path[i]].record.parent == Some(path[i - 1])
            && t.entries[path[i - 1]].record.height == i - 1
  {
    var path := Path(net, t, h);
    PathPrefix(net, t, h, i);
    assert EntryLinked(net, t.entries, path[i]);
    var p := t.entries[path[i]].record.parent.value;
    assert EntryLinked(net, t.entries, p);
    assert Path(net, t, path[i]) == Path(net, t, p) + [path[i]];
    assert path[..i + 1][i - 1] == path[i - 1];
  }

  lemma TailOneLower(blocks: seq<Block>, i: nat)
    requires i < |blocks|
    ensures blocks[i..] == [blocks[i]] + blocks[i + 1..]
  {
  }

  /** A cursor on the branch of `from` that has collected everything above it, tip first. */
  ghost predicate Cursor(net: Network, t: Tree, from: Hash, at: Hash, collected: seq<Hash>) {
    && Linked(net, t) && from in t.entries && at in t.entries
    && 0 <= t.entries[at].record.height <= t.entries[from].record.height
    && Path(net, t, from)[t.entries[at].record.height] == at
    && collected == Reversed(Path(net, t, from)[t.entries[at].record.height + 1..])
  }

  lemma StepCursor(net: Network, t: Tree, from: Hash, at: Hash, collected: seq<Hash>)
    requires Cursor(net, t, from, at, collected) && t.entries[at].record.height > 0
    ensures var p := t.entries[at].record.parent;
            && p.Some? && p.value in t.entries
            && t.entries[p.value].record.height == t.entries[at].record.height - 1
            && Cursor(net, t, from, p.value, collected + [at])
  {
    var i := t.entries[at].record.height;
    var path := Path(net, t, from);
    StepDown(net, t, from, i);
    assert path[i..] == [at] + path[i + 1..];
  }

  /** The two branches do not agree at height `i`, or one of them does not reach it. */
  ghost predicate DifferentAbove(net: Network, t: Tree, oldTip: Hash, newTip: Hash, i: int) {
    && Linked(net, t) && oldTip in t.entries && newTip in t.entries
    && var a, b := Path(net, t, oldTip), Path(net, t, newTip);
       0 <= i < |a| && i < |b| ==> a[i] != b[i]
  }

  /** A cursor that has collected nothing is at the top of its branch. */
  lemma NothingAbove(net: Network, t: Tree, oldTip: Hash, newTip: Hash, oldHash: Hash, newHash: Hash,
                     disconnected: seq<Hash>, connectedReverse: seq<Hash>)
    requires Cursor(net, t, oldTip, oldHash, disconnected) && Cursor(net, t, newTip, newHash, connectedReverse)
    requires disconnected == [] || connectedReverse == []
    requires t.entries[oldHash].record.height == t.entries[newHash].record.height
    ensures DifferentAbove(net, t, oldTip, newTip, t.entries[oldHash].record.height + 1)
  {
    hide Path, Linked;
    assert |disconnected| == |Path(net, t, oldTip)| - 1 - t.entries[oldHash].record.height;
    assert |connectedReverse| == |Path(net, t, newTip)| - 1 - t.entries[newHash].record.height;
  }

  lemma StillDifferent(net: Network, t: Tree, oldTip: Hash, newTip: Hash, oldHash: Hash, newHash: Hash,
                       disconnected: seq<Hash>, connectedReverse: seq<Hash>)
    requires Cursor(net, t, oldTip, oldHash, disconnected) && Cursor(net, t, newTip, newHash, connectedReverse)
    requires t.entries[oldHash].record.height == t.entries[newHash].record.height && oldHash != newHash
    ensures DifferentAbove(net, t, oldTip, newTip, t.entries[oldHash].record.height)
  {
    hide Path, Linked, Reversed;
  }

  /** Two different hashes at one height are both above genesis. */
  lemma SameHeightHasParents(net: Network, t: Tree, a: Hash, b: Hash)
    requires Linked(net, t) && a in t.entries && b in t.entries && a != b
    requires t.entries[a].record.height == t.entries[b].record.height
    ensures t.entries[a].record.height > 0
  {
    OnlyGenesisIsAtZero(net, t, a);
    OnlyGenesisIsAtZero(net, t, b);
  }

  lemma OnlyGenesisIsAtZero(net: Network, t: Tree, h: Hash)
    requires Linked(net, t) && h in t.entries
    ensures t.entries[h].record.height >= 0
    ensures t.entries[h].record.height == 0 <==> t.entries[h].record.parent.None?
    ensures t.entries[h].record.height == 0 ==> h == GenesisHash(net)
  {
    assert EntryLinked(net, t.entries, h);
    match t.entries[h].record.parent
    case None =>
    case Some(p) => assert EntryLinked(net, t.entries, p);
  }

  lemma StartCursor(net: Network, t: Tree, h: Hash)
    requires Linked(net, t) && h in t.entries
    ensures Cursor(net, t, h, h, [])
  {
    hide Linked;
    OnlyGenesisIsAtZero(net, t, h);
    var path := Path(net, t, h);
    assert path[|path|..] == [];
  }

  /** Where two cursors meet with nothing equal above them, the walk has found the switch. */
  lemma MeetingPoint(net: Network, t: Tree, oldTip: Hash, newTip: Hash, at: Hash,
                     disconnected: seq<Hash>, connectedReverse: seq<Hash>)
    requires Cursor(net, t, oldTip, at, disconnected) && Cursor(net, t, newTip, at, connectedReverse)
    requires DifferentAbove(net, t, oldTip, newTip, t.entries[at].record.height + 1)
    ensures SwitchBetween(net, t, oldTip, newTip) == Switch(at, disconnected, Reversed(connectedReverse))
  {
    hide Linked, Path, CommonLength, Reversed;
    var a, b, i := Path(net, t, oldTip), Path(net, t, newTip), t.entries[at].record.height;
    PathPrefix(net, t, oldTip, i);
    PathPrefix(net, t, newTip, i);
    MeetingIndex(a, b, i + 1, connectedReverse);
  }

  lemma MeetingIndex(a: seq<Hash>, b: seq<Hash>, k: nat, connectedReverse: seq<Hash>)
    requires k <= |a| && k <= |b| && a[..k] == b[..k]
    requires k < |a| && k < |b| ==> a[k] != b[k]
    requires connectedReverse == Reversed(b[k..])
    ensures CommonLength(a, b) == k && Reversed(connectedReverse) == b[k..]
  {
    hide CommonLength, Reversed;
    Prefixes(a, b, k);
    AgreesExactly(a, b, k);
    ReversedTwice(b[k..]);
  }

  lemma AgreesExactly(a: seq<Hash>, b: seq<Hash>, k: nat)
    requires k <= CommonLength(a, b)
    requires k < |a| && k < |b| ==> a[k] != b[k]
    ensures CommonLength(a, b) == k
  {
    hide CommonLength;
    if k < CommonLength(a, b) {
      AgreesAt(a, b, k);
    }
  }

  lemma AgreesAt(a: seq<Hash>, b: seq<Hash>, k: nat)
    requires k < CommonLength(a, b)
    ensures a[k] == b[k]
  {
    hide CommonLength;
    var n := CommonLength(a, b);
    assert a[..n][k] == b[..n][k];
  }

  /** What adding a block does, in terms of the entry it gets. */
  lemma InsertFollowsEntry(net: Network, t: Tree, b: Block)
    requires Linked(net, t)
    ensures NewEntry(net, t, b).Err? ==> Insert(net, t, b) == Err(NewEntry(net, t, b).fault)
    ensures NewEntry(net, t, b).Ok? ==>
              var e := NewEntry(net, t, b).value;
              var t' := WithEntry(t, e);
              && e.record.hash !in t.entries && Linked(net, t') && e.record.hash in t'.entries && t.tip in t'.entries
              && Insert(net, t, b).Ok? && Insert(net, t, b).value.tree == t'
              && var s := SwitchBetween(net, t', t.tip, e.record.hash);
                 Insert(net, t, b).value.update ==
                   if e.record.work > t.Tip().record.work
                   then Update(e.record.hash, t'.tip, true, s.disconnected != [], Some(s.ancestor), s.disconnected,
                               s.connected)
                   else Update(e.record.hash, t'.tip, false, false, None, [], [])
  {
    hide Execute, TargetAfter, BlocksOf, SwitchBetween;
    if NewEntry(net, t, b).Ok? {
      NewEntryIsLinked(net, t, b);
    }
  }

  /** Paths do not depend on which entry is the tip. */
  lemma LinkedWhateverTheTip(net: Network, t: Tree, tip: Hash)
    requires Linked(net, t) && tip in t.entries
    ensures Linked(net, Tree(t.entries, tip))
  {
    forall h | h in t.entries ensures EntryLinked(net, t.entries, h) {
    }
  }

  lemma SwitchWhateverTheTip(net: Network, t: Tree, tip: Hash, oldTip: Hash, newTip: Hash)
    requires Linked(net, t) && tip in t.entries && oldTip in t.entries && newTip in t.entries
    ensures Linked(net, Tree(t.entries, tip))
    ensures SwitchBetween(net, Tree(t.entries, tip), oldTip, newTip) == SwitchBetween(net, t, oldTip, newTip)
  {
    LinkedWhateverTheTip(net, t, tip);
    PathsAreStable(net, t, Tree(t.entries, tip), oldTip);
    PathsAreStable(net, t, Tree(t.entries, tip), newTip);
  }
}
