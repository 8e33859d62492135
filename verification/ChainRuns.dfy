/** Safety of the block tree over whole runs: every sequence of attempted blocks, accepted or
    rejected, in any order and on any branch. */
module ChainRuns {
  import opened Types
  import opened State
  import opened Emission
  import opened Consensus
  import opened Branches
  import opened BlockTree

  /** One attempt: a rejected block changes nothing. */
  ghost function Attempt(net: Network, t: Tree, b: Block): (t': Tree)
    requires ValidTree(net, t)
    ensures ValidTree(net, t') && Extends(t, t')
  {
    match NewEntry(net, t, b)
    case Err(_) => t
    case Ok(e) => InsertKeepsValid(net, t, b); NewEntryIsLinked(net, t, b); WithEntry(t, e)
  }

  /** The tree after any sequence of attempts. */
  ghost function Run(net: Network, attempts: seq<Block>): (t: Tree)
    ensures ValidTree(net, t)
  {
    if attempts == [] then GenesisTreeIsValid(net); GenesisTree(net)
    else Attempt(net, Run(net, attempts[..|attempts| - 1]), attempts[|attempts| - 1])
  }

  /** The hashes accepted so far, in acceptance order. */
  ghost function Accepted(net: Network, attempts: seq<Block>): seq<Hash> {
    if attempts == [] then [GenesisHash(net)]
    else
      var before, b := attempts[..|attempts| - 1], attempts[|attempts| - 1];
      if NewEntry(net, Run(net, before), b).Ok? then Accepted(net, before) + [net.HashOf(b)]
      else Accepted(net, before)
  }

  // ---------------------------------------------------------------------------------------------
  // Fork choice
  // ---------------------------------------------------------------------------------------------

  /** The tip is the first logged hash that has the greatest work. */
  ghost predicate FirstHeaviest(t: Tree, log: seq<Hash>)
    requires t.tip in t.entries
    requires forall i :: 0 <= i < |log| ==> log[i] in t.entries
  {
    exists k :: 0 <= k < |log| && FirstHeaviestAt(t, log, k)
  }

  ghost predicate FirstHeaviestAt(t: Tree, log: seq<Hash>, k: nat)
    requires t.tip in t.entries && k < |log|
    requires forall i :: 0 <= i < |log| ==> log[i] in t.entries
  {
    && log[k] == t.tip
    && (forall j :: 0 <= j < |log| ==> t.entries[log[j]].record.work <= t.Tip().record.work)
    && (forall j :: 0 <= j < k ==> t.entries[log[j]].record.work < t.Tip().record.work)
  }

  ghost predicate LogListsEntries(t: Tree, log: seq<Hash>) {
    && (forall i :: 0 <= i < |log| ==> log[i] in t.entries)
    && (forall h :: h in t.entries ==> h in log)
    && (forall i, j :: 0 <= i < j < |log| ==> log[i] != log[j])
  }

  lemma LogGrows(t: Tree, log: seq<Hash>, e: Entry)
    requires t.tip in t.entries && LogListsEntries(t, log) && e.record.hash !in t.entries
    ensures LogListsEntries(WithEntry(t, e), log + [e.record.hash])
  {
    var t', log' := WithEntry(t, e), log + [e.record.hash];
    assert log'[|log|] == e.record.hash;
    forall h | h in t'.entries ensures h in log' {
      assert h != e.record.hash ==> h in log;
    }
  }

  lemma AcceptanceKeepsChoice(t: Tree, log: seq<Hash>, e: Entry)
    requires t.tip in t.entries && LogListsEntries(t, log) && e.record.hash !in t.entries
    requires FirstHeaviest(t, log)
    ensures var t', log' := WithEntry(t, e), log + [e.record.hash];
            LogListsEntries(t', log') && t'.tip in t'.entries && FirstHeaviest(t', log')
  {
    var t', log' := WithEntry(t, e), log + [e.record.hash];
    LogGrows(t, log, e);
    var k :| 0 <= k < |log| && FirstHeaviestAt(t, log, k);
    hide LogListsEntries;
    ChoiceAt(t, log, e, k);
  }

  lemma ChoiceAt(t: Tree, log: seq<Hash>, e: Entry, k: nat)
    requires t.tip in t.entries && e.record.hash !in t.entries && k < |log|
    requires (forall i :: 0 <= i < |log| ==> log[i] in t.entries) && FirstHeaviestAt(t, log, k)
    ensures var t', log' := WithEntry(t, e), log + [e.record.hash];
            && t'.tip in t'.entries && (forall i :: 0 <= i < |log'| ==> log'[i] in t'.entries)
            && FirstHeaviestAt(t', log', if t'.tip == t.tip then k else |log|)
  {
    var t', log' := WithEntry(t, e), log + [e.record.hash];
    forall j | 0 <= j < |log|
      ensures log'[j] in t.entries && t'.entries[log'[j]] == t.entries[log[j]]
    {
    }
  }

  /** Over every run the active tip has the greatest cumulative work of all stored entries, and
      among those with that work it is the one accepted first. */
  lemma {:induction false} TipIsFirstHeaviest(net: Network, attempts: seq<Block>)
    ensures var t, log := Run(net, attempts), Accepted(net, attempts);
            LogListsEntries(t, log) && FirstHeaviest(t, log)
  {
    var t, log := Run(net, attempts), Accepted(net, attempts);
    if attempts == [] {
      assert log[0] == t.tip;
      assert FirstHeaviestAt(t, log, 0);
    } else {
      var before, b := attempts[..|attempts| - 1], attempts[|attempts| - 1];
      TipIsFirstHeaviest(net, before);
      if NewEntry(net, Run(net, before), b).Ok? {
        var e := NewEntry(net, Run(net, before), b).value;
        assert e.record.hash == net.HashOf(b) && net.HashOf(b) !in Run(net, before).entries by {
          hide Execute, BlocksOf;
        }
        AcceptanceKeepsChoice(Run(net, before), Accepted(net, before), e);
      }
    }
  }

  /** The tip's work never decreases, and it increases exactly when the tip moves. */
  lemma TipWorkNeverDecreases(net: Network, t: Tree, b: Block)
    requires ValidTree(net, t)
    ensures var t' := Attempt(net, t, b);
            && t.Tip().record.work <= t'.Tip().record.work
            && (t'.tip != t.tip <==> t.Tip().record.work < t'.Tip().record.work)
  {
    hide Execute, BlocksOf;
  }

  // ---------------------------------------------------------------------------------------------
  // What every entry of every reachable tree satisfies
  // ---------------------------------------------------------------------------------------------

  /** Every snapshot of every branch is solvent: balances add up to the recorded supply, which
      depends on the height alone; nonces count transactions; work fits its field. */
  lemma EveryEntryIsSound(net: Network, attempts: seq<Block>, h: Hash)
    requires h in Run(net, attempts).entries
    ensures var t := Run(net, attempts);
            var e, blocks := t.entries[h], BlocksOf(net, t, h);
            && Total(e.ledger.accounts) == e.record.supply == Issued(e.record.height) < MAX_SUPPLY_ATOMS
            && (forall a :: AccountAt(e.ledger, a).nonce == SentBy(TransactionsOf(blocks), a))
            && e.ledger.confirmed == Txids(net, TransactionsOf(blocks))
            && DistinctTxids(net, TransactionsOf(blocks))
            && NoncesCount(EMPTY_LEDGER, TransactionsOf(blocks))
            && e.record.height < e.record.work < WORK_LIMIT
            && TargetInRange(e.block.header.target)
  {
    var t := Run(net, attempts);
    var blocks := BlocksOf(net, t, h);
    assert EntryHoldsItsBranch(net, t, h);
    BranchConserves(net, blocks);
    BranchCounts(net, blocks);
    BranchIsFresh(net, blocks);
    WorkGrows(net, blocks);
    WorkFitsFortyBytes(net, blocks);
    BranchHeaders(net, blocks);
  }

  // ---------------------------------------------------------------------------------------------
  // Independence of arrival order
  // ---------------------------------------------------------------------------------------------

  ghost predicate SameBlocks(t1: Tree, t2: Tree) {
    && t1.entries.Keys == t2.entries.Keys
    && forall h :: h in t1.entries ==> t1.entries[h].block == t2.entries[h].block
  }

  lemma {:induction false} SameBranches(net: Network, t1: Tree, t2: Tree, h: Hash)
    requires Linked(net, t1) && Linked(net, t2) && SameBlocks(t1, t2) && h in t1.entries
    ensures BlocksOf(net, t1, h) == BlocksOf(net, t2, h)
    ensures t1.entries[h].record.parent == t2.entries[h].record.parent
    decreases t1.entries[h].record.height
  {
    assert EntryLinked(net, t1.entries, h) && EntryLinked(net, t2.entries, h);
    if t1.entries[h].record.parent.Some? {
      var p := t1.entries[h].record.parent.value;
      assert EntryLinked(net, t1.entries, p) && EntryLinked(net, t2.entries, p);
      SameBranches(net, t1, t2, p);
    }
  }

  /** Two trees over the same blocks, however they came in, agree on every record and every
      snapshot and carry tips of equal work; they agree on the tip itself unless two entries share
      the greatest work. */
  lemma OrderDoesNotMatter(net: Network, t1: Tree, t2: Tree)
    requires ValidTree(net, t1) && ValidTree(net, t2) && SameBlocks(t1, t2)
    ensures t1.entries == t2.entries
    ensures t1.Tip().record.work == t2.Tip().record.work
    ensures t1.tip == t2.tip
      || exists h, h' :: h in t1.entries && h' in t1.entries && h != h'
           && t1.entries[h].record.work == t1.entries[h'].record.work == t1.Tip().record.work
  {
    forall h | h in t1.entries ensures t1.entries[h] == t2.entries[h] {
      assert EntryLinked(net, t1.entries, h) && EntryLinked(net, t2.entries, h);
      assert EntryHoldsItsBranch(net, t1, h) && EntryHoldsItsBranch(net, t2, h);
      SameBranches(net, t1, t2, h);
    }
  }

  /** For whole runs: what two nodes end up with depends only on which blocks they accepted. */
  lemma RunsWithTheSameBlocksAgree(net: Network, attempts1: seq<Block>, attempts2: seq<Block>)
    requires SameBlocks(Run(net, attempts1), Run(net, attempts2))
    ensures Run(net, attempts1).entries == Run(net, attempts2).entries
    ensures Run(net, attempts1).Tip().record.work == Run(net, attempts2).Tip().record.work
    ensures var t := Run(net, attempts1);
            t.tip == Run(net, attempts2).tip
            || exists h, h' :: h in t.entries && h' in t.entries && h != h'
                 && t.entries[h].record.work == t.entries[h'].record.work == t.Tip().record.work
  {
    OrderDoesNotMatter(net, Run(net, attempts1), Run(net, attempts2));
  }

  /** Whether a block is accepted depends on its branch alone, so two trees that share its parent
      branch give it the same entry. */
  lemma SameBranchSameVerdict(net: Network, t1: Tree, t2: Tree, b: Block)
    requires ValidTree(net, t1) && ValidTree(net, t2)
    requires b.header.previous in t1.entries && b.header.previous in t2.entries
    requires BlocksOf(net, t1, b.header.previous) == BlocksOf(net, t2, b.header.previous)
    requires net.HashOf(b) !in t1.entries && net.HashOf(b) !in t2.entries
    ensures NewEntry(net, t1, b) == NewEntry(net, t2, b)
  {
    hide Execute, TargetAfter, RunBranch;
    var p := b.header.previous;
    assert EntryHoldsItsBranch(net, t1, p) && EntryHoldsItsBranch(net, t2, p);
    assert EntryLinked(net, t1.entries, p) && EntryLinked(net, t2.entries, p);
  }

  /** The block before the tip moved is recoverable from the update alone. */
  lemma UpdateNamesPreviousTip(net: Network, t: Tree, b: Block)
    requires ValidTree(net, t) && Insert(net, t, b).Ok?
    ensures var u := Insert(net, t, b).value.update;
            && (!u.becameActive ==> u.activeTip == t.tip)
            && (u.becameActive && u.disconnected != [] ==> u.disconnected[0] == t.tip)
            && (u.becameActive && u.disconnected == [] ==> u.commonAncestor == Some(t.tip))
  {
    hide Execute, TargetAfter, RunBranch, EntryHoldsItsBranch;
    var t' := Insert(net, t, b).value.tree;
    NewEntryIsLinked(net, t, b);
    var n := CommonPathLength(net, t', t.tip, net.HashOf(b));
    var s := SwitchBetween(net, t', t.tip, net.HashOf(b));
    if s.disconnected == [] {
      assert Path(net, t', t.tip) == Path(net, t', s.ancestor) + [];
    } else {
      assert Path(net, t', t.tip)[|Path(net, t', t.tip)| - 1] == Reversed(s.disconnected)[|s.disconnected| - 1];
    }
  }

  lemma ChildOutweighsTheTip(net: Network, t: Tree, b: Block)
    requires ValidTree(net, t) && NewEntry(net, t, b).Ok? && b.header.previous == t.tip
    ensures var e := NewEntry(net, t, b).value;
            e.record.hash == net.HashOf(b) && e.record.work > t.Tip().record.work && net.HashOf(b) != t.tip
  {
    hide Execute, TargetAfter, RunBranch, EntryHoldsItsBranch, WorkForTarget, BlocksOf, EntryLinked;
    WorkIsBounded(b.header.target);
  }

  lemma OneLonger(a: seq<Hash>, h: Hash)
    ensures CommonLength(a, a + [h]) == |a|
    ensures Reversed(a[|a|..]) == [] && (a + [h])[|a|..] == [h]
  {
    assert a[..|a|] == a == (a + [h])[..|a|];
    Prefixes(a, a + [h], |a|);
  }

  /** A block on top of the tip always wins, without disconnecting anything. */
  lemma ExtendingTheTipWins(net: Network, t: Tree, b: Block)
    requires ValidTree(net, t) && Insert(net, t, b).Ok? && b.header.previous == t.tip
    ensures Insert(net, t, b).value.update
         == Update(net.HashOf(b), net.HashOf(b), true, false, Some(t.tip), [], [net.HashOf(b)])
  {
    hide NewEntry, EntryHoldsItsBranch, EntryLinked, CommonLength, Reversed, Path, BlocksOf;
    var t', h := Insert(net, t, b).value.tree, net.HashOf(b);
    NewEntryIsLinked(net, t, b);
    ChildOutweighsTheTip(net, t, b);
    NewBlocks(net, t, b);
    PathsAreStable(net, t, t', t.tip);
    var n := CommonPathLength(net, t', t.tip, h);
    var a := Path(net, t', t.tip);
    OneLonger(a, h);
  }
}
