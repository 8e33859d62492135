/** What a reorganization does to the pending pool: exactly which pending transactions are kept.

    The node removes what the new branch confirms, revalidates the rest against the new tip, and only
    then offers the disconnected transactions again. So a pending transaction whose predecessors were
    disconnected finds a gap below it and is dropped, although the gap is filled right afterwards. */
module Reorganizations {
  import opened Types
  import opened State
  import opened Branches
  import opened BlockTree
  import opened PendingPool
  import opened Node

  predicate NotAmong(net: Network, txs: seq<Transaction>, id: Hash) {
    forall i :: 0 <= i < |txs| ==> net.txid(txs[i]) != id
  }

  // One stage at a time

  /** Offering adds nothing but what is offered, and removes nothing. */
  lemma {:induction false} OfferAllKeepsAndAdds(net: Network, p: Pool, txs: seq<Transaction>, l: Ledger, height: int,
                                                id: Hash)
    ensures id in p.txs ==>
              id in OfferAll(net, p, txs, l, height).txs && OfferAll(net, p, txs, l, height).txs[id] == p.txs[id]
    ensures id !in p.txs && NotAmong(net, txs, id) ==> id !in OfferAll(net, p, txs, l, height).txs
  {
    if txs != [] {
      OfferAllKeepsAndAdds(net, p, txs[..|txs| - 1], l, height, id);
      OfferKeepsAndAdds(net, OfferAll(net, p, txs[..|txs| - 1], l, height), txs[|txs| - 1], l, height, id);
    }
  }

  lemma OfferKeepsAndAdds(net: Network, p: Pool, tx: Transaction, l: Ledger, height: int, id: Hash)
    ensures id in p.txs ==> id in Offer(net, p, tx, l, height).txs && Offer(net, p, tx, l, height).txs[id] == p.txs[id]
    ensures id !in p.txs && net.txid(tx) != id ==> id !in Offer(net, p, tx, l, height).txs
  {
  }

  /** Removing a list takes out exactly the listed identifiers, and with each its own slot. */
  lemma {:induction false} RemovalIsExact(net: Network, p: Pool, txs: seq<Transaction>, id: Hash)
    requires Consistent(net, p)
    ensures var left := WithoutAll(net, p, txs);
            && (id in left.txs <==> id in p.txs && NotAmong(net, txs, id))
            && (id in left.txs ==> left.txs[id] == p.txs[id])
  {
    if txs != [] {
      RemovalIsExact(net, p, txs[..|txs| - 1], id);
    }
  }

  lemma {:induction false} RemovalKeepsOtherSlots(net: Network, p: Pool, txs: seq<Transaction>, k: Slot)
    requires Consistent(net, p)
    ensures var left := WithoutAll(net, p, txs);
            && Consistent(net, left)
            && (k in left.slots <==> k in p.slots && NotAmong(net, txs, p.slots[k]))
            && (k in left.slots ==> left.slots[k] == p.slots[k] && CostAt(left, k) == CostAt(p, k))
  {
    WithoutAllIsConsistent(net, p, txs);
    var left := WithoutAll(net, p, txs);
    if k in left.slots {
      RemovalIsExact(net, p, txs, left.slots[k]);
    }
    if k in p.slots {
      RemovalIsExact(net, p, txs, p.slots[k]);
    }
  }

  ghost predicate AllConfirmed(net: Network, txs: seq<Transaction>, l: Ledger) {
    forall i :: 0 <= i < |txs| ==> net.txid(txs[i]) in l.confirmed
  }

  /** Removing confirmed transactions first makes no difference to what survives. */
  lemma RemovalDoesNotDecide(net: Network, p: Pool, txs: seq<Transaction>, id: Hash, l: Ledger, height: int)
    requires Consistent(net, p) && id in p.txs && AllConfirmed(net, txs, l)
    ensures var left := WithoutAll(net, p, txs);
            id in left.txs && Survives(net, left, left.txs[id], l, height) <==> Survives(net, p, p.txs[id], l, height)
  {
    hide Survives, WithoutAll;
    var left, tx := WithoutAll(net, p, txs), p.txs[id];
    RemovalIsExact(net, p, txs, id);
    if id in left.txs && Survives(net, left, tx, l, height) {
      SurvivesInTheWhole(net, p, txs, tx, l, height);
    }
    if Survives(net, p, tx, l, height) {
      SurvivesInTheRest(net, p, txs, tx, l, height);
      SurvivorIsUnconfirmed(net, p, tx, l, height);
    }
  }

  lemma SurvivorIsUnconfirmed(net: Network, p: Pool, tx: Transaction, l: Ledger, height: int)
    requires Consistent(net, p) && net.txid(tx) in p.txs && p.txs[net.txid(tx)] == tx
    requires Survives(net, p, tx, l, height)
    ensures net.txid(tx) !in l.confirmed
  {
    assert SurvivesAt(net, p, tx.sender, AccountAt(l, tx.sender), tx.nonce, l, height);
    assert Slot(tx.sender, tx.nonce) == SlotOf(tx);
  }

  lemma SurvivesInTheWhole(net: Network, p: Pool, txs: seq<Transaction>, tx: Transaction, l: Ledger, height: int)
    requires Consistent(net, p) && Survives(net, WithoutAll(net, p, txs), tx, l, height)
    ensures Survives(net, p, tx, l, height)
  {
    hide WithoutAll, Consistent, CostAt, RunCost;
    var left, account := WithoutAll(net, p, txs), AccountAt(l, tx.sender);
    forall n {:trigger Slot(tx.sender, n)} | account.nonce <= n <= tx.nonce
      ensures Slot(tx.sender, n) in left.slots && Slot(tx.sender, n) in p.slots
      ensures p.slots[Slot(tx.sender, n)] == left.slots[Slot(tx.sender, n)]
      ensures CostAt(left, Slot(tx.sender, n)) == CostAt(p, Slot(tx.sender, n))
    {
      assert SurvivesAt(net, left, tx.sender, account, n, l, height);
      RemovalKeepsOtherSlots(net, p, txs, Slot(tx.sender, n));
    }
    forall n | account.nonce <= n <= tx.nonce
      ensures SurvivesAt(net, p, tx.sender, account, n, l, height)
    {
      var k := Slot(tx.sender, n);
      assert SurvivesAt(net, left, tx.sender, account, n, l, height);
      RemovalIsExact(net, p, txs, p.slots[k]);
      RunCostDependsOnSlots(left, p, tx.sender, account.nonce, n + 1);
    }
  }

  lemma SurvivesInTheRest(net: Network, p: Pool, txs: seq<Transaction>, tx: Transaction, l: Ledger, height: int)
    requires Consistent(net, p) && Survives(net, p, tx, l, height) && AllConfirmed(net, txs, l)
    ensures Survives(net, WithoutAll(net, p, txs), tx, l, height)
  {
    hide WithoutAll, CostAt, RunCost;
    var left, account := WithoutAll(net, p, txs), AccountAt(l, tx.sender);
    forall n {:trigger Slot(tx.sender, n)} | account.nonce <= n <= tx.nonce
      ensures Slot(tx.sender, n) in p.slots && Slot(tx.sender, n) in left.slots
      ensures left.slots[Slot(tx.sender, n)] == p.slots[Slot(tx.sender, n)]
      ensures CostAt(left, Slot(tx.sender, n)) == CostAt(p, Slot(tx.sender, n))
    {
      assert SurvivesAt(net, p, tx.sender, account, n, l, height);
      RemovalKeepsOtherSlots(net, p, txs, Slot(tx.sender, n));
    }
    forall n | account.nonce <= n <= tx.nonce
      ensures SurvivesAt(net, left, tx.sender, account, n, l, height)
    {
      var k := Slot(tx.sender, n);
      assert SurvivesAt(net, p, tx.sender, account, n, l, height);
      RemovalIsExact(net, p, txs, p.slots[k]);
      RunCostDependsOnSlots(left, p, tx.sender, account.nonce, n + 1);
    }
  }

  /** The whole reconciliation, for any tree and update: of the pending transactions that are not
      themselves disconnected, exactly the survivors of the revalidation remain. */
  lemma KeptByReconciliationIff(net: Network, p: Pool, t: Tree, u: Update, id: Hash)
    requires UpdateIsKnown(t, u) && id in p.txs
    requires NotAmong(net, TransactionsAt(t, Reversed(u.disconnected)), id)
    ensures var left := WithoutAll(net, p, TransactionsAt(t, u.connected));
            id in Reconciled(net, p, t, u).txs <==>
              id in left.txs && Survives(net, left, left.txs[id], t.Tip().ledger, t.Tip().record.height + 1)
  {
    hide OfferAll, WithoutAll, Survives, TransactionsAt, Reversed;
    var l, height := t.Tip().ledger, t.Tip().record.height + 1;
    var left := WithoutAll(net, p, TransactionsAt(t, u.connected));
    OfferAllKeepsAndAdds(net, Revalidated(net, left, l, height), TransactionsAt(t, Reversed(u.disconnected)),
                         l, height, id);
  }

  // What the two branches of a reorganization confirm

  lemma {:induction false} InTransactionsOf(blocks: seq<Block>, i: nat, tx: Transaction)
    requires i < |blocks| && tx in blocks[i].transactions
    ensures tx in TransactionsOf(blocks)
  {
    if i < |blocks| - 1 {
      InTransactionsOf(blocks[..|blocks| - 1], i, tx);
    }
  }

  ghost predicate OnPath(net: Network, t: Tree, h: Hash, hashes: seq<Hash>)
    requires Linked(net, t) && h in t.entries
  {
    forall i :: 0 <= i < |hashes| ==> hashes[i] in Path(net, t, h)
  }

  /** The transactions of blocks on a branch are confirmed at its end. */
  lemma {:induction false} PathIsConfirmed(net: Network, t: Tree, h: Hash, hashes: seq<Hash>)
    requires ValidTree(net, t) && h in t.entries && OnPath(net, t, h, hashes)
    requires forall i :: 0 <= i < |hashes| ==> hashes[i] in t.entries
    ensures AllConfirmed(net, TransactionsAt(t, hashes), t.entries[h].ledger)
  {
    hide RunBranch, BlocksOf, Path, EntryLinked;
    if hashes != [] {
      var last := hashes[|hashes| - 1];
      PathIsConfirmed(net, t, h, hashes[..|hashes| - 1]);
      forall tx | tx in t.entries[last].block.transactions
        ensures net.txid(tx) in t.entries[h].ledger.confirmed
      {
        ConfirmedOnPath(net, t, h, last, tx);
      }
    }
  }

  lemma ConfirmedOnPath(net: Network, t: Tree, h: Hash, at: Hash, tx: Transaction)
    requires ValidTree(net, t) && h in t.entries && at in t.entries && at in Path(net, t, h)
    requires tx in t.entries[at].block.transactions
    ensures net.txid(tx) in t.entries[h].ledger.confirmed
  {
    hide RunBranch, BlocksOf, Path, EntryLinked, TransactionsOf;
    var i :| 0 <= i < |Path(net, t, h)| && Path(net, t, h)[i] == at;
    PathPrefix(net, t, h, i);
    assert EntryHoldsItsBranch(net, t, h);
    BranchCounts(net, BlocksOf(net, t, h));
    InTransactionsOf(BlocksOf(net, t, h), i, tx);
  }

  /** The update of a block that moved the tip lists blocks of the two branches. */
  lemma SwitchFollowsPaths(net: Network, t: Tree, b: Block)
    requires ValidTree(net, t) && Insert(net, t, b).Ok? && Insert(net, t, b).value.update.becameActive
    ensures var g := Insert(net, t, b).value;
            && ValidTree(net, g.tree) && UpdateIsKnown(g.tree, g.update) && Extends(t, g.tree)
            && OnPath(net, g.tree, g.tree.tip, g.update.connected)
            && OnPath(net, g.tree, t.tip, Reversed(g.update.disconnected))
  {
    hide NewEntry, SwitchBetween, Path, BlocksOf, EntryLinked, EntryHoldsItsBranch, CommonLength, Reversed;
    var g := Insert(net, t, b).value;
    UpdatesAreKnown(net, t, b);
    NewEntryIsLinked(net, t, b);
    var n := CommonPathLength(net, g.tree, t.tip, g.tree.tip);
    var s := SwitchBetween(net, g.tree, t.tip, g.tree.tip);
    forall i | 0 <= i < |s.connected|
      ensures s.connected[i] in Path(net, g.tree, g.tree.tip)
    {
      assert Path(net, g.tree, g.tree.tip)[n + i] == s.connected[i];
    }
    forall i | 0 <= i < |s.disconnected|
      ensures Reversed(s.disconnected)[i] in Path(net, g.tree, t.tip)
    {
      assert Path(net, g.tree, t.tip)[n + i] == Reversed(s.disconnected)[i];
    }
  }

  /** A pending transaction is not confirmed on the branch being left, so it is not offered again. */
  lemma PendingIsNotDisconnected(net: Network, s: NodeState, b: Block, id: Hash)
    requires StateFits(net, s) && id in s.pool.txs
    requires Insert(net, s.tree, b).Ok? && Insert(net, s.tree, b).value.update.becameActive
    ensures var g := Insert(net, s.tree, b).value;
            && UpdateIsKnown(g.tree, g.update)
            && NotAmong(net, TransactionsAt(g.tree, Reversed(g.update.disconnected)), id)
            && AllConfirmed(net, TransactionsAt(g.tree, g.update.connected), g.tree.Tip().ledger)
  {
    hide Insert, Path, BlocksOf, Linked, EntryHoldsItsBranch, TransactionsAt, Reversed;
    TipIsKnown(net, s.tree);
    var g := Insert(net, s.tree, b).value;
    SwitchFollowsPaths(net, s.tree, b);
    TipIsKnown(net, g.tree);
    PathIsConfirmed(net, g.tree, g.tree.tip, g.update.connected);
    PathIsConfirmed(net, g.tree, s.tree.tip, Reversed(g.update.disconnected));
    assert Backed(net, s.pool, s.pool.txs[id], s.tree.Tip().ledger, s.tree.Tip().record.height + 1);
  }

  /** When an accepted block moves the tip, a pending transaction stays pending if and only if the new
      tip's ledger can execute its sender's pending run up to it: every nonce from the account's on is
      pending, valid and unconfirmed, and the balance pays for all of them. What the block disconnects
      and offers again afterwards does not count. */
  lemma PendingIsKeptIff(net: Network, s: NodeState, b: Block, id: Hash)
    requires StateFits(net, s) && id in s.pool.txs
    requires Insert(net, s.tree, b).Ok? && Insert(net, s.tree, b).value.update.becameActive
    ensures var tip := Insert(net, s.tree, b).value.tree.Tip();
            id in Operate(net, s, OfferBlock(b)).pool.txs <==>
              Survives(net, s.pool, s.pool.txs[id], tip.ledger, tip.record.height + 1)
  {
    hide Insert, Survives, Reconciled, ValidTree, Consistent, WithoutAll, TransactionsAt, Backed;
    TipIsKnown(net, s.tree);
    UpdatesAreKnown(net, s.tree, b);
    var g := Insert(net, s.tree, b).value;
    var l, height := g.tree.Tip().ledger, g.tree.Tip().record.height + 1;
    PendingIsNotDisconnected(net, s, b, id);
    KeptByReconciliationIff(net, s.pool, g.tree, g.update, id);
    RemovalDoesNotDecide(net, s.pool, TransactionsAt(g.tree, g.update.connected), id, l, height);
  }

  /** So if the new tip has fewer transactions of a sender than the old one, the sender loses every
      pending transaction: all of them were successors of what the block disconnected. */
  lemma SuccessorsAreDropped(net: Network, s: NodeState, b: Block, id: Hash)
    requires StateFits(net, s) && id in s.pool.txs
    requires Insert(net, s.tree, b).Ok? && Insert(net, s.tree, b).value.update.becameActive
    requires var sender := s.pool.txs[id].sender;
             AccountAt(Insert(net, s.tree, b).value.tree.Tip().ledger, sender).nonce
             < AccountAt(s.tree.Tip().ledger, sender).nonce
    ensures id !in Operate(net, s, OfferBlock(b)).pool.txs
  {
    hide Insert, ValidTree, Operate, RunCost;
    TipIsKnown(net, s.tree);
    UpdatesAreKnown(net, s.tree, b);
    var g, tx := Insert(net, s.tree, b).value, s.pool.txs[id];
    var l, height := g.tree.Tip().ledger, g.tree.Tip().record.height + 1;
    var missing := AccountAt(l, tx.sender).nonce;
    PendingIsKeptIff(net, s, b, id);
    assert Backed(net, s.pool, tx, s.tree.Tip().ledger, s.tree.Tip().record.height + 1);
    NothingBelowTheAccount(net, s.pool, s.tree.Tip().ledger, s.tree.Tip().record.height + 1, tx.sender, missing);
    assert !SurvivesAt(net, s.pool, tx.sender, AccountAt(l, tx.sender), missing, l, height);
  }

  lemma NothingBelowTheAccount(net: Network, p: Pool, l: Ledger, height: int, sender: Text, nonce: int)
    requires PoolAgrees(net, p, l, height) && nonce < AccountAt(l, sender).nonce
    ensures Slot(sender, nonce) !in p.slots
  {
    assert Slot(sender, nonce) in p.slots ==> Backed(net, p, p.txs[p.slots[Slot(sender, nonce)]], l, height);
  }
}
