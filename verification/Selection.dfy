/** Choosing pending transactions for a block: what a greedy selection achieves. */
module Selection {
  import opened Types
  import opened State
  import opened Sorting
  import opened PendingPool

  /** Higher fee first, smaller identifier first among equal fees. */
  predicate Outranks(net: Network, a: Transaction, b: Transaction) {
    a.fee > b.fee || (a.fee == b.fee && LexLess(net.txid(a), net.txid(b)))
  }

  lemma OutranksIsStrict(net: Network)
    ensures StrictOrder((a: Transaction, b: Transaction) => Outranks(net, a, b))
  {
    forall a: Transaction, b: Transaction | Outranks(net, a, b) ensures !Outranks(net, b, a) {
      LexIsStrict(net.txid(a), net.txid(b));
    }
    forall a: Transaction, b: Transaction, c: Transaction | Outranks(net, a, b) && Outranks(net, b, c)
      ensures Outranks(net, a, c)
    {
      if a.fee == b.fee == c.fee {
        LexIsTransitive(net.txid(a), net.txid(b), net.txid(c));
      }
    }
  }

  predicate IsPending(net: Network, p: Pool, tx: Transaction) {
    net.txid(tx) in p.txs && p.txs[net.txid(tx)] == tx
  }

  /** A head that executes now, and that no other executable head outranks. */
  ghost predicate BestHead(net: Network, p: Pool, l: Ledger, height: int, tx: Transaction) {
    && IsPending(net, p, tx) && IsHead(l, tx) && Executable(net, l, tx, height)
    && forall other {:trigger IsPending(net, p, other)} ::
         IsPending(net, p, other) && IsHead(l, other) && Executable(net, l, other, height)
         ==> !Outranks(net, other, tx)
  }

  ghost predicate GreedyAt(net: Network, p: Pool, l: Ledger, height: int, selected: seq<Transaction>, k: nat)
    requires k < |selected|
  {
    match ApplyAll(net, l, selected[..k], height)
    case Err(_) => false
    case Ok(before) => BestHead(net, p, before.ledger, height, selected[k])
  }

  /** Every pick was the best head at its turn. */
  ghost predicate Greedy(net: Network, p: Pool, l: Ledger, height: int, selected: seq<Transaction>) {
    forall k {:trigger GreedyAt(net, p, l, height, selected, k)} ::
      0 <= k < |selected| ==> GreedyAt(net, p, l, height, selected, k)
  }

  /** The identifier with the smaller byte at the first difference. */
  predicate SmallerId(a: Hash, b: Hash) {
    exists i :: 0 <= i < 32 && a[..i] == b[..i] && a[i] < b[i]
  }

  /** No other head that executed at that turn offered a higher fee, nor the same fee under a smaller
      identifier. */
  ghost predicate HighestFeeAt(net: Network, p: Pool, l: Ledger, height: int, selected: seq<Transaction>, k: nat)
    requires k < |selected|
  {
    match ApplyAll(net, l, selected[..k], height)
    case Err(_) => false
    case Ok(before) =>
      forall other {:trigger IsPending(net, p, other)} ::
        IsPending(net, p, other) && IsHead(before.ledger, other) && Executable(net, before.ledger, other, height)
        && other != selected[k] ==>
          other.fee < selected[k].fee
          || (other.fee == selected[k].fee && SmallerId(net.txid(selected[k]), net.txid(other)))
  }

  /** Not to be outranked is to offer the highest fee. */
  lemma NotOutranked(net: Network, p: Pool, a: Transaction, b: Transaction)
    requires IsPending(net, p, a) && IsPending(net, p, b) && a != b && !Outranks(net, b, a)
    ensures b.fee < a.fee || (b.fee == a.fee && SmallerId(net.txid(a), net.txid(b)))
  {
    LexIsTotal(net.txid(a), net.txid(b));
    LexLessIff(net.txid(a), net.txid(b));
    if b.fee == a.fee {
      var x, y := net.txid(a), net.txid(b);
      var i :| 0 <= i <= |x| && i < |y| && x[..i] == y[..i] && (i < |x| ==> x[i] < y[i]);
    }
  }

  lemma GreedyPicksHighestFee(net: Network, p: Pool, l: Ledger, height: int, selected: seq<Transaction>, k: nat)
    requires Greedy(net, p, l, height, selected) && k < |selected|
    ensures HighestFeeAt(net, p, l, height, selected, k)
  {
    hide ApplyAll, IsPending, Executable, IsHead, Outranks, SmallerId;
    assert GreedyAt(net, p, l, height, selected, k);
    var before := ApplyAll(net, l, selected[..k], height).value.ledger;
    forall other | IsPending(net, p, other) && IsHead(before, other) && Executable(net, before, other, height)
                   && other != selected[k]
      ensures other.fee < selected[k].fee
              || (other.fee == selected[k].fee && SmallerId(net.txid(selected[k]), net.txid(other)))
    {
      NotOutranked(net, p, selected[k], other);
    }
  }

  /** A selection on its way: it executes as one batch, each pick was the best head, and what is
      left of the pool still agrees with the ledger it has reached. */
  ghost predicate Progress(net: Network, p: Pool, l: Ledger, height: int, selected: seq<Transaction>,
                           reached: Ledger)
  {
    && Consistent(net, p)
    && ApplyAll(net, l, selected, height).Ok? && ApplyAll(net, l, selected, height).value.ledger == reached
    && PoolAgrees(net, Rest(p, reached), reached, height)
    && Total(l.accounts) <= U64_MAX
    && |selected| + |Rest(p, reached).txs| == |p.txs|
    && (forall tx :: tx in selected ==> IsPending(net, p, tx))
    && Greedy(net, p, l, height, selected)
  }

  lemma ProgressStarts(net: Network, p: Pool, l: Ledger, height: int)
    requires PoolAgrees(net, p, l, height) && Total(l.accounts) <= U64_MAX
    ensures Progress(net, p, l, height, [], l)
  {
    RestOfAgreeingPool(net, p, l, height);
  }

  /** One apply of a single transaction is one step of a batch. */
  lemma SingleBatch(net: Network, l: Ledger, tx: Transaction, height: int)
    ensures match ApplyOne(net, l, tx, height)
            case Ok(l') => Batch(net, l, [tx], height) == Ok(Applied(l', tx.fee))
            case Err(fault) => Batch(net, l, [tx], height) == Err(fault)
  {
    assert [tx][..|[tx]| - 1] == [];
    assert ApplyAll(net, l, [tx], height) == ApplyNext(net, Ok(Applied(l, 0)), tx, height);
  }

  /** Picking the best head keeps the selection going. */
  lemma ProgressGoesOn(net: Network, p: Pool, l: Ledger, height: int, selected: seq<Transaction>,
                       reached: Ledger, tx: Transaction)
    requires Progress(net, p, l, height, selected, reached) && BestHead(net, p, reached, height, tx)
    ensures ApplyOne(net, reached, tx, height).Ok?
    ensures Progress(net, p, l, height, selected + [tx], ApplyOne(net, reached, tx, height).value)
  {
    hide Consistent, PoolAgrees, Rest, Greedy, BestHead, ApplyOne, Executable, IsHead;
    var id := net.txid(tx);
    BatchConserves(net, l, selected, height);
    BestHeadExecutes(net, p, reached, height, tx);
    BatchGrows(net, l, selected, tx, height);
    RestAfterHead(net, p, id, reached, height);
    HeadIsInRest(net, p, reached, tx);
    HeadLeavesAgreement(net, Rest(p, reached), id, reached, height);
    RestIsConsistent(net, p, reached, height);
    WithoutIsConsistent(net, Rest(p, reached), id);
    GreedyGoesOn(net, p, l, height, selected, tx);
  }

  lemma RestIsConsistent(net: Network, p: Pool, l: Ledger, height: int)
    requires PoolAgrees(net, Rest(p, l), l, height)
    ensures Consistent(net, Rest(p, l))
  {
  }

  lemma BestHeadExecutes(net: Network, p: Pool, l: Ledger, height: int, tx: Transaction)
    requires BestHead(net, p, l, height, tx) && Total(l.accounts) <= U64_MAX
    ensures IsPending(net, p, tx) && IsHead(l, tx) && ApplyOne(net, l, tx, height).Ok?
    ensures tx.fee <= Total(l.accounts)
  {
    TransferConserves(net, l, tx, height);
  }

  lemma HeadIsInRest(net: Network, p: Pool, l: Ledger, tx: Transaction)
    requires IsPending(net, p, tx) && IsHead(l, tx)
    ensures net.txid(tx) in Rest(p, l).txs && Rest(p, l).txs[net.txid(tx)] == tx
  {
  }

  /** The fees of a batch never exceed what the accounts held, so one more executable transaction
      always fits. */
  lemma BatchGrows(net: Network, l: Ledger, selected: seq<Transaction>, tx: Transaction, height: int)
    requires ApplyAll(net, l, selected, height).Ok? && Total(l.accounts) <= U64_MAX
    requires var before := ApplyAll(net, l, selected, height).value;
             ApplyOne(net, before.ledger, tx, height).Ok? && tx.fee <= Total(before.ledger.accounts)
    ensures ApplyAll(net, l, selected + [tx], height).Ok?
    ensures ApplyAll(net, l, selected + [tx], height).value.ledger
         == ApplyOne(net, ApplyAll(net, l, selected, height).value.ledger, tx, height).value
  {
    hide ApplyOne;
    BatchConserves(net, l, selected, height);
    assert (selected + [tx])[..|selected|] == selected;
  }

  lemma GreedyGoesOn(net: Network, p: Pool, l: Ledger, height: int, selected: seq<Transaction>, tx: Transaction)
    requires Greedy(net, p, l, height, selected) && ApplyAll(net, l, selected, height).Ok?
    requires BestHead(net, p, ApplyAll(net, l, selected, height).value.ledger, height, tx)
    ensures Greedy(net, p, l, height, selected + [tx])
  {
    hide BestHead;
    var all := selected + [tx];
    forall k | 0 <= k < |all| ensures GreedyAt(net, p, l, height, all, k) {
      assert all[..k] == selected[..k];
      if k < |selected| {
        assert GreedyAt(net, p, l, height, selected, k);
      } else {
        assert selected[..k] == selected;
      }
    }
  }

  // ---------------------------------------------------------------------------------------------
  // Completeness
  // ---------------------------------------------------------------------------------------------

  /** Nothing left can be mined: every remaining head is stuck at the last nonce. */
  ghost predicate Exhausted(net: Network, p: Pool, reached: Ledger, height: int) {
    forall tx {:trigger IsPending(net, p, tx)} ::
      IsPending(net, p, tx) && IsHead(reached, tx) ==> !Executable(net, reached, tx, height)
  }

  /** A selection never holds more than the minable transactions, and once no head executes it
      holds all of them. */
  lemma SelectionIsComplete(net: Network, p: Pool, l: Ledger, height: int, selected: seq<Transaction>,
                            reached: Ledger)
    requires Progress(net, p, l, height, selected, reached)
    ensures |selected| <= |Minable(p)|
    ensures Exhausted(net, p, reached, height) ==> |selected| == |Minable(p)|
  {
    hide ApplyAll, Greedy, PoolAgrees;
    var rest := Rest(p, reached).txs.Keys;
    assert rest <= p.txs.Keys;
    assert |p.txs.Keys - rest| == |p.txs.Keys| - |rest|;
    assert p.txs.Keys - rest <= Minable(p);
    SubsetSize(p.txs.Keys - rest, Minable(p));
    if Exhausted(net, p, reached, height) {
      forall id | id in Minable(p) ensures id !in rest {
        if id in rest {
          StuckHead(net, p, reached, height, id);
        }
      }
      SubsetSize(Minable(p), p.txs.Keys - rest);
    }
  }

  /** What is selected can be mined; if as many are selected as can be mined, nothing else is left. */
  lemma SelectedAreMinable(net: Network, p: Pool, l: Ledger, height: int, selected: seq<Transaction>, reached: Ledger)
    requires Progress(net, p, l, height, selected, reached)
    ensures forall tx :: tx in selected ==> net.txid(tx) in Minable(p)
    ensures |selected| == |Minable(p)| ==> forall id :: id in Minable(p) ==> p.txs[id] in selected
  {
    hide PoolAgrees, Greedy, ApplyAll, Executable;
    forall i | 0 <= i < |selected|
      ensures net.txid(selected[i]) in Minable(p)
    {
      RunsOnPrefix(net, l, selected, i, height);
      assert selected[i] in selected;
      assert IsPending(net, p, selected[i]);
    }
    BatchIsFresh(net, l, selected, height);
    TxidCount(net, selected);
    assert Txids(net, selected) <= Minable(p);
    if |selected| == |Minable(p)| {
      SameSize(Txids(net, selected), Minable(p));
    }
  }

  lemma {:induction false} TxidCount(net: Network, txs: seq<Transaction>)
    requires DistinctTxids(net, txs)
    ensures |Txids(net, txs)| == |txs|
  {
    if txs != [] {
      var front, last := txs[..|txs| - 1], txs[|txs| - 1];
      TxidCount(net, front);
      assert Txids(net, txs) == Txids(net, front) + {net.txid(last)};
    }
  }

  lemma SameSize(a: set<Hash>, b: set<Hash>)
    requires a <= b && |a| == |b|
    ensures a == b
  {
    assert |b - a| == 0;
  }

  lemma StuckHead(net: Network, p: Pool, l: Ledger, height: int, id: Hash)
    requires Consistent(net, p) && PoolAgrees(net, Rest(p, l), l, height)
    requires id in Rest(p, l).txs && Exhausted(net, p, l, height)
    ensures id !in Minable(p)
  {
    if id in Minable(Rest(p, l)) {
      SomeHeadIsExecutable(net, Rest(p, l), l, height, id);
      var r := Rest(p, l);
      var head := r.txs[r.slots[Slot(r.txs[id].sender, AccountAt(l, r.txs[id].sender).nonce)]];
      assert IsPending(net, p, head);
    }
  }
}
