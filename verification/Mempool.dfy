/** The mutable pending pool. */
module Mempool {
  import opened Types
  import opened Transactions
  import opened State
  import opened Sorting
  import opened PendingPool
  import opened Selection

  /** Pending transactions in listing order: by sender, then nonce, then identifier. */
  predicate ListedBefore(net: Network, a: Transaction, b: Transaction) {
    || LexLess(a.sender, b.sender)
    || (a.sender == b.sender
        && (a.nonce < b.nonce || (a.nonce == b.nonce && LexLess(net.txid(a), net.txid(b)))))
  }

  lemma ListedBeforeIsStrict(net: Network)
    ensures StrictOrder((a: Transaction, b: Transaction) => ListedBefore(net, a, b))
  {
    forall a: Transaction, b: Transaction | ListedBefore(net, a, b) ensures !ListedBefore(net, b, a) {
      LexIsStrict(a.sender, b.sender);
      LexIsStrict(net.txid(a), net.txid(b));
    }
    forall a: Transaction, b: Transaction, c: Transaction | ListedBefore(net, a, b) && ListedBefore(net, b, c)
      ensures ListedBefore(net, a, c)
    {
      if LexLess(a.sender, b.sender) && LexLess(b.sender, c.sender) {
        LexIsTransitive(a.sender, b.sender, c.sender);
      } else if a.sender == b.sender == c.sender && a.nonce == b.nonce == c.nonce {
        LexIsTransitive(net.txid(a), net.txid(b), net.txid(c));
      }
    }
  }

  /** A list of exactly the transactions behind a set of identifiers. */
  ghost predicate Lists(net: Network, p: Pool, list: seq<Transaction>, ids: set<Hash>)
  {
    && ids <= p.txs.Keys
    && |list| == |ids| && Distinct(list)
    && (forall tx :: tx in list ==> net.txid(tx) in ids && p.txs[net.txid(tx)] == tx)
    && (forall id :: id in ids ==> p.txs[id] in list)
  }

  lemma ListsOneMore(net: Network, p: Pool, list: seq<Transaction>, ids: set<Hash>, id: Hash)
    requires Consistent(net, p) && Lists(net, p, list, ids) && id in p.txs && id !in ids
    ensures Lists(net, p, list + [p.txs[id]], ids + {id})
    ensures SumCost(list + [p.txs[id]]) == SumCost(list) + Cost(p.txs[id])
    ensures Reserved(p, ids + {id}) == Reserved(p, ids) + Cost(p.txs[id])
  {
    hide Consistent, Reserved, SumCost;
    CostAtOwnSlot(net, p, id);
    var more := list + [p.txs[id]];
    forall other | other in ids + {id} ensures p.txs[other] in more {
      assert other != id ==> p.txs[other] in list;
      assert more[|list|] == p.txs[id];
    }
    CostsOneMore(p, list, ids, id);
  }

  lemma CostsOneMore(p: Pool, list: seq<Transaction>, ids: set<Hash>, id: Hash)
    requires ids <= p.txs.Keys && id in p.txs && id !in ids
    ensures SumCost(list + [p.txs[id]]) == SumCost(list) + Cost(p.txs[id])
    ensures Reserved(p, ids + {id}) == Reserved(p, ids) + Cost(p.txs[id])
  {
    ReservedSplits(p, ids + {id}, id);
    assert ids + {id} - {id} == ids;
    assert (list + [p.txs[id]])[..|list|] == list;
  }

  lemma AddedIsValid(net: Network, p: Pool, tx: Transaction)
    requires Consistent(net, p) && net.txid(tx) !in p.txs && SlotOf(tx) !in p.slots
    requires forall id :: id in p.txs ==> net.validAddress(p.txs[id].sender)
    requires net.validAddress(tx.sender)
    ensures var q := With(net, p, tx);
            && Consistent(net, q) && |q.txs| == |p.txs| + 1
            && forall id :: id in q.txs ==> net.validAddress(q.txs[id].sender)
  {
    WithIsConsistent(net, p, tx);
    OneMorePending(net, p, tx);
  }

  lemma OneMorePending(net: Network, p: Pool, tx: Transaction)
    requires net.txid(tx) !in p.txs
    ensures |With(net, p, tx).txs| == |p.txs| + 1
  {
    assert With(net, p, tx).txs.Keys == p.txs.Keys + {net.txid(tx)};
  }

  lemma NothingListed(net: Network, p: Pool)
    ensures Lists(net, p, [], {}) && SumCost([]) == 0 == Reserved(p, {})
  {
  }

  lemma ValidSender(net: Network, tx: Transaction, height: int)
    requires ValidAt(net, tx, height)
    ensures net.validAddress(tx.sender)
  {
  }

  function SumCost(list: seq<Transaction>): int {
    if list == [] then 0 else SumCost(list[..|list| - 1]) + Cost(list[|list| - 1])
  }

  class Mempool {
    const net: Network
    var txs: map<Hash, Transaction>
    var slots: map<Slot, Hash>

    function Value(): Pool
      reads this
    {
      Pool(txs, slots)
    }

    ghost predicate Valid()
      reads this
    {
      && Consistent(net, Value()) && |txs| <= MAX_MEMPOOL_TRANSACTIONS
      && forall id :: id in txs ==> net.validAddress(txs[id].sender)
    }

    constructor (net: Network)
      ensures Valid() && this.net == net && Value() == EMPTY_POOL
    {
      this.net := net;
      txs, slots := map[], map[];
    }

    /** A sender's pending transactions. */
    method SenderTransactions(sender: Text) returns (pending: seq<Transaction>)
      requires Valid()
      ensures Lists(net, Value(), pending, SenderIds(Value(), sender))
      ensures SumCost(pending) == Reserved(Value(), SenderIds(Value(), sender))
    {
      hide Consistent, Lists, Reserved, SumCost;
      NothingListed(net, Value());
      pending := [];
      var ids := txs.Keys;
      ghost var done: set<Hash> := {};
      while ids != {}
        invariant ids <= txs.Keys && done <= SenderIds(Value(), sender)
        invariant forall id :: id in SenderIds(Value(), sender) ==> id in done || id in ids
        invariant ids !! done
        invariant Lists(net, Value(), pending, done) && SumCost(pending) == Reserved(Value(), done)
        decreases ids
      {
        var id :| id in ids;
        ids := ids - {id};
        if txs[id].sender == sender {
          ListsOneMore(net, Value(), pending, done, id);
          done := done + {id};
          pending := pending + [txs[id]];
        }
      }
      assert done == SenderIds(Value(), sender);
    }

    /** A sender's pending transactions, nonces ascending. */
    method InNonceOrder(sender: Text) returns (pending: seq<Transaction>)
      requires Valid()
      ensures Lists(net, Value(), pending, SenderIds(Value(), sender))
      ensures Sorted(pending, (a: Transaction, b: Transaction) => a.nonce < b.nonce)
      ensures |pending| == |SenderIds(Value(), sender)|
    {
      hide Consistent, Sorted;
      var unsorted := SenderTransactions(sender);
      NonceOrderIsStrict();
      pending := InsertionSort(unsorted, (a: Transaction, b: Transaction) => a.nonce < b.nonce);
      Relisted(net, Value(), unsorted, pending, SenderIds(Value(), sender));
    }

    /** The nonce a sender's next transaction needs. When the pool agrees with the ledger this is
        the first one after the whole pending run. */
    method NextNonce(sender: Text, state: AccountState, ghost height: int) returns (r: Result<int>)
      requires Valid() && state.net == net
      ensures !net.validAddress(sender) ==> r == Err(InvalidAddress)
      ensures net.validAddress(sender) && PoolAgrees(net, Value(), state.Snapshot(), height) ==>
                var account := AccountAt(state.Snapshot(), sender);
                var next := account.nonce + |SenderIds(Value(), sender)|;
                r == if account.nonce == U64_MAX || next > U64_MAX then Err(NonceExhausted) else Ok(next)
      ensures net.validAddress(sender) ==> NextNonceIs(Value(), sender, AccountAt(state.Snapshot(), sender).nonce, r)
    {
      hide Consistent, Backed, PoolAgrees, Lists, Sorted, Filled, NextNonceIs, StrictOrder;
      var account := state.GetAccount(sender);
      if account.Err? { return Err(account.fault); }
      if account.value.nonce == U64_MAX {
        ExhaustedAccount(Value(), sender);
        return Err(NonceExhausted);
      }
      var pending := InNonceOrder(sender);
      ghost var agrees := PoolAgrees(net, Value(), state.Snapshot(), height);
      if agrees {
        RunIsSorted(net, Value(), state.Snapshot(), height, sender, pending);
      }
      var expected: int := account.value.nonce;
      var i := 0;
      while i < |pending| && pending[i].nonce == expected
        invariant 0 <= i <= |pending| && expected == account.value.nonce + i <= U64_MAX
        invariant forall k :: 0 <= k < i ==> pending[k].nonce == account.value.nonce + k
      {
        if expected == U64_MAX {
          NextNonceFound(net, Value(), sender, account.value.nonce, pending, i + 1);
          return Err(NonceExhausted);
        }
        expected := expected + 1;
        i := i + 1;
      }
      NextNonceFound(net, Value(), sender, account.value.nonce, pending, i);
      r := Ok(expected);
    }

    /** Admits a transaction if every rule allows it; a refusal changes nothing. */
    method Add(tx: Transaction, state: AccountState, height: int) returns (r: Result<Hash>)
      requires Valid() && state.net == net
      modifies this
      ensures Valid()
      ensures match Admission(net, old(Value()), tx, state.Snapshot(), height)
              case Pass => r == Ok(net.txid(tx)) && Value() == With(net, old(Value()), tx)
              case Fail(fault) => r == Err(fault) && Value() == old(Value())
    {
      hide ValidAt, Consistent, FirstBrokenRule, Reserved, SumCost;
      if |txs| >= MAX_MEMPOOL_TRANSACTIONS { return Err(PoolFull); }
      if !ValidAt(net, tx, height) { return Err(FirstBrokenRule(net, tx, height)); }
      ValidSender(net, tx, height);
      var id := net.txid(tx);
      if id in txs { return Err(AlreadyPending); }
      if id in state.confirmed { return Err(AlreadyConfirmed); }
      if SlotOf(tx) in slots { return Err(NonceConflict); }
      var pending := SenderTransactions(tx.sender);
      if |pending| >= MAX_PENDING_PER_SENDER { return Err(SenderFull); }
      var account := state.GetAccount(tx.sender);
      if account.value.nonce == U64_MAX { return Err(NonceExhausted); }
      var expected := account.value.nonce + |pending|;
      if expected > U64_MAX { return Err(NonceExhausted); }
      if tx.nonce != expected { return Err(PendingGap); }
      if SumCost(pending) + tx.amount + tx.fee > account.value.balance { return Err(OverReserved); }
      AddedIsValid(net, Value(), tx);
      txs := txs[id := tx];
      slots := slots[SlotOf(tx) := id];
      r := Ok(id);
    }

    method Remove(id: Hash) returns (r: Option<Transaction>)
      requires Valid()
      modifies this
      ensures Valid() && Value() == Without(old(Value()), id)
      ensures r == if id in old(txs) then Some(old(txs)[id]) else None
    {
      r := None;
      if id in txs {
        WithoutIsConsistent(net, Value(), id);
        r := Some(txs[id]);
        slots := slots - {SlotOf(txs[id])};
        txs := txs - {id};
      }
    }

    method RemoveConfirmed(confirmed: seq<Transaction>)
      requires Valid()
      modifies this
      ensures Valid() && Value() == WithoutAll(net, old(Value()), confirmed)
    {
      for i := 0 to |confirmed|
        invariant Valid() && Value() == WithoutAll(net, old(Value()), confirmed[..i])
      {
        assert confirmed[..i + 1][..i] == confirmed[..i];
        var _ := Remove(net.txid(confirmed[i]));
      }
      assert confirmed[..|confirmed|] == confirmed;
    }

    method Clear()
      modifies this
      ensures Valid() && Value() == EMPTY_POOL
    {
      txs, slots := map[], map[];
    }

    /** The pool in listing order. */
    method Transactions() returns (order: seq<Transaction>)
      requires Valid()
      ensures ListsPool(net, Value(), order)
      ensures forall i, j :: 0 <= i < j < |order| ==> ListedBefore(net, order[i], order[j])
    {
      hide Consistent, Lists, ListsPool, ListedBefore, Reserved, SumCost;
      NothingListed(net, Value());
      var items: seq<Transaction> := [];
      var ids := txs.Keys;
      assert txs.Keys - ids == {};
      while ids != {}
        invariant ids <= txs.Keys && Lists(net, Value(), items, txs.Keys - ids)
        decreases ids
      {
        var id :| id in ids;
        ListsOneMore(net, Value(), items, txs.Keys - ids, id);
        assert txs.Keys - (ids - {id}) == txs.Keys - ids + {id};
        ids := ids - {id};
        items := items + [txs[id]];
      }
      assert txs.Keys - ids == txs.Keys;
      ListedBeforeIsStrict(net);
      order := InsertionSort(items, (a: Transaction, b: Transaction) => ListedBefore(net, a, b));
      Relisted(net, Value(), items, order, txs.Keys);
      SortedListing(net, Value(), order);
    }

    /** Empties the pool and offers everything again, in listing order, against a new ledger. */
    method Revalidate(state: AccountState, height: int) returns (removed: seq<Transaction>)
      requires Valid() && state.net == net
      modifies this
      ensures Valid() && Value() == Revalidated(net, old(Value()), state.Snapshot(), height)
      ensures PoolAgrees(net, Value(), state.Snapshot(), height)
      ensures forall tx :: tx in removed <==>
                IsPending(net, old(Value()), tx) && !IsPending(net, Value(), tx)
    {
      hide Survives, Consistent, Admission, ListsPool, Revalidated, PoolAgrees, IsPending;
      ghost var p, l := Value(), state.Snapshot();
      var previous := Transactions();
      Clear();
      removed := [];
      for i := 0 to |previous|
        invariant Valid() && Value() == OfferAll(net, EMPTY_POOL, previous[..i], l, height)
        invariant forall tx :: tx in removed <==>
                    tx in previous[..i] && !Survives(net, p, tx, l, height)
      {
        assert previous[..i + 1] == previous[..i] + [previous[i]];
        assert previous[..i + 1][..i] == previous[..i];
        AdmittedIffSurvives(net, p, previous, i, l, height);
        var added := Add(previous[i], state, height);
        if added.Err? {
          removed := removed + [previous[i]];
        }
      }
      assert previous[..|previous|] == previous;
      RevalidationIsExact(net, p, previous, l, height);
      RemovedIffDead(net, p, previous, removed, l, height);
    }

    /** The pool grouped by sender and nonce. */
    method Grouped() returns (groups: map<Text, map<int, Transaction>>)
      requires Valid()
      ensures Groups(net, Value(), groups, txs.Keys)
    {
      hide Consistent;
      groups := map[];
      var ids := txs.Keys;
      assert txs.Keys - ids == {};
      while ids != {}
        invariant ids <= txs.Keys && Groups(net, Value(), groups, txs.Keys - ids)
        decreases ids
      {
        var id :| id in ids;
        var tx := txs[id];
        GroupsOneMore(net, Value(), groups, txs.Keys - ids, id);
        assert txs.Keys - (ids - {id}) == txs.Keys - ids + {id};
        ids := ids - {id};
        groups := groups[tx.sender := (if tx.sender in groups then groups[tx.sender] else map[])[tx.nonce := tx]];
      }
      assert txs.Keys - ids == txs.Keys;
    }

    /** The heads of all senders that are not blocked. */
    method EligibleHeads(groups: map<Text, map<int, Transaction>>, working: AccountState, blocked: set<Text>)
      returns (eligible: seq<Transaction>)
      requires Valid() && Groups(net, Value(), groups, txs.Keys) && working.net == net
      ensures EligibleAre(net, Value(), working.Snapshot(), blocked, eligible)
    {
      hide Consistent;
      eligible := [];
      var senders := groups.Keys;
      while senders != {}
        invariant senders <= groups.Keys
        invariant forall tx :: tx in eligible <==>
                    && IsPending(net, Value(), tx) && IsHead(working.Snapshot(), tx)
                    && tx.sender !in blocked && tx.sender !in senders
        decreases senders
      {
        var sender :| sender in senders;
        senders := senders - {sender};
        SenderGroup(net, Value(), groups, sender);
        if sender !in blocked {
          var account := working.GetAccount(sender);
          if account.value.nonce in groups[sender] {
            eligible := eligible + [groups[sender][account.value.nonce]];
          }
        }
      }
    }

    /** Applies the first transaction of a list that executes and blocks the senders before it. */
    method ApplyFirst(eligible: seq<Transaction>, working: AccountState, height: int, blocked: set<Text>)
      returns (picked: Option<Transaction>, blocked': set<Text>, ghost tried: nat)
      requires working.Valid()
      modifies working
      ensures working.Valid()
      ensures if picked.None? then tried == |eligible| else tried < |eligible| && eligible[tried] == picked.value
      ensures AllFail(working.net, old(working.Snapshot()), height, eligible[..tried])
      ensures blocked' == blocked + (set k | 0 <= k < tried :: eligible[k].sender)
      ensures match picked
              case None =>
                && working.Snapshot() == old(working.Snapshot())
                && AllFail(working.net, old(working.Snapshot()), height, eligible)
              case Some(tx) =>
                && ApplyOne(working.net, old(working.Snapshot()), tx, height) == Ok(working.Snapshot())
                && FirstToRun(working.net, old(working.Snapshot()), height, eligible, tx)
      ensures forall s :: s in blocked' - blocked ==>
                SenderFails(working.net, old(working.Snapshot()), height, eligible, s)
    {
      hide ApplyOne, Batch;
      ghost var start := working.Snapshot();
      blocked' := blocked;
      for k := 0 to |eligible|
        invariant working.Valid() && working.Snapshot() == start
        invariant AllFail(working.net, start, height, eligible[..k])
        invariant blocked' == blocked + (set j | 0 <= j < k :: eligible[j].sender)
        invariant forall s :: s in blocked' - blocked ==> SenderFails(working.net, start, height, eligible, s)
      {
        assert eligible[..k + 1] == eligible[..k] + [eligible[k]];
        SingleBatch(working.net, start, eligible[k], height);
        var fee := working.ApplyTransactions([eligible[k]], height);
        if fee.Ok? {
          return Some(eligible[k]), blocked', k;
        }
        assert SenderFails(working.net, start, height, eligible, eligible[k].sender);
        blocked' := blocked' + {eligible[k].sender};
      }
      assert eligible[..|eligible|] == eligible;
      picked, tried := None, |eligible|;
    }

    /** Selects the best executable head again and again, and blocks the senders whose heads failed. When
        the pool agrees with the ledger the result executes as one batch, every pick was the best head at
        its turn, only senders at their last nonce are blocked, and nothing minable is left out before
        the limit is reached. */
    method Select(state: AccountState, height: int, maxCount: int)
      returns (r: Result<seq<Transaction>>, ghost reached: Ledger, ghost blocked: set<Text>)
      requires Valid() && state.Valid() && state.net == net
      ensures maxCount < 0 ==> r == Err(BadCount)
      ensures maxCount >= 0 ==>
                && r.Ok? && |r.value| <= maxCount
                && Selects(net, Value(), state.Snapshot(), height, r.value, reached, blocked)
                && (|r.value| < maxCount ==> NoneRuns(net, Value(), reached, height, blocked))
      ensures maxCount >= 0 && PoolAgrees(net, Value(), state.Snapshot(), height)
              && Total(state.Snapshot().accounts) <= U64_MAX ==>
                && |r.value| == (if |Minable(Value())| < maxCount then |Minable(Value())| else maxCount)
                && (forall tx :: tx in r.value ==> IsPending(net, Value(), tx))
                && (forall tx :: tx in r.value ==> net.txid(tx) in Minable(Value()))
                && (|Minable(Value())| <= maxCount ==>
                      forall id :: id in Minable(Value()) ==> Value().txs[id] in r.value)
                && Greedy(net, Value(), state.Snapshot(), height, r.value)
                && (forall k :: 0 <= k < |r.value| ==>
                      HighestFeeAt(net, Value(), state.Snapshot(), height, r.value, k))
                && ApplyAll(net, state.Snapshot(), r.value, height).Ok?
                && BlockedAreStuck(reached, blocked)
    {
      hide Consistent, PoolAgrees, Greedy, HighestFeeAt, ApplyOne, Rest, Groups, BestHead, EligibleAre, FirstToRun,
        SenderFails, BlockedAreStuck, Exhausted, Sorted, Minable, ApplyAll, Total, Picks, NoneRuns, Selects, AllFail,
        Progress;
      NobodyBlocked(net, Value(), state.Snapshot(), height);
      reached, blocked := state.Snapshot(), {};
      if maxCount < 0 { return Err(BadCount), reached, blocked; }
      ghost var p, l := Value(), state.Snapshot();
      ghost var agrees := PoolAgrees(net, p, l, height) && Total(l.accounts) <= U64_MAX;
      if agrees { ProgressStarts(net, p, l, height); }
      if maxCount == 0 { return Ok([]), reached, blocked; }
      var groups := Grouped();
      var working := state.Copy();
      var selected: seq<Transaction> := [];
      var closed: set<Text> := {};
      OutranksIsStrict(net);
      while |selected| < maxCount
        invariant |selected| <= maxCount && working.Valid() && working.net == net && fresh(working)
        invariant reached == working.Snapshot() && blocked == closed
        invariant Selects(net, p, l, height, selected, reached, blocked)
        invariant agrees ==> Progress(net, p, l, height, selected, reached)
        invariant agrees ==> BlockedAreStuck(reached, blocked)
        decreases maxCount - |selected|
      {
        var heads := EligibleHeads(groups, working, closed);
        if |heads| == 0 {
          NothingFails(net, reached, height);
          NoHeadRuns(net, p, reached, height, blocked, []);
          if agrees { AllHeadsStuck(net, p, l, height, selected, reached, blocked, []); }
          break;
        }
        var eligible := InsertionSort(heads, (a: Transaction, b: Transaction) => Outranks(net, a, b));
        SameHeads(net, p, reached, blocked, heads, eligible);
        var picked, closed', tried := ApplyFirst(eligible, working, height, closed);
        if picked.None? {
          NoHeadRuns(net, p, reached, height, blocked, eligible);
          if agrees { AllHeadsStuck(net, p, l, height, selected, reached, blocked, eligible); }
          break;
        }
        FirstIsPicked(net, p, reached, height, blocked, eligible, tried, closed');
        SelectsOneMore(net, p, l, height, selected, reached, blocked, picked.value, closed');
        if agrees {
          RoundGoesOn(net, p, l, height, selected, reached, blocked, eligible, picked.value, closed');
        }
        selected := selected + [picked.value];
        closed := closed';
        reached, blocked := working.Snapshot(), closed;
      }
      if agrees {
        SelectionIsComplete(net, p, l, height, selected, reached);
        SelectedAreMinable(net, p, l, height, selected, reached);
        EveryPickHasHighestFee(net, p, l, height, selected, reached);
      }
      r := Ok(selected);
    }
  }

  lemma NonceOrderIsStrict()
    ensures StrictOrder((a: Transaction, b: Transaction) => a.nonce < b.nonce)
  {
  }

  /** The next nonce for any pool, in agreement with the ledger or not: the account's own if something
      older is pending, and otherwise the first one that is free, if there is one. */
  ghost predicate NextNonceIs(p: Pool, sender: Text, nonce: int, r: Result<int>) {
    if nonce == U64_MAX then r == Err(NonceExhausted)
    else if OlderPending(p, sender, nonce) then r == Ok(nonce)
    else match r
      case Ok(next) => nonce <= next <= U64_MAX && Filled(p, sender, nonce, next) && Slot(sender, next) !in p.slots
      case Err(fault) => fault == NonceExhausted && Filled(p, sender, nonce, U64_MAX + 1)
  }

  lemma ExhaustedAccount(p: Pool, sender: Text)
    ensures NextNonceIs(p, sender, U64_MAX, Err(NonceExhausted))
  {
  }

  ghost predicate OlderPending(p: Pool, sender: Text, nonce: int) {
    exists id :: id in SenderIds(p, sender) && p.txs[id].nonce < nonce
  }

  /** What the sorted list says about the slots once the first `i` entries count up from the nonce and
      the next one, if any, does not. */
  lemma RunStopsAt(net: Network, p: Pool, sender: Text, nonce: int, pending: seq<Transaction>, i: nat)
    requires Consistent(net, p) && Lists(net, p, pending, SenderIds(p, sender))
    requires Sorted(pending, (a: Transaction, b: Transaction) => a.nonce < b.nonce)
    requires i <= |pending| && forall k :: 0 <= k < i ==> pending[k].nonce == nonce + k
    ensures Filled(p, sender, nonce, nonce + i)
    ensures i < |pending| && pending[i].nonce != nonce + i && OlderPending(p, sender, nonce) ==> i == 0
    ensures i > 0 || i == |pending| ==> !OlderPending(p, sender, nonce)
    ensures (i < |pending| ==> pending[i].nonce != nonce + i) && !OlderPending(p, sender, nonce) ==>
              Slot(sender, nonce + i) !in p.slots
  {
    forall n {:trigger Slot(sender, n)} | nonce <= n < nonce + i
      ensures Slot(sender, n) in p.slots
    {
      assert IsPending(net, p, pending[n - nonce]) && SlotOf(pending[n - nonce]) == Slot(sender, n);
    }
    forall id | id in SenderIds(p, sender)
      ensures i > 0 || i == |pending| ==> p.txs[id].nonce >= nonce
      ensures (i < |pending| ==> pending[i].nonce != nonce + i) && !OlderPending(p, sender, nonce) ==>
                p.txs[id].nonce != nonce + i
    {
      var j :| 0 <= j < |pending| && pending[j] == p.txs[id];
      NotAtTheStop(net, p, sender, nonce, pending, i, j);
    }
    if Slot(sender, nonce + i) in p.slots {
      var id := p.slots[Slot(sender, nonce + i)];
      assert SlotOf(p.txs[id]) == Slot(sender, nonce + i) && id in SenderIds(p, sender);
    }
  }

  lemma NotAtTheStop(net: Network, p: Pool, sender: Text, nonce: int, pending: seq<Transaction>, i: nat, j: nat)
    requires Consistent(net, p) && Lists(net, p, pending, SenderIds(p, sender))
    requires Sorted(pending, (a: Transaction, b: Transaction) => a.nonce < b.nonce)
    requires i <= |pending| && (forall k :: 0 <= k < i ==> pending[k].nonce == nonce + k) && j < |pending|
    ensures i > 0 || i == |pending| ==> pending[j].nonce >= nonce
    ensures (i < |pending| ==> pending[i].nonce != nonce + i) && !OlderPending(p, sender, nonce) ==>
              pending[j].nonce != nonce + i
  {
    assert net.txid(pending[j]) in SenderIds(p, sender);
    if i > 0 {
      SortedNonces(net, p, sender, pending, 0, j);
    }
    SortedNonces(net, p, sender, pending, j, 0);
    if i < |pending| {
      SortedNonces(net, p, sender, pending, i, j);
      assert net.txid(pending[i]) in SenderIds(p, sender) && p.txs[net.txid(pending[i])] == pending[i];
      assert i > 0 ==> pending[i - 1].nonce < pending[i].nonce;
    }
  }

  lemma NextNonceFound(net: Network, p: Pool, sender: Text, nonce: int, pending: seq<Transaction>, i: nat)
    requires Consistent(net, p) && Lists(net, p, pending, SenderIds(p, sender))
    requires Sorted(pending, (a: Transaction, b: Transaction) => a.nonce < b.nonce)
    requires i <= |pending| && forall k :: 0 <= k < i ==> pending[k].nonce == nonce + k
    requires nonce != U64_MAX && nonce <= U64_MAX
    ensures (i < |pending| ==> pending[i].nonce != nonce + i) && nonce + i <= U64_MAX ==>
              NextNonceIs(p, sender, nonce, Ok(nonce + i))
    ensures nonce + i == U64_MAX + 1 ==> NextNonceIs(p, sender, nonce, Err(NonceExhausted))
  {
    hide Consistent, Lists, Sorted, Filled, OlderPending;
    RunStopsAt(net, p, sender, nonce, pending, i);
  }

  /** Sorted by nonce, a sender's pending transactions count up from the account's nonce. */
  lemma RunIsSorted(net: Network, p: Pool, l: Ledger, height: int, sender: Text, pending: seq<Transaction>)
    requires PoolAgrees(net, p, l, height) && Lists(net, p, pending, SenderIds(p, sender))
    requires Sorted(pending, (a: Transaction, b: Transaction) => a.nonce < b.nonce)
    ensures forall i :: 0 <= i < |pending| ==> pending[i].nonce == AccountAt(l, sender).nonce + i
  {
    hide PoolAgrees, Lists, Sorted;
    for i := 0 to |pending|
      invariant forall k :: 0 <= k < i ==> pending[k].nonce == AccountAt(l, sender).nonce + k
    {
      RunStep(net, p, l, height, sender, pending, i);
    }
  }

  lemma RunStep(net: Network, p: Pool, l: Ledger, height: int, sender: Text, pending: seq<Transaction>, i: nat)
    requires PoolAgrees(net, p, l, height) && Lists(net, p, pending, SenderIds(p, sender))
    requires Sorted(pending, (a: Transaction, b: Transaction) => a.nonce < b.nonce)
    requires i < |pending|
    requires forall k :: 0 <= k < i ==> pending[k].nonce == AccountAt(l, sender).nonce + k
    ensures pending[i].nonce == AccountAt(l, sender).nonce + i
  {
    hide Backed;
    var from := AccountAt(l, sender).nonce;
    var m := SenderRun(net, p, l, height, sender);
    var slot := Slot(sender, from + i);
    assert slot in p.slots && SlotOf(p.txs[p.slots[slot]]) == slot;
    var j :| 0 <= j < |pending| && pending[j] == p.txs[p.slots[slot]];
    SortedNonces(net, p, sender, pending, i, j);
    AtLeastAccountNonce(net, p, l, height, pending[i]);
    assert net.txid(pending[i]) in SenderIds(p, sender) && pending[i].sender == sender;
    assert i > 0 ==> pending[i - 1].nonce < pending[i].nonce;
    assert pending[j].nonce == from + i && i <= j;
  }

  lemma AtLeastAccountNonce(net: Network, p: Pool, l: Ledger, height: int, tx: Transaction)
    requires PoolAgrees(net, p, l, height) && IsPending(net, p, tx)
    ensures AccountAt(l, tx.sender).nonce <= tx.nonce
  {
    assert Backed(net, p, p.txs[net.txid(tx)], l, height);
  }

  lemma SortedNonces(net: Network, p: Pool, sender: Text, pending: seq<Transaction>, i: nat, j: nat)
    requires Consistent(net, p) && Lists(net, p, pending, SenderIds(p, sender))
    requires Sorted(pending, (a: Transaction, b: Transaction) => a.nonce < b.nonce)
    requires i < |pending| && j < |pending|
    ensures i <= j ==> pending[i].nonce <= pending[j].nonce
    ensures forall k :: 0 <= k < i ==> pending[k].nonce < pending[i].nonce
  {
    forall k | 0 <= k < i ensures pending[k].nonce < pending[i].nonce {
      SlotDetermines(net, p, pending[k], pending[i]);
    }
  }

  lemma SlotDetermines(net: Network, p: Pool, a: Transaction, b: Transaction)
    requires Consistent(net, p) && IsPending(net, p, a) && IsPending(net, p, b)
    ensures SlotOf(a) == SlotOf(b) ==> a == b
  {
    CostAtOwnSlot(net, p, net.txid(a));
  }

  // ---------------------------------------------------------------------------------------------
  // Selection, step by step
  // ---------------------------------------------------------------------------------------------

  ghost predicate Groups(net: Network, p: Pool, groups: map<Text, map<int, Transaction>>, ids: set<Hash>) {
    && (forall s, n {:trigger groups[s][n]} :: s in groups && n in groups[s] ==>
          && IsPending(net, p, groups[s][n]) && net.txid(groups[s][n]) in ids
          && groups[s][n].sender == s && groups[s][n].nonce == n)
    && (forall s :: s in groups ==> net.validAddress(s))
    && (forall id :: id in ids && id in p.txs ==> IsGrouped(groups, p.txs[id]))
  }

  predicate IsGrouped(groups: map<Text, map<int, Transaction>>, tx: Transaction) {
    tx.sender in groups && tx.nonce in groups[tx.sender] && groups[tx.sender][tx.nonce] == tx
  }

  lemma GroupsOneMore(net: Network, p: Pool, groups: map<Text, map<int, Transaction>>, ids: set<Hash>, id: Hash)
    requires Consistent(net, p) && Groups(net, p, groups, ids) && id in p.txs && id !in ids
    requires net.validAddress(p.txs[id].sender)
    ensures var tx := p.txs[id];
            Groups(net, p, groups[tx.sender :=
              (if tx.sender in groups then groups[tx.sender] else map[])[tx.nonce := tx]], ids + {id})
  {
    var tx := p.txs[id];
    var groups' := groups[tx.sender :=
      (if tx.sender in groups then groups[tx.sender] else map[])[tx.nonce := tx]];
    assert IsPending(net, p, tx);
    forall other | other in ids + {id} && other in p.txs ensures IsGrouped(groups', p.txs[other]) {
      if other != id {
        assert IsGrouped(groups, p.txs[other]);
        assert SlotOf(p.txs[other]) != SlotOf(tx);
      }
    }
  }

  lemma SenderGroup(net: Network, p: Pool, groups: map<Text, map<int, Transaction>>, sender: Text)
    requires Groups(net, p, groups, p.txs.Keys) && sender in groups
    ensures net.validAddress(sender)
    ensures forall tx :: IsPending(net, p, tx) && tx.sender == sender <==>
              tx.nonce in groups[sender] && groups[sender][tx.nonce] == tx
    ensures forall tx :: IsPending(net, p, tx) ==> tx.sender in groups
  {
    forall tx | IsPending(net, p, tx) ensures IsGrouped(groups, tx) {
    }
  }

  /** A list of all heads whose senders are not blocked. */
  ghost predicate EligibleAre(net: Network, p: Pool, l: Ledger, blocked: set<Text>, eligible: seq<Transaction>) {
    forall tx :: tx in eligible <==> IsPending(net, p, tx) && IsHead(l, tx) && tx.sender !in blocked
  }

  lemma SameHeads(net: Network, p: Pool, l: Ledger, blocked: set<Text>, heads: seq<Transaction>,
                  eligible: seq<Transaction>)
    requires EligibleAre(net, p, l, blocked, heads) && multiset(eligible) == multiset(heads)
    ensures EligibleAre(net, p, l, blocked, eligible)
  {
    SameItems(eligible, heads);
  }

  ghost predicate AllFail(net: Network, l: Ledger, height: int, txs: seq<Transaction>) {
    forall tx :: tx in txs ==> ApplyOne(net, l, tx, height).Err?
  }

  lemma FailsBefore(net: Network, l: Ledger, height: int, txs: seq<Transaction>, k: nat, j: nat)
    requires j < k <= |txs| && AllFail(net, l, height, txs[..k])
    ensures ApplyOne(net, l, txs[j], height).Err?
  {
    hide ApplyOne;
    assert txs[..k][j] == txs[j];
  }

  ghost predicate FirstToRun(net: Network, l: Ledger, height: int, txs: seq<Transaction>, tx: Transaction) {
    exists k :: 0 <= k < |txs| && txs[k] == tx && AllFail(net, l, height, txs[..k])
  }

  ghost predicate SenderFails(net: Network, l: Ledger, height: int, txs: seq<Transaction>, sender: Text) {
    exists tx :: tx in txs && tx.sender == sender && ApplyOne(net, l, tx, height).Err?
  }

  // What a selection is, for any pool

  /** A head whose sender is not blocked. */
  predicate OpenHead(net: Network, p: Pool, l: Ledger, blocked: set<Text>, tx: Transaction) {
    IsPending(net, p, tx) && IsHead(l, tx) && tx.sender !in blocked
  }

  ghost predicate Overtakes(net: Network, p: Pool, l: Ledger, blocked: set<Text>, tx: Transaction, sender: Text) {
    exists other :: OpenHead(net, p, l, blocked, other) && Outranks(net, other, tx) && other.sender == sender
  }

  /** One round picks an open head that executes, while every open head that outranks it fails; the
      senders of those are blocked from then on, and nobody else. */
  ghost predicate Picks(net: Network, p: Pool, l: Ledger, height: int, blocked: set<Text>, tx: Transaction,
                        blocked': set<Text>)
  {
    && OpenHead(net, p, l, blocked, tx) && ApplyOne(net, l, tx, height).Ok?
    && (forall other :: OpenHead(net, p, l, blocked, other) && Outranks(net, other, tx) ==>
          ApplyOne(net, l, other, height).Err?)
    && (forall s :: s in blocked' <==> s in blocked || Overtakes(net, p, l, blocked, tx, s))
  }

  /** For any pool a round picks the highest fee among the open heads that execute, and of equal fees the
      smallest identifier. */
  lemma PickHasHighestFee(net: Network, p: Pool, l: Ledger, height: int, blocked: set<Text>, tx: Transaction,
                          blocked': set<Text>, other: Transaction)
    requires Picks(net, p, l, height, blocked, tx, blocked')
    requires OpenHead(net, p, l, blocked, other) && ApplyOne(net, l, other, height).Ok? && other != tx
    ensures other.fee < tx.fee || (other.fee == tx.fee && SmallerId(net.txid(tx), net.txid(other)))
  {
    hide ApplyOne;
    NotOutranked(net, p, tx, other);
  }

  lemma EveryPickHasHighestFee(net: Network, p: Pool, l: Ledger, height: int, selected: seq<Transaction>,
                               reached: Ledger)
    requires Progress(net, p, l, height, selected, reached)
    ensures Greedy(net, p, l, height, selected) && ApplyAll(net, l, selected, height).Ok?
    ensures forall tx :: tx in selected ==> IsPending(net, p, tx)
    ensures forall k :: 0 <= k < |selected| ==> HighestFeeAt(net, p, l, height, selected, k)
  {
    hide Greedy, HighestFeeAt;
    forall k | 0 <= k < |selected|
      ensures HighestFeeAt(net, p, l, height, selected, k)
    {
      GreedyPicksHighestFee(net, p, l, height, selected, k);
    }
  }

  /** The selection made round by round from a ledger, the ledger it reaches and the senders it blocks. */
  ghost predicate Selects(net: Network, p: Pool, l: Ledger, height: int, selected: seq<Transaction>,
                          reached: Ledger, blocked: set<Text>)
  {
    if selected == [] then reached == l && blocked == {}
    else
      exists before, blocked0 {:trigger Picks(net, p, before, height, blocked0, selected[|selected| - 1], blocked)} ::
        && Selects(net, p, l, height, selected[..|selected| - 1], before, blocked0)
        && Picks(net, p, before, height, blocked0, selected[|selected| - 1], blocked)
        && ApplyOne(net, before, selected[|selected| - 1], height) == Ok(reached)
  }

  ghost predicate NoneRuns(net: Network, p: Pool, l: Ledger, height: int, blocked: set<Text>) {
    forall tx :: OpenHead(net, p, l, blocked, tx) ==> ApplyOne(net, l, tx, height).Err?
  }

  lemma NothingFails(net: Network, l: Ledger, height: int)
    ensures AllFail(net, l, height, [])
  {
  }

  lemma NoHeadRuns(net: Network, p: Pool, l: Ledger, height: int, blocked: set<Text>, eligible: seq<Transaction>)
    requires EligibleAre(net, p, l, blocked, eligible) && AllFail(net, l, height, eligible)
    ensures NoneRuns(net, p, l, height, blocked)
  {
    hide ApplyOne;
  }

  /** Of the heads in priority order exactly those before the first that executes outrank it. */
  lemma FirstIsPicked(net: Network, p: Pool, l: Ledger, height: int, blocked: set<Text>, eligible: seq<Transaction>,
                      k: nat, blocked': set<Text>)
    requires EligibleAre(net, p, l, blocked, eligible) && k < |eligible|
    requires Sorted(eligible, (a: Transaction, b: Transaction) => Outranks(net, a, b))
    requires AllFail(net, l, height, eligible[..k]) && ApplyOne(net, l, eligible[k], height).Ok?
    requires blocked' == blocked + set j | 0 <= j < k :: eligible[j].sender
    ensures Picks(net, p, l, height, blocked, eligible[k], blocked')
  {
    hide ApplyOne, IsHead, Outranks, AllFail, Sorted;
    var tx := eligible[k];
    forall j | 0 <= j < |eligible|
      ensures Outranks(net, eligible[j], tx) <==> j < k
      ensures j < k ==> ApplyOne(net, l, eligible[j], height).Err?
    {
      if j < k { FailsBefore(net, l, height, eligible, k, j); }
      RankInOrder(net, p, eligible, j, k);
    }
    forall s ensures s in blocked' <==> s in blocked || Overtakes(net, p, l, blocked, tx, s) {
      if s in blocked' && s !in blocked {
        var j :| 0 <= j < k && eligible[j].sender == s;
        assert OpenHead(net, p, l, blocked, eligible[j]);
      }
    }
  }

  lemma RankInOrder(net: Network, p: Pool, eligible: seq<Transaction>, j: nat, k: nat)
    requires j < |eligible| && k < |eligible| && IsPending(net, p, eligible[j]) && IsPending(net, p, eligible[k])
    requires Sorted(eligible, (a: Transaction, b: Transaction) => Outranks(net, a, b))
    requires j < k ==> eligible[j] != eligible[k]
    ensures Outranks(net, eligible[j], eligible[k]) <==> j < k
  {
    var a, b := eligible[j], eligible[k];
    if j < k {
      assert !Outranks(net, b, a);
      OneOutranks(net, p, a, b);
    } else if k < j {
      assert !Outranks(net, a, b);
    } else {
      LexIsStrict(net.txid(a), net.txid(a));
    }
  }

  /** Of two different pending transactions one outranks the other. */
  lemma OneOutranks(net: Network, p: Pool, a: Transaction, b: Transaction)
    requires IsPending(net, p, a) && IsPending(net, p, b) && a != b
    ensures Outranks(net, a, b) || Outranks(net, b, a)
  {
    LexIsTotal(net.txid(a), net.txid(b));
  }

  lemma SelectsOneMore(net: Network, p: Pool, l: Ledger, height: int, selected: seq<Transaction>, reached: Ledger,
                       blocked: set<Text>, tx: Transaction, blocked': set<Text>)
    requires Selects(net, p, l, height, selected, reached, blocked)
    requires Picks(net, p, reached, height, blocked, tx, blocked')
    ensures ApplyOne(net, reached, tx, height).Ok?
    ensures Selects(net, p, l, height, selected + [tx], ApplyOne(net, reached, tx, height).value, blocked')
  {
    hide ApplyOne;
    var all := selected + [tx];
    assert all[..|all| - 1] == selected;
    assert Picks(net, p, reached, height, blocked, all[|all| - 1], blocked');
  }

  /** The pool, the ledger and the number of rounds determine the selection. */
  lemma {:induction false} SelectionIsDetermined(net: Network, p: Pool, l: Ledger, height: int,
                                                 a: seq<Transaction>, ra: Ledger, ba: set<Text>,
                                                 b: seq<Transaction>, rb: Ledger, bb: set<Text>)
    requires Selects(net, p, l, height, a, ra, ba) && Selects(net, p, l, height, b, rb, bb) && |a| == |b|
    ensures a == b && ra == rb && ba == bb
    decreases |a|
  {
    hide ApplyOne, Picks, Selects;
    if |a| > 0 {
      var n := |a| - 1;
      var la, ca := LastRound(net, p, l, height, a, ra, ba);
      var lb, cb := LastRound(net, p, l, height, b, rb, bb);
      SelectionIsDetermined(net, p, l, height, a[..n], la, ca, b[..n], lb, cb);
      PickIsDetermined(net, p, la, height, ca, a[n], ba, b[n], bb);
      assert a == a[..n] + [a[n]] && b == b[..n] + [b[n]];
    } else {
      NoRounds(net, p, l, height, a, ra, ba);
      NoRounds(net, p, l, height, b, rb, bb);
    }
  }

  lemma NoRounds(net: Network, p: Pool, l: Ledger, height: int, selected: seq<Transaction>, reached: Ledger,
                 blocked: set<Text>)
    requires Selects(net, p, l, height, selected, reached, blocked) && |selected| == 0
    ensures reached == l && blocked == {} && selected == []
  {
    assert selected == [];
  }

  lemma LastRound(net: Network, p: Pool, l: Ledger, height: int, selected: seq<Transaction>, reached: Ledger,
                  blocked: set<Text>) returns (before: Ledger, blocked0: set<Text>)
    requires Selects(net, p, l, height, selected, reached, blocked) && selected != []
    ensures Selects(net, p, l, height, selected[..|selected| - 1], before, blocked0)
    ensures Picks(net, p, before, height, blocked0, selected[|selected| - 1], blocked)
    ensures ApplyOne(net, before, selected[|selected| - 1], height) == Ok(reached)
  {
    hide ApplyOne, Picks;
    before, blocked0 :| && Selects(net, p, l, height, selected[..|selected| - 1], before, blocked0)
                        && Picks(net, p, before, height, blocked0, selected[|selected| - 1], blocked)
                        && ApplyOne(net, before, selected[|selected| - 1], height) == Ok(reached);
  }

  lemma PickIsDetermined(net: Network, p: Pool, l: Ledger, height: int, blocked: set<Text>,
                         a: Transaction, ba: set<Text>, b: Transaction, bb: set<Text>)
    requires Picks(net, p, l, height, blocked, a, ba) && Picks(net, p, l, height, blocked, b, bb)
    ensures a == b && ba == bb
  {
    hide ApplyOne;
    if a != b {
      OneOutranks(net, p, a, b);
    }
  }

  /** Every selection that went on after its first `k` picks found an open head there that executes. */
  lemma {:induction false} RoundAt(net: Network, p: Pool, l: Ledger, height: int, selected: seq<Transaction>,
                                   reached: Ledger, blocked: set<Text>, k: nat)
    returns (before: Ledger, blocked0: set<Text>)
    requires Selects(net, p, l, height, selected, reached, blocked) && k < |selected|
    ensures Selects(net, p, l, height, selected[..k], before, blocked0)
    ensures !NoneRuns(net, p, before, height, blocked0)
    decreases |selected|
  {
    hide ApplyOne, Selects;
    before, blocked0 := LastRound(net, p, l, height, selected, reached, blocked);
    if k < |selected| - 1 {
      before, blocked0 := RoundAt(net, p, l, height, selected[..|selected| - 1], before, blocked0, k);
      assert selected[..|selected| - 1][..k] == selected[..k];
    }
  }

  lemma NotShorter(net: Network, p: Pool, l: Ledger, height: int,
                   a: seq<Transaction>, ra: Ledger, ba: set<Text>, b: seq<Transaction>, rb: Ledger, bb: set<Text>)
    requires Selects(net, p, l, height, a, ra, ba) && Selects(net, p, l, height, b, rb, bb)
    requires NoneRuns(net, p, ra, height, ba)
    ensures |b| <= |a|
  {
    hide Selects, NoneRuns;
    if |a| < |b| {
      var before, blocked0 := RoundAt(net, p, l, height, b, rb, bb, |a|);
      SelectionIsDetermined(net, p, l, height, a, ra, ba, b[..|a|], before, blocked0);
    }
  }

  /** What `Select` promises determines its result: no order of iteration shows in it. */
  lemma SelectIsAFunction(net: Network, p: Pool, l: Ledger, height: int, maxCount: int,
                          a: seq<Transaction>, ra: Ledger, ba: set<Text>,
                          b: seq<Transaction>, rb: Ledger, bb: set<Text>)
    requires Selects(net, p, l, height, a, ra, ba) && Selects(net, p, l, height, b, rb, bb)
    requires |a| <= maxCount && (|a| < maxCount ==> NoneRuns(net, p, ra, height, ba))
    requires |b| <= maxCount && (|b| < maxCount ==> NoneRuns(net, p, rb, height, bb))
    ensures a == b && ra == rb && ba == bb
  {
    hide Selects, NoneRuns;
    if |a| < maxCount { NotShorter(net, p, l, height, a, ra, ba, b, rb, bb); }
    if |b| < maxCount { NotShorter(net, p, l, height, b, rb, bb, a, ra, ba); }
    SelectionIsDetermined(net, p, l, height, a, ra, ba, b, rb, bb);
  }

  /** Blocked senders have used up their nonces. */
  ghost predicate BlockedAreStuck(l: Ledger, blocked: set<Text>) {
    forall s :: s in blocked ==> AccountAt(l, s).nonce == U64_MAX
  }

  lemma NobodyBlocked(net: Network, p: Pool, l: Ledger, height: int)
    ensures BlockedAreStuck(l, {}) && Selects(net, p, l, height, [], l, {})
  {
  }

  /** During a selection a head fails to execute only because its nonce is the last one. */
  lemma HeadRuns(net: Network, p: Pool, l: Ledger, height: int, selected: seq<Transaction>,
                 reached: Ledger, tx: Transaction)
    requires Progress(net, p, l, height, selected, reached)
    requires IsPending(net, p, tx) && IsHead(reached, tx)
    ensures ApplyOne(net, reached, tx, height).Ok? <==> Executable(net, reached, tx, height)
    ensures Executable(net, reached, tx, height) <==> AccountAt(reached, tx.sender).nonce != U64_MAX
  {
    hide Greedy, ApplyAll, Backed;
    var r := Rest(p, reached);
    HeadIsInRest(net, p, reached, tx);
    assert Backed(net, r, r.txs[net.txid(tx)], reached, height);
    HeadIsExecutable(net, r, tx, reached, height);
    BatchConserves(net, l, selected, height);
    if Executable(net, reached, tx, height) {
      TransferConserves(net, reached, tx, height);
    }
  }

  lemma StillStuck(net: Network, p: Pool, l: Ledger, height: int, selected: seq<Transaction>,
                   reached: Ledger, blocked: set<Text>, blocked': set<Text>, eligible: seq<Transaction>)
    requires Progress(net, p, l, height, selected, reached) && BlockedAreStuck(reached, blocked)
    requires EligibleAre(net, p, reached, blocked, eligible)
    requires forall s :: s in blocked' - blocked ==> SenderFails(net, reached, height, eligible, s)
    ensures BlockedAreStuck(reached, blocked')
  {
    hide Progress, ApplyOne, IsPending, IsHead;
    forall s | s in blocked' - blocked ensures AccountAt(reached, s).nonce == U64_MAX {
      var tx :| tx in eligible && tx.sender == s && ApplyOne(net, reached, tx, height).Err?;
      HeadRuns(net, p, l, height, selected, reached, tx);
    }
  }

  lemma AllHeadsStuck(net: Network, p: Pool, l: Ledger, height: int, selected: seq<Transaction>,
                      reached: Ledger, blocked: set<Text>, eligible: seq<Transaction>)
    requires Progress(net, p, l, height, selected, reached) && BlockedAreStuck(reached, blocked)
    requires EligibleAre(net, p, reached, blocked, eligible) && AllFail(net, reached, height, eligible)
    ensures Exhausted(net, p, reached, height)
  {
    hide Progress, ApplyOne, Executable;
    forall tx | IsPending(net, p, tx) && IsHead(reached, tx) ensures !Executable(net, reached, tx, height) {
      HeadRuns(net, p, l, height, selected, reached, tx);
    }
  }

  /** The first head of the priority order that executes is the best one. */
  lemma FirstIsBest(net: Network, p: Pool, l: Ledger, height: int, selected: seq<Transaction>,
                    reached: Ledger, blocked: set<Text>, eligible: seq<Transaction>, tx: Transaction)
    requires Progress(net, p, l, height, selected, reached) && BlockedAreStuck(reached, blocked)
    requires EligibleAre(net, p, reached, blocked, eligible)
    requires Sorted(eligible, (a: Transaction, b: Transaction) => Outranks(net, a, b))
    requires FirstToRun(net, reached, height, eligible, tx)
    requires ApplyOne(net, reached, tx, height).Ok?
    ensures BestHead(net, p, reached, height, tx)
  {
    hide Progress, ApplyOne, Executable, IsHead;
    var k :| 0 <= k < |eligible| && eligible[k] == tx && AllFail(net, reached, height, eligible[..k]);
    HeadRuns(net, p, l, height, selected, reached, tx);
    OutranksIsStrict(net);
    forall other | IsPending(net, p, other) && IsHead(reached, other) && Executable(net, reached, other, height)
      ensures !Outranks(net, other, tx)
    {
      assert other in eligible by {
        HeadRuns(net, p, l, height, selected, reached, other);
      }
      var j :| 0 <= j < |eligible| && eligible[j] == other;
      if j < k {
        FailsBefore(net, reached, height, eligible, k, j);
        HeadRuns(net, p, l, height, selected, reached, other);
      } else if j == k {
        LexIsStrict(net.txid(tx), net.txid(tx));
      } else {
        assert !Outranks(net, eligible[j], eligible[k]);
      }
    }
  }

  lemma StuckForGood(net: Network, l: Ledger, tx: Transaction, height: int, blocked: set<Text>)
    requires BlockedAreStuck(l, blocked) && ApplyOne(net, l, tx, height).Ok?
    ensures BlockedAreStuck(ApplyOne(net, l, tx, height).value, blocked)
  {
    TransferAccounts(net, l, tx, height);
  }

  /** One round keeps the selection on its way, and only senders at their last nonce blocked. */
  lemma RoundGoesOn(net: Network, p: Pool, l: Ledger, height: int, selected: seq<Transaction>, reached: Ledger,
                    blocked: set<Text>, eligible: seq<Transaction>, tx: Transaction, blocked': set<Text>)
    requires Progress(net, p, l, height, selected, reached) && BlockedAreStuck(reached, blocked)
    requires EligibleAre(net, p, reached, blocked, eligible)
    requires Sorted(eligible, (a: Transaction, b: Transaction) => Outranks(net, a, b))
    requires FirstToRun(net, reached, height, eligible, tx) && ApplyOne(net, reached, tx, height).Ok?
    requires forall s :: s in blocked' - blocked ==> SenderFails(net, reached, height, eligible, s)
    ensures Progress(net, p, l, height, selected + [tx], ApplyOne(net, reached, tx, height).value)
    ensures BlockedAreStuck(ApplyOne(net, reached, tx, height).value, blocked')
  {
    hide Progress, BlockedAreStuck, EligibleAre, Sorted, FirstToRun, SenderFails, ApplyOne, Outranks;
    StillStuck(net, p, l, height, selected, reached, blocked, blocked', eligible);
    FirstIsBest(net, p, l, height, selected, reached, blocked, eligible, tx);
    ProgressGoesOn(net, p, l, height, selected, reached, tx);
    StuckForGood(net, reached, tx, height, blocked');
  }

  lemma Relisted(net: Network, p: Pool, items: seq<Transaction>, order: seq<Transaction>, ids: set<Hash>)
    requires Lists(net, p, items, ids) && multiset(items) == multiset(order)
    ensures Lists(net, p, order, ids)
  {
    SameItems(order, items);
    SameItemsDistinct(items, order);
  }

  lemma SortedListing(net: Network, p: Pool, order: seq<Transaction>)
    requires Consistent(net, p) && Lists(net, p, order, p.txs.Keys)
    requires Sorted(order, (a: Transaction, b: Transaction) => ListedBefore(net, a, b))
    ensures ListsPool(net, p, order)
    ensures forall i, j :: 0 <= i < j < |order| ==> ListedBefore(net, order[i], order[j])
  {
    forall i, j | 0 <= i < j < |order|
      ensures ListedBefore(net, order[i], order[j])
      ensures order[i].sender == order[j].sender ==> order[i].nonce < order[j].nonce
    {
      SlotDetermines(net, p, order[i], order[j]);
      assert !ListedBefore(net, order[j], order[i]);
      if order[i].sender != order[j].sender {
        LexIsTotal(order[i].sender, order[j].sender);
      }
    }
  }

  lemma RemovedIffDead(net: Network, p: Pool, order: seq<Transaction>, removed: seq<Transaction>,
                       l: Ledger, height: int)
    requires Consistent(net, p) && ListsPool(net, p, order)
    requires forall tx :: tx in removed <==> tx in order && !Survives(net, p, tx, l, height)
    ensures forall tx :: tx in removed <==>
              IsPending(net, p, tx) && !IsPending(net, Revalidated(net, p, l, height), tx)
  {
    hide Survives;
    forall tx ensures tx in order <==> IsPending(net, p, tx) {
    }
  }
}
