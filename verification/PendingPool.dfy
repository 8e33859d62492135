/** The pending pool as a value: what may enter it, and why what it holds can always be mined. */
module PendingPool {
  import opened Types
  import opened Transactions
  import opened State

  const MAX_MEMPOOL_TRANSACTIONS := 50_000
  const MAX_PENDING_PER_SENDER := 64

  datatype Slot = Slot(sender: Text, nonce: int)

  /** The pool's two maps: transactions by identifier, identifiers by sender and nonce. */
  datatype Pool = Pool(txs: map<Hash, Transaction>, slots: map<Slot, Hash>)

  const EMPTY_POOL := Pool(map[], map[])

  function SlotOf(tx: Transaction): Slot {
    Slot(tx.sender, tx.nonce)
  }

  /** The two maps are inverse to each other. */
  ghost predicate Consistent(net: Network, p: Pool) {
    && (forall id :: id in p.txs ==>
          && net.txid(p.txs[id]) == id
          && SlotOf(p.txs[id]) in p.slots && p.slots[SlotOf(p.txs[id])] == id)
    && (forall k :: k in p.slots ==> p.slots[k] in p.txs && SlotOf(p.txs[p.slots[k]]) == k)
  }

  function SenderIds(p: Pool, sender: Text): set<Hash> {
    set id | id in p.txs && p.txs[id].sender == sender
  }

  /** What a set of pending transactions would cost. */
  ghost function Reserved(p: Pool, ids: set<Hash>): int
    requires ids <= p.txs.Keys
  {
    if ids == {} then 0 else var id :| id in ids; Cost(p.txs[id]) + Reserved(p, ids - {id})
  }

  lemma {:induction false} ReservedSplits(p: Pool, ids: set<Hash>, id: Hash)
    requires ids <= p.txs.Keys && id in ids
    ensures Reserved(p, ids) == Cost(p.txs[id]) + Reserved(p, ids - {id})
    decreases ids
  {
    var pick :| pick in ids && Reserved(p, ids) == Cost(p.txs[pick]) + Reserved(p, ids - {pick});
    if pick != id {
      ReservedSplits(p, ids - {pick}, id);
      ReservedSplits(p, ids - {id}, pick);
      assert ids - {pick} - {id} == ids - {id} - {pick};
    }
  }

  // ---------------------------------------------------------------------------------------------
  // Entering and leaving the pool
  // ---------------------------------------------------------------------------------------------

  /** The admission rules, in the order in which the node reports them. */
  ghost function Admission(net: Network, p: Pool, tx: Transaction, l: Ledger, height: int): Outcome {
    var pending := SenderIds(p, tx.sender);
    var account := AccountAt(l, tx.sender);
    if |p.txs| >= MAX_MEMPOOL_TRANSACTIONS then Fail(PoolFull)
    else if !ValidAt(net, tx, height) then Fail(FirstBrokenRule(net, tx, height))
    else if net.txid(tx) in p.txs then Fail(AlreadyPending)
    else if net.txid(tx) in l.confirmed then Fail(AlreadyConfirmed)
    else if SlotOf(tx) in p.slots then Fail(NonceConflict)
    else if |pending| >= MAX_PENDING_PER_SENDER then Fail(SenderFull)
    else if account.nonce == U64_MAX then Fail(NonceExhausted)
    else if account.nonce + |pending| > U64_MAX then Fail(NonceExhausted)
    else if tx.nonce != account.nonce + |pending| then Fail(PendingGap)
    else if Reserved(p, pending) + tx.amount + tx.fee > account.balance then Fail(OverReserved)
    else Pass
  }

  function With(net: Network, p: Pool, tx: Transaction): Pool {
    Pool(p.txs[net.txid(tx) := tx], p.slots[SlotOf(tx) := net.txid(tx)])
  }

  function Without(p: Pool, id: Hash): Pool {
    if id in p.txs then Pool(p.txs - {id}, p.slots - {SlotOf(p.txs[id])}) else p
  }

  /** Drops a list of transactions from the pool. */
  function WithoutAll(net: Network, p: Pool, txs: seq<Transaction>): Pool {
    if txs == [] then p else Without(WithoutAll(net, p, txs[..|txs| - 1]), net.txid(txs[|txs| - 1]))
  }

  /** Offers one transaction; a refusal leaves the pool alone. */
  ghost function Offer(net: Network, p: Pool, tx: Transaction, l: Ledger, height: int): Pool {
    if Admission(net, p, tx, l, height).Pass? then With(net, p, tx) else p
  }

  // ---------------------------------------------------------------------------------------------
  // The pool invariant
  // ---------------------------------------------------------------------------------------------

  ghost predicate Filled(p: Pool, sender: Text, from: int, end: int) {
    forall n {:trigger Slot(sender, n)} :: from <= n < end ==> Slot(sender, n) in p.slots
  }

  function CostAt(p: Pool, k: Slot): int {
    if k in p.slots && p.slots[k] in p.txs then Cost(p.txs[p.slots[k]]) else 0
  }

  /** The cost of a sender's pending transactions with nonces in `[from, end)`. */
  ghost function RunCost(p: Pool, sender: Text, from: int, end: int): int
    decreases end - from
  {
    if end <= from then 0 else RunCost(p, sender, from, end - 1) + CostAt(p, Slot(sender, end - 1))
  }

  /** One pending transaction agrees with a ledger: it is valid and unconfirmed, its sender's nonces
      run without a gap from the account's up to it, at most 64 of them, and the confirmed balance
      pays for the whole run. */
  ghost predicate Backed(net: Network, p: Pool, tx: Transaction, l: Ledger, height: int) {
    var account := AccountAt(l, tx.sender);
    && ValidAt(net, tx, height) && net.txid(tx) !in l.confirmed
    && account.nonce <= tx.nonce < account.nonce + MAX_PENDING_PER_SENDER
    && Filled(p, tx.sender, account.nonce, tx.nonce + 1)
    && RunCost(p, tx.sender, account.nonce, tx.nonce + 1) <= account.balance
  }

  /** The pool agrees with the active ledger for a block at `height`. */
  ghost predicate PoolAgrees(net: Network, p: Pool, l: Ledger, height: int) {
    && Consistent(net, p)
    && |p.txs| <= MAX_MEMPOOL_TRANSACTIONS
    && forall id {:trigger Backed(net, p, p.txs[id], l, height)} ::
         id in p.txs ==> Backed(net, p, p.txs[id], l, height)
  }

  lemma EmptyPoolAgrees(net: Network, l: Ledger, height: int)
    ensures PoolAgrees(net, EMPTY_POOL, l, height)
  {
  }

  // ---------------------------------------------------------------------------------------------
  // One sender's run of nonces
  // ---------------------------------------------------------------------------------------------

  function IdsBelow(p: Pool, sender: Text, nonce: int): set<Hash> {
    set id | id in p.txs && p.txs[id].sender == sender && p.txs[id].nonce < nonce
  }

  lemma {:induction false} RunBelow(net: Network, p: Pool, sender: Text, from: int, k: nat)
    requires Consistent(net, p) && Filled(p, sender, from, from + k)
    requires forall id :: id in p.txs && p.txs[id].sender == sender ==> from <= p.txs[id].nonce
    ensures |IdsBelow(p, sender, from + k)| == k
    ensures Reserved(p, IdsBelow(p, sender, from + k)) == RunCost(p, sender, from, from + k)
  {
    hide Consistent, Reserved, IdsBelow, CostAt, Filled;
    if k == 0 {
      NothingBelow(p, sender, from);
    } else {
      FilledPart(p, sender, from, from + k);
      RunBelow(net, p, sender, from, k - 1);
      OneMoreBelow(net, p, sender, from + k - 1);
    }
  }

  lemma NothingBelow(p: Pool, sender: Text, from: int)
    requires forall id :: id in p.txs && p.txs[id].sender == sender ==> from <= p.txs[id].nonce
    ensures |IdsBelow(p, sender, from)| == 0 && Reserved(p, IdsBelow(p, sender, from)) == 0
  {
    assert IdsBelow(p, sender, from) == {};
  }

  lemma FilledPart(p: Pool, sender: Text, from: int, end: int)
    requires Filled(p, sender, from, end) && from < end
    ensures Filled(p, sender, from, end - 1) && Slot(sender, end - 1) in p.slots
  {
  }

  lemma OneMoreBelow(net: Network, p: Pool, sender: Text, nonce: int)
    requires Consistent(net, p) && Slot(sender, nonce) in p.slots
    ensures var below, all := IdsBelow(p, sender, nonce), IdsBelow(p, sender, nonce + 1);
            && |all| == |below| + 1
            && Reserved(p, all) == Reserved(p, below) + CostAt(p, Slot(sender, nonce))
  {
    var top := p.slots[Slot(sender, nonce)];
    var below, all := IdsBelow(p, sender, nonce), IdsBelow(p, sender, nonce + 1);
    forall id | id in all
      ensures id in below + {top}
    {
      assert p.txs[id].nonce == nonce ==> SlotOf(p.txs[id]) == Slot(sender, nonce);
    }
    assert all == below + {top};
    ReservedSplits(p, all, top);
    assert all - {top} == below;
  }

  /** Under the invariant a sender's pending transactions are exactly one run of nonces starting at
      the account's nonce. */
  lemma {:induction false} SenderRunFrom(net: Network, p: Pool, l: Ledger, height: int, sender: Text, k: nat)
    returns (m: nat)
    requires PoolAgrees(net, p, l, height) && k <= MAX_PENDING_PER_SENDER
    requires Filled(p, sender, AccountAt(l, sender).nonce, AccountAt(l, sender).nonce + k)
    ensures var from := AccountAt(l, sender).nonce;
            && k <= m <= MAX_PENDING_PER_SENDER && Filled(p, sender, from, from + m)
            && Slot(sender, from + m) !in p.slots
            && SenderIds(p, sender) == IdsBelow(p, sender, from + m)
            && |SenderIds(p, sender)| == m
            && Reserved(p, SenderIds(p, sender)) == RunCost(p, sender, from, from + m)
    decreases MAX_PENDING_PER_SENDER - k
  {
    var from := AccountAt(l, sender).nonce;
    if Slot(sender, from + k) in p.slots {
      var id := p.slots[Slot(sender, from + k)];
      assert Backed(net, p, p.txs[id], l, height);
      m := SenderRunFrom(net, p, l, height, sender, k + 1);
    } else {
      m := k;
      forall id | id in SenderIds(p, sender) ensures from <= p.txs[id].nonce < from + m {
        assert Backed(net, p, p.txs[id], l, height);
      }
      assert SenderIds(p, sender) == IdsBelow(p, sender, from + m);
      RunBelow(net, p, sender, from, m);
    }
  }

  lemma SenderRun(net: Network, p: Pool, l: Ledger, height: int, sender: Text) returns (m: nat)
    requires PoolAgrees(net, p, l, height)
    ensures var from := AccountAt(l, sender).nonce;
            && m <= MAX_PENDING_PER_SENDER && Filled(p, sender, from, from + m)
            && Slot(sender, from + m) !in p.slots
            && SenderIds(p, sender) == IdsBelow(p, sender, from + m)
            && |SenderIds(p, sender)| == m
            && Reserved(p, SenderIds(p, sender)) == RunCost(p, sender, from, from + m)
  {
    m := SenderRunFrom(net, p, l, height, sender, 0);
  }

  /** What the invariant promises a sender: at most 64 pending transactions, together covered by
      the confirmed balance. */
  lemma SenderIsCovered(net: Network, p: Pool, l: Ledger, height: int, sender: Text)
    requires PoolAgrees(net, p, l, height)
    ensures |SenderIds(p, sender)| <= MAX_PENDING_PER_SENDER
    ensures Reserved(p, SenderIds(p, sender)) <= AccountAt(l, sender).balance
  {
    var from := AccountAt(l, sender).nonce;
    var m := SenderRun(net, p, l, height, sender);
    if m > 0 {
      assert Slot(sender, from + m - 1) in p.slots;
      assert Backed(net, p, p.txs[p.slots[Slot(sender, from + m - 1)]], l, height);
    }
  }

  lemma {:induction false} RunCostDependsOnSlots(p: Pool, q: Pool, sender: Text, from: int, end: int)
    requires forall n {:trigger Slot(sender, n)} ::
               from <= n < end ==> CostAt(p, Slot(sender, n)) == CostAt(q, Slot(sender, n))
    ensures RunCost(p, sender, from, end) == RunCost(q, sender, from, end)
    decreases end - from
  {
    if from < end {
      RunCostDependsOnSlots(p, q, sender, from, end - 1);
    }
  }

  lemma {:induction false} RunCostSplitsFirst(p: Pool, sender: Text, from: int, end: int)
    requires from < end
    ensures RunCost(p, sender, from, end) == CostAt(p, Slot(sender, from)) + RunCost(p, sender, from + 1, end)
    decreases end - from
  {
    if from + 1 < end {
      RunCostSplitsFirst(p, sender, from, end - 1);
    }
  }

  // ---------------------------------------------------------------------------------------------
  // Admission keeps the invariant
  // ---------------------------------------------------------------------------------------------

  lemma WithIsConsistent(net: Network, p: Pool, tx: Transaction)
    requires Consistent(net, p) && net.txid(tx) !in p.txs && SlotOf(tx) !in p.slots
    ensures Consistent(net, With(net, p, tx))
    ensures forall k :: k != SlotOf(tx) ==> CostAt(With(net, p, tx), k) == CostAt(p, k)
    ensures CostAt(With(net, p, tx), SlotOf(tx)) == Cost(tx)
  {
  }

  lemma StillBacked(net: Network, p: Pool, tx: Transaction, other: Transaction, l: Ledger, height: int)
    requires Consistent(net, p) && net.txid(tx) !in p.txs && SlotOf(tx) !in p.slots
    requires Backed(net, p, other, l, height)
    ensures Backed(net, With(net, p, tx), other, l, height)
  {
    hide ValidAt, RunCost;
    WithIsConsistent(net, p, tx);
    RunCostDependsOnSlots(p, With(net, p, tx), other.sender, AccountAt(l, other.sender).nonce, other.nonce + 1);
  }

  lemma NewlyBacked(net: Network, p: Pool, tx: Transaction, l: Ledger, height: int)
    requires PoolAgrees(net, p, l, height) && Admission(net, p, tx, l, height).Pass?
    ensures Backed(net, With(net, p, tx), tx, l, height)
  {
    hide ValidAt, FirstBrokenRule, Reserved, Backed, RunCost, Consistent, AccountAt, Filled, With;
    var q, from := With(net, p, tx), AccountAt(l, tx.sender).nonce;
    var m := SenderRun(net, p, l, height, tx.sender);
    WithIsConsistent(net, p, tx);
    RunCostDependsOnSlots(p, q, tx.sender, from, tx.nonce);
    FilledByOneMore(net, p, tx, from);
    BackedBy(net, q, tx, l, height);
  }

  lemma FilledByOneMore(net: Network, p: Pool, tx: Transaction, from: int)
    requires Filled(p, tx.sender, from, tx.nonce)
    ensures Filled(With(net, p, tx), tx.sender, from, tx.nonce + 1)
  {
  }

  lemma BackedBy(net: Network, p: Pool, tx: Transaction, l: Ledger, height: int)
    requires var account := AccountAt(l, tx.sender);
             && ValidAt(net, tx, height) && net.txid(tx) !in l.confirmed
             && account.nonce <= tx.nonce < account.nonce + MAX_PENDING_PER_SENDER
             && Filled(p, tx.sender, account.nonce, tx.nonce + 1)
             && RunCost(p, tx.sender, account.nonce, tx.nonce) + CostAt(p, SlotOf(tx)) <= account.balance
    ensures Backed(net, p, tx, l, height)
  {
  }

  /** An admitted transaction extends its sender's run by one and is paid for. */
  lemma AdmissionKeepsAgreement(net: Network, p: Pool, tx: Transaction, l: Ledger, height: int)
    requires PoolAgrees(net, p, l, height) && Admission(net, p, tx, l, height).Pass?
    ensures PoolAgrees(net, With(net, p, tx), l, height)
  {
    hide Reserved, FirstBrokenRule, ValidAt, Backed, Consistent;
    var q := With(net, p, tx);
    WithIsConsistent(net, p, tx);
    NewlyBacked(net, p, tx, l, height);
    forall id | id in p.txs ensures Backed(net, q, p.txs[id], l, height) {
      assert Backed(net, p, p.txs[id], l, height);
      StillBacked(net, p, tx, p.txs[id], l, height);
    }
    assert q.txs.Keys == p.txs.Keys + {net.txid(tx)};
  }

  /** Under the invariant the nonce the pool asks for is the first free one of the sender's run, so
      admission never sees a slot conflict: it is a gap, a duplicate or the next nonce. */
  lemma AdmittedNonceIsNext(net: Network, p: Pool, tx: Transaction, l: Ledger, height: int)
    requires PoolAgrees(net, p, l, height)
    ensures Admission(net, p, tx, l, height).Pass? ==>
              && tx.nonce == AccountAt(l, tx.sender).nonce + |SenderIds(p, tx.sender)|
              && RunCost(p, tx.sender, AccountAt(l, tx.sender).nonce, tx.nonce) + Cost(tx)
                 <= AccountAt(l, tx.sender).balance
    ensures SlotOf(tx) in p.slots <==>
              0 <= tx.nonce - AccountAt(l, tx.sender).nonce < |SenderIds(p, tx.sender)|
  {
    var m := SenderRun(net, p, l, height, tx.sender);
    var from := AccountAt(l, tx.sender).nonce;
    if SlotOf(tx) in p.slots {
      var id := p.slots[SlotOf(tx)];
      assert id in SenderIds(p, tx.sender);
      assert Backed(net, p, p.txs[id], l, height);
    }
  }

  /** An offer is harmless: accepted or refused, the pool still agrees with the ledger. */
  lemma OfferKeepsAgreement(net: Network, p: Pool, tx: Transaction, l: Ledger, height: int)
    requires PoolAgrees(net, p, l, height)
    ensures PoolAgrees(net, Offer(net, p, tx, l, height), l, height)
  {
    hide Admission;
    if Admission(net, p, tx, l, height).Pass? {
      AdmissionKeepsAgreement(net, p, tx, l, height);
    }
  }

  /** Offers a whole list in order. */
  ghost function OfferAll(net: Network, p: Pool, txs: seq<Transaction>, l: Ledger, height: int): Pool {
    if txs == [] then p
    else Offer(net, OfferAll(net, p, txs[..|txs| - 1], l, height), txs[|txs| - 1], l, height)
  }

  lemma {:induction false} OfferAllKeepsAgreement(net: Network, p: Pool, txs: seq<Transaction>,
                                                  l: Ledger, height: int)
    requires PoolAgrees(net, p, l, height)
    ensures PoolAgrees(net, OfferAll(net, p, txs, l, height), l, height)
  {
    if txs != [] {
      OfferAllKeepsAgreement(net, p, txs[..|txs| - 1], l, height);
      OfferKeepsAgreement(net, OfferAll(net, p, txs[..|txs| - 1], l, height), txs[|txs| - 1], l, height);
    }
  }

  // ---------------------------------------------------------------------------------------------
  // Executing a head
  // ---------------------------------------------------------------------------------------------

  /** A sender's head: the pending transaction with the account's next nonce. */
  predicate IsHead(l: Ledger, tx: Transaction) {
    tx.nonce == AccountAt(l, tx.sender).nonce
  }

  /** Every head the pool holds executes, except one whose nonce is the last of its range. */
  lemma HeadIsExecutable(net: Network, p: Pool, tx: Transaction, l: Ledger, height: int)
    requires Backed(net, p, tx, l, height) && IsHead(l, tx)
    requires SlotOf(tx) in p.slots && p.slots[SlotOf(tx)] in p.txs && p.txs[p.slots[SlotOf(tx)]] == tx
    ensures Executable(net, l, tx, height) <==> tx.nonce != U64_MAX
    ensures tx.nonce == U64_MAX ==> Check(net, l, tx, height) == Fail(NonceExhausted)
  {
    hide FirstBrokenRule;
    assert RunCost(p, tx.sender, tx.nonce, tx.nonce) == 0;
  }

  /** What an executed head leaves every other account with. */
  lemma OtherAccountsOnlyGain(net: Network, l: Ledger, tx: Transaction, height: int, a: Text)
    requires ApplyOne(net, l, tx, height).Ok?
    ensures var l' := ApplyOne(net, l, tx, height).value;
            && AccountAt(l', a).nonce == AccountAt(l, a).nonce + (if a == tx.sender then 1 else 0)
            && AccountAt(l', a).balance
               >= AccountAt(l, a).balance - (if a == tx.sender then Cost(tx) else 0)
  {
  }

  /** Executing a head and dropping it leaves a pool that agrees with the new ledger. */
  lemma HeadLeavesAgreement(net: Network, p: Pool, id: Hash, l: Ledger, height: int)
    requires PoolAgrees(net, p, l, height) && id in p.txs && IsHead(l, p.txs[id])
    requires ApplyOne(net, l, p.txs[id], height).Ok?
    ensures PoolAgrees(net, Without(p, id), ApplyOne(net, l, p.txs[id], height).value, height)
  {
    hide ApplyOne, ValidAt, Backed;
    var tx, q := p.txs[id], Without(p, id);
    var l' := ApplyOne(net, l, tx, height).value;
    WithoutIsConsistent(net, p, id);
    forall other | other in q.txs ensures Backed(net, q, q.txs[other], l', height) {
      assert Backed(net, p, p.txs[other], l, height);
      BackedAfterHead(net, p, id, p.txs[other], l, height);
    }
  }

  lemma WithoutIsConsistent(net: Network, p: Pool, id: Hash)
    requires Consistent(net, p)
    ensures Consistent(net, Without(p, id))
    ensures id in p.txs ==> |Without(p, id).txs| == |p.txs| - 1
    ensures id in p.txs ==> forall k :: k != SlotOf(p.txs[id]) ==> CostAt(Without(p, id), k) == CostAt(p, k)
  {
    if id in p.txs {
      assert Without(p, id).txs.Keys == p.txs.Keys - {id};
    }
  }

  lemma BackedAfterHead(net: Network, p: Pool, id: Hash, other: Transaction, l: Ledger, height: int)
    requires Consistent(net, p) && id in p.txs && IsHead(l, p.txs[id])
    requires ApplyOne(net, l, p.txs[id], height).Ok?
    requires Backed(net, p, other, l, height) && net.txid(other) != id && SlotOf(other) != SlotOf(p.txs[id])
    ensures Backed(net, Without(p, id), other, ApplyOne(net, l, p.txs[id], height).value, height)
  {
    hide Consistent, ValidAt, ApplyOne, RunCost, AccountAt;
    var tx, q := p.txs[id], Without(p, id);
    var l' := ApplyOne(net, l, tx, height).value;
    var before, after := AccountAt(l, other.sender).nonce, AccountAt(l', other.sender).nonce;
    TransferAccounts(net, l, tx, height);
    OtherAccountsOnlyGain(net, l, tx, height, other.sender);
    WithoutIsConsistent(net, p, id);
    RunCostDependsOnSlots(p, q, other.sender, after, other.nonce + 1);
    CostAtOwnSlot(net, p, id);
    if other.sender == tx.sender {
      RunCostSplitsFirst(p, other.sender, before, other.nonce + 1);
    }
  }

  lemma CostAtOwnSlot(net: Network, p: Pool, id: Hash)
    requires Consistent(net, p) && id in p.txs
    ensures CostAt(p, SlotOf(p.txs[id])) == Cost(p.txs[id]) && net.txid(p.txs[id]) == id
  {
  }

  // ---------------------------------------------------------------------------------------------
  // What is left of the pool while a block is being filled
  // ---------------------------------------------------------------------------------------------

  /** The pending transactions a ledger has not executed yet. */
  function Rest(p: Pool, l: Ledger): Pool {
    Pool(map id | id in p.txs && AccountAt(l, p.txs[id].sender).nonce <= p.txs[id].nonce :: p.txs[id],
         map k | k in p.slots && AccountAt(l, k.sender).nonce <= k.nonce :: p.slots[k])
  }

  lemma RestOfAgreeingPool(net: Network, p: Pool, l: Ledger, height: int)
    requires PoolAgrees(net, p, l, height)
    ensures Rest(p, l) == p
  {
    forall id | id in p.txs ensures AccountAt(l, p.txs[id].sender).nonce <= p.txs[id].nonce {
      assert Backed(net, p, p.txs[id], l, height);
    }
    assert Rest(p, l).txs == p.txs;
    forall k | k in p.slots ensures AccountAt(l, k.sender).nonce <= k.nonce {
      assert SlotOf(p.txs[p.slots[k]]) == k;
    }
    assert Rest(p, l).slots == p.slots;
  }

  /** Executing a head takes exactly that transaction out of the rest. */
  lemma RestAfterHead(net: Network, p: Pool, id: Hash, l: Ledger, height: int)
    requires Consistent(net, p) && id in p.txs && IsHead(l, p.txs[id])
    requires ApplyOne(net, l, p.txs[id], height).Ok?
    ensures Rest(p, ApplyOne(net, l, p.txs[id], height).value) == Without(Rest(p, l), id)
  {
    var tx, l' := p.txs[id], ApplyOne(net, l, p.txs[id], height).value;
    TransferAccounts(net, l, tx, height);
    RestAfterNonce(net, p, id, l, l');
  }

  lemma RestAfterNonce(net: Network, p: Pool, id: Hash, l: Ledger, l': Ledger)
    requires Consistent(net, p) && id in p.txs && IsHead(l, p.txs[id])
    requires forall a :: AccountAt(l', a).nonce
                      == AccountAt(l, a).nonce + if a == p.txs[id].sender then 1 else 0
    ensures Rest(p, l') == Without(Rest(p, l), id)
  {
    hide AccountAt;
    var tx, r, r' := p.txs[id], Without(Rest(p, l), id), Rest(p, l');
    assert id in Rest(p, l).txs;
    forall other ensures other in r.txs <==> other in r'.txs {
      if other in p.txs && other != id {
        assert SlotOf(p.txs[other]) != SlotOf(tx);
      }
    }
    assert r.txs == r'.txs;
    forall k ensures k in r.slots <==> k in r'.slots {
      assert k.sender == tx.sender && k.nonce == tx.nonce ==> k == SlotOf(tx);
    }
    assert r.slots == r'.slots;
  }

  /** The transactions of the pool that can be mined at all: those whose nonce is not the last of
      its 64-bit range, which `state.py` never lets an account use up. */
  function Minable(p: Pool): set<Hash> {
    set id | id in p.txs && p.txs[id].nonce != U64_MAX
  }

  /** As long as anything minable is left, some sender's head is executable. */
  lemma SomeHeadIsExecutable(net: Network, p: Pool, l: Ledger, height: int, id: Hash)
    requires PoolAgrees(net, p, l, height) && id in Minable(p)
    ensures var head := Slot(p.txs[id].sender, AccountAt(l, p.txs[id].sender).nonce);
            && head in p.slots && p.slots[head] in p.txs
            && IsHead(l, p.txs[p.slots[head]])
            && Executable(net, l, p.txs[p.slots[head]], height)
  {
    hide Executable;
    var account := AccountAt(l, p.txs[id].sender);
    assert Backed(net, p, p.txs[id], l, height);
    var head := Slot(p.txs[id].sender, account.nonce);
    assert head in p.slots;
    assert Backed(net, p, p.txs[p.slots[head]], l, height);
    HeadIsExecutable(net, p, p.txs[p.slots[head]], l, height);
  }

  // ---------------------------------------------------------------------------------------------
  // Revalidation
  // ---------------------------------------------------------------------------------------------

  /** What revalidation against a new ledger keeps: a transaction survives exactly when every
      pending transaction of its sender from the account's nonce up to it is present, valid and
      unconfirmed, and the balance pays for all of them. */
  ghost predicate Survives(net: Network, p: Pool, tx: Transaction, l: Ledger, height: int) {
    var account := AccountAt(l, tx.sender);
    && account.nonce != U64_MAX
    && account.nonce <= tx.nonce < account.nonce + MAX_PENDING_PER_SENDER
    && (forall n :: account.nonce <= n <= tx.nonce ==>
          SurvivesAt(net, p, tx.sender, account, n, l, height))
  }

  ghost predicate SurvivesAt(net: Network, p: Pool, sender: Text, account: Account, n: int, l: Ledger,
                             height: int)
  {
    var k := Slot(sender, n);
    && k in p.slots && p.slots[k] in p.txs
    && ValidAt(net, p.txs[p.slots[k]], height)
    && net.txid(p.txs[p.slots[k]]) !in l.confirmed
    && RunCost(p, sender, account.nonce, n + 1) <= account.balance
  }

  ghost function Revalidated(net: Network, p: Pool, l: Ledger, height: int): Pool {
    Pool(map id | id in p.txs && Survives(net, p, p.txs[id], l, height) :: p.txs[id],
         map k | k in p.slots && p.slots[k] in p.txs && Survives(net, p, p.txs[p.slots[k]], l, height)
           :: p.slots[k])
  }

  /** What survives agrees with the new ledger. */
  lemma RevalidatedAgrees(net: Network, p: Pool, l: Ledger, height: int)
    requires Consistent(net, p) && |p.txs| <= MAX_MEMPOOL_TRANSACTIONS
    ensures PoolAgrees(net, Revalidated(net, p, l, height), l, height)
  {
    hide Survives, Backed;
    var q := Revalidated(net, p, l, height);
    assert q.txs.Keys <= p.txs.Keys;
    SubsetSize(q.txs.Keys, p.txs.Keys);
    forall id | id in q.txs ensures Backed(net, q, q.txs[id], l, height) {
      SurvivorIsBacked(net, p, p.txs[id], l, height);
    }
  }

  lemma SurvivorIsBacked(net: Network, p: Pool, tx: Transaction, l: Ledger, height: int)
    requires Consistent(net, p) && net.txid(tx) in p.txs && p.txs[net.txid(tx)] == tx
    requires Survives(net, p, tx, l, height)
    ensures Backed(net, Revalidated(net, p, l, height), tx, l, height)
  {
    hide ValidAt, RunCost;
    var q, account := Revalidated(net, p, l, height), AccountAt(l, tx.sender);
    forall n {:trigger Slot(tx.sender, n)} | account.nonce <= n <= tx.nonce
      ensures Slot(tx.sender, n) in q.slots && CostAt(q, Slot(tx.sender, n)) == CostAt(p, Slot(tx.sender, n))
    {
      var k := Slot(tx.sender, n);
      assert SurvivesAt(net, p, tx.sender, account, n, l, height);
      var before := p.txs[p.slots[k]];
      assert SlotOf(before) == k;
      assert Survives(net, p, before, l, height);
    }
    RunCostDependsOnSlots(q, p, tx.sender, account.nonce, tx.nonce + 1);
    assert SurvivesAt(net, p, tx.sender, account, tx.nonce, l, height);
    assert Slot(tx.sender, tx.nonce) == SlotOf(tx);
  }

  lemma {:induction false} SubsetSize<T>(a: set<T>, b: set<T>)
    requires a <= b
    ensures |a| <= |b|
  {
    if a != {} {
      var x :| x in a;
      SubsetSize(a - {x}, b - {x});
    }
  }

  lemma {:induction false} WithoutAllIsConsistent(net: Network, p: Pool, txs: seq<Transaction>)
    requires Consistent(net, p)
    ensures Consistent(net, WithoutAll(net, p, txs)) && |WithoutAll(net, p, txs).txs| <= |p.txs|
  {
    if txs != [] {
      WithoutAllIsConsistent(net, p, txs[..|txs| - 1]);
      WithoutIsConsistent(net, WithoutAll(net, p, txs[..|txs| - 1]), net.txid(txs[|txs| - 1]));
    }
  }

  /** A listing of the pool in which each sender's nonces increase. */
  ghost predicate ListsPool(net: Network, p: Pool, order: seq<Transaction>) {
    && (forall i :: 0 <= i < |order| ==> net.txid(order[i]) in p.txs && p.txs[net.txid(order[i])] == order[i])
    && (forall id :: id in p.txs ==> p.txs[id] in order)
    && (forall i, j :: 0 <= i < j < |order| && order[i].sender == order[j].sender ==>
          order[i].nonce < order[j].nonce)
  }

  /** The survivors among the first `i` of a listing. */
  ghost predicate SurvivorsSoFar(net: Network, p: Pool, order: seq<Transaction>, i: nat, q: Pool,
                                 l: Ledger, height: int)
    requires i <= |order|
  {
    && Consistent(net, q)
    && (forall j :: 0 <= j < i ==>
          (net.txid(order[j]) in q.txs <==> Survives(net, p, order[j], l, height)))
    && (forall id :: id in q.txs ==> id in p.txs && q.txs[id] == p.txs[id] && InFirst(net, order, i, id))
  }

  ghost predicate InFirst(net: Network, order: seq<Transaction>, i: nat, id: Hash)
    requires i <= |order|
  {
    exists j :: 0 <= j < i && net.txid(order[j]) == id
  }

  /** The pool built so far is part of the old one and has no room taken by the next transaction. */
  lemma PartOfPool(net: Network, p: Pool, order: seq<Transaction>, i: nat, q: Pool, l: Ledger, height: int)
    requires Consistent(net, p) && |p.txs| <= MAX_MEMPOOL_TRANSACTIONS && ListsPool(net, p, order)
    requires i < |order| && SurvivorsSoFar(net, p, order, i, q, l, height)
    ensures net.txid(order[i]) !in q.txs && SlotOf(order[i]) !in q.slots
    ensures |q.txs| < MAX_MEMPOOL_TRANSACTIONS
    ensures forall k :: k in q.slots ==> k in p.slots && p.slots[k] == q.slots[k] && CostAt(p, k) == CostAt(q, k)
    ensures forall k :: k in q.slots ==>
              q.slots[k] in q.txs && q.slots[k] in p.txs && p.txs[p.slots[k]] == q.txs[q.slots[k]]
  {
    hide Survives;
    var id := net.txid(order[i]);
    DistinctListing(net, p, order, i);
    forall other | other in q.txs ensures other != id {
      assert InFirst(net, order, i, other);
    }
    assert q.txs.Keys <= p.txs.Keys - {id};
    SubsetSize(q.txs.Keys, p.txs.Keys - {id});
    assert |p.txs.Keys - {id}| == |p.txs.Keys| - 1;
  }

  lemma AdmittedSurvives(net: Network, p: Pool, order: seq<Transaction>, i: nat, q: Pool, l: Ledger, height: int)
    requires Consistent(net, p) && |p.txs| <= MAX_MEMPOOL_TRANSACTIONS && ListsPool(net, p, order)
    requires i < |order| && SurvivorsSoFar(net, p, order, i, q, l, height) && PoolAgrees(net, q, l, height)
    requires Admission(net, q, order[i], l, height).Pass?
    ensures Survives(net, p, order[i], l, height)
  {
    hide Reserved, ListsPool, SurvivorsSoFar, SurvivesAt, Backed, RunCost, ValidAt, Consistent;
    var tx := order[i];
    var account := AccountAt(l, tx.sender);
    PartOfPool(net, p, order, i, q, l, height);
    AdmittedNonceIsNext(net, q, tx, l, height);
    Listed(net, p, order, i);
    var m := SenderRun(net, q, l, height, tx.sender);
    forall n | account.nonce <= n <= tx.nonce
      ensures SurvivesAt(net, p, tx.sender, account, n, l, height)
    {
      if n < tx.nonce {
        assert Slot(tx.sender, n) in q.slots;
        PendingSurvives(net, p, q, tx.sender, n, l, height);
      } else {
        AdmittedSurvivesAt(net, p, q, tx, l, height);
      }
    }
  }

  lemma PendingSurvives(net: Network, p: Pool, q: Pool, sender: Text, n: int, l: Ledger, height: int)
    requires Consistent(net, p) && PoolAgrees(net, q, l, height)
    requires forall k :: k in q.slots ==> k in p.slots && p.slots[k] == q.slots[k] && CostAt(p, k) == CostAt(q, k)
    requires Slot(sender, n) in q.slots && q.slots[Slot(sender, n)] in q.txs
    requires p.slots[Slot(sender, n)] in p.txs && p.txs[p.slots[Slot(sender, n)]] == q.txs[q.slots[Slot(sender, n)]]
    ensures SurvivesAt(net, p, sender, AccountAt(l, sender), n, l, height)
  {
    assert Backed(net, q, q.txs[q.slots[Slot(sender, n)]], l, height);
    RunCostDependsOnSlots(q, p, sender, AccountAt(l, sender).nonce, n + 1);
  }

  lemma AdmittedSurvivesAt(net: Network, p: Pool, q: Pool, tx: Transaction, l: Ledger, height: int)
    requires Consistent(net, p) && PoolAgrees(net, q, l, height) && Admission(net, q, tx, l, height).Pass?
    requires forall k :: k in q.slots ==> k in p.slots && p.slots[k] == q.slots[k] && CostAt(p, k) == CostAt(q, k)
    requires net.txid(tx) in p.txs && p.txs[net.txid(tx)] == tx
    ensures SurvivesAt(net, p, tx.sender, AccountAt(l, tx.sender), tx.nonce, l, height)
  {
    hide Reserved;
    AdmittedNonceIsNext(net, q, tx, l, height);
    var m := SenderRun(net, q, l, height, tx.sender);
    RunCostDependsOnSlots(q, p, tx.sender, AccountAt(l, tx.sender).nonce, tx.nonce);
    assert Slot(tx.sender, tx.nonce) == SlotOf(tx);
  }

  lemma Listed(net: Network, p: Pool, order: seq<Transaction>, i: nat)
    requires ListsPool(net, p, order) && i < |order|
    ensures net.txid(order[i]) in p.txs && p.txs[net.txid(order[i])] == order[i]
  {
  }

  /** The predecessors of a survivor have survived and come before it. */
  lemma PredecessorsAreIn(net: Network, p: Pool, order: seq<Transaction>, i: nat, q: Pool, l: Ledger, height: int)
    requires Consistent(net, p) && ListsPool(net, p, order)
    requires i < |order| && SurvivorsSoFar(net, p, order, i, q, l, height)
    requires Survives(net, p, order[i], l, height)
    ensures Filled(q, order[i].sender, AccountAt(l, order[i].sender).nonce, order[i].nonce)
  {
    hide ValidAt, RunCost, Backed, AccountAt;
    var tx := order[i];
    var account := AccountAt(l, tx.sender);
    forall n {:trigger Slot(tx.sender, n)} | account.nonce <= n < tx.nonce
      ensures Slot(tx.sender, n) in q.slots
    {
      var k := Slot(tx.sender, n);
      assert SurvivesAt(net, p, tx.sender, account, n, l, height);
      var before := p.txs[p.slots[k]];
      assert SlotOf(before) == k;
      assert Survives(net, p, before, l, height);
      var j :| 0 <= j < |order| && order[j] == before;
      assert j < i;
      assert net.txid(before) in q.txs;
    }
  }

  /** If all of a sender's nonces below that of a transaction are pending and its own is free, they are the
      sender's whole run. */
  lemma PredecessorsAreAll(net: Network, q: Pool, tx: Transaction, l: Ledger, height: int)
    requires PoolAgrees(net, q, l, height) && SlotOf(tx) !in q.slots
    requires AccountAt(l, tx.sender).nonce <= tx.nonce
    requires Filled(q, tx.sender, AccountAt(l, tx.sender).nonce, tx.nonce)
    ensures var from := AccountAt(l, tx.sender).nonce;
            && |SenderIds(q, tx.sender)| == tx.nonce - from
            && Reserved(q, SenderIds(q, tx.sender)) == RunCost(q, tx.sender, from, tx.nonce)
  {
    hide PoolAgrees, Reserved, RunCost;
    var from := AccountAt(l, tx.sender).nonce;
    var m := SenderRun(net, q, l, height, tx.sender);
    assert Slot(tx.sender, from + m) !in q.slots;
    assert Slot(tx.sender, tx.nonce) == SlotOf(tx);
  }

  lemma SurvivorIsAdmitted(net: Network, p: Pool, order: seq<Transaction>, i: nat, q: Pool, l: Ledger, height: int)
    requires Consistent(net, p) && |p.txs| <= MAX_MEMPOOL_TRANSACTIONS && ListsPool(net, p, order)
    requires i < |order| && SurvivorsSoFar(net, p, order, i, q, l, height) && PoolAgrees(net, q, l, height)
    requires Survives(net, p, order[i], l, height)
    ensures Admission(net, q, order[i], l, height).Pass?
  {
    hide Reserved, SurvivorsSoFar, PoolAgrees;
    var tx := order[i];
    var account := AccountAt(l, tx.sender);
    var from := account.nonce;
    PartOfPool(net, p, order, i, q, l, height);
    PredecessorsAreIn(net, p, order, i, q, l, height);
    PredecessorsAreAll(net, q, tx, l, height);
    RunCostDependsOnSlots(q, p, tx.sender, from, tx.nonce);
    assert SurvivesAt(net, p, tx.sender, account, tx.nonce, l, height) by {
      assert Slot(tx.sender, tx.nonce) == SlotOf(tx);
    }
    CostAtOwnSlot(net, p, net.txid(tx));
  }

  lemma SurvivorStep(net: Network, p: Pool, order: seq<Transaction>, i: nat, q: Pool, l: Ledger, height: int)
    requires Consistent(net, p) && |p.txs| <= MAX_MEMPOOL_TRANSACTIONS && ListsPool(net, p, order)
    requires i < |order| && SurvivorsSoFar(net, p, order, i, q, l, height) && PoolAgrees(net, q, l, height)
    ensures SurvivorsSoFar(net, p, order, i + 1, Offer(net, q, order[i], l, height), l, height)
  {
    hide Admission, Survives, SurvivorsSoFar, Consistent, Backed;
    var tx := order[i];
    PartOfPool(net, p, order, i, q, l, height);
    if Admission(net, q, tx, l, height).Pass? {
      AdmittedSurvives(net, p, order, i, q, l, height);
      WithIsConsistent(net, q, tx);
      OneMoreSurvivor(net, p, order, i, q, l, height);
    } else {
      if Survives(net, p, tx, l, height) {
        SurvivorIsAdmitted(net, p, order, i, q, l, height);
      }
      NoMoreSurvivor(net, p, order, i, q, l, height);
    }
  }

  lemma OneMoreSurvivor(net: Network, p: Pool, order: seq<Transaction>, i: nat, q: Pool, l: Ledger, height: int)
    requires ListsPool(net, p, order) && i < |order| && SurvivorsSoFar(net, p, order, i, q, l, height)
    requires Survives(net, p, order[i], l, height) && Consistent(net, With(net, q, order[i]))
    ensures SurvivorsSoFar(net, p, order, i + 1, With(net, q, order[i]), l, height)
  {
    hide Survives, Consistent, ListsPool;
    var q' := With(net, q, order[i]);
    DistinctListing(net, p, order, i);
    Listed(net, p, order, i);
    forall id | id in q'.txs ensures InFirst(net, order, i + 1, id) {
      assert id in q.txs ==> InFirst(net, order, i, id);
      assert id == net.txid(order[i]) || id in q.txs;
    }
  }

  lemma NoMoreSurvivor(net: Network, p: Pool, order: seq<Transaction>, i: nat, q: Pool, l: Ledger, height: int)
    requires ListsPool(net, p, order) && i < |order| && SurvivorsSoFar(net, p, order, i, q, l, height)
    requires !Survives(net, p, order[i], l, height)
    ensures SurvivorsSoFar(net, p, order, i + 1, q, l, height)
  {
    hide Survives, Consistent, ListsPool;
    DistinctListing(net, p, order, i);
    forall id | id in q.txs ensures InFirst(net, order, i + 1, id) {
      assert InFirst(net, order, i, id);
    }
  }

  lemma DistinctListing(net: Network, p: Pool, order: seq<Transaction>, i: nat)
    requires ListsPool(net, p, order) && i < |order|
    ensures forall j :: 0 <= j < i ==> net.txid(order[j]) != net.txid(order[i])
  {
    forall j | 0 <= j < i ensures net.txid(order[j]) != net.txid(order[i]) {
      assert order[j].sender == order[i].sender ==> order[j].nonce < order[i].nonce;
    }
  }

  /** Offering the listing to an empty pool keeps exactly the survivors. */
  lemma {:induction false} RevalidationKeepsSurvivors(net: Network, p: Pool, order: seq<Transaction>,
                                                      i: nat, l: Ledger, height: int)
    requires Consistent(net, p) && |p.txs| <= MAX_MEMPOOL_TRANSACTIONS
    requires ListsPool(net, p, order) && i <= |order|
    ensures SurvivorsSoFar(net, p, order, i, OfferAll(net, EMPTY_POOL, order[..i], l, height), l, height)
    ensures PoolAgrees(net, OfferAll(net, EMPTY_POOL, order[..i], l, height), l, height)
  {
    hide Consistent, ListsPool, SurvivorsSoFar, Offer, Survives;
    OfferAllKeepsAgreement(net, EMPTY_POOL, order[..i], l, height);
    if i > 0 {
      RevalidationKeepsSurvivors(net, p, order, i - 1, l, height);
      assert order[..i][..i - 1] == order[..i - 1];
      SurvivorStep(net, p, order, i - 1, OfferAll(net, EMPTY_POOL, order[..i - 1], l, height), l, height);
    } else {
      NoSurvivorsYet(net, p, order, l, height);
    }
  }

  lemma NoSurvivorsYet(net: Network, p: Pool, order: seq<Transaction>, l: Ledger, height: int)
    ensures SurvivorsSoFar(net, p, order, 0, EMPTY_POOL, l, height)
  {
  }

  /** Revalidation re-admits a transaction exactly when it survives. */
  lemma AdmittedIffSurvives(net: Network, p: Pool, order: seq<Transaction>, i: nat, l: Ledger, height: int)
    requires Consistent(net, p) && |p.txs| <= MAX_MEMPOOL_TRANSACTIONS
    requires ListsPool(net, p, order) && i < |order|
    ensures var q := OfferAll(net, EMPTY_POOL, order[..i], l, height);
            Admission(net, q, order[i], l, height).Pass? <==> Survives(net, p, order[i], l, height)
  {
    hide Consistent, ListsPool, SurvivorsSoFar, Admission, Survives, OfferAll;
    var q := OfferAll(net, EMPTY_POOL, order[..i], l, height);
    RevalidationKeepsSurvivors(net, p, order, i, l, height);
    if Admission(net, q, order[i], l, height).Pass? {
      AdmittedSurvives(net, p, order, i, q, l, height);
    } else if Survives(net, p, order[i], l, height) {
      SurvivorIsAdmitted(net, p, order, i, q, l, height);
    }
  }

  /** So revalidation depends only on the pool and the ledger, not on the order it works in. */
  lemma RevalidationIsExact(net: Network, p: Pool, order: seq<Transaction>, l: Ledger, height: int)
    requires Consistent(net, p) && |p.txs| <= MAX_MEMPOOL_TRANSACTIONS && ListsPool(net, p, order)
    ensures OfferAll(net, EMPTY_POOL, order, l, height) == Revalidated(net, p, l, height)
    ensures PoolAgrees(net, Revalidated(net, p, l, height), l, height)
  {
    hide Survives, OfferAll, Backed, ListsPool;
    var q := OfferAll(net, EMPTY_POOL, order, l, height);
    assert order[..|order|] == order;
    RevalidationKeepsSurvivors(net, p, order, |order|, l, height);
    SurvivorsAreRevalidated(net, p, order, q, l, height);
  }

  lemma SurvivorsAreRevalidated(net: Network, p: Pool, order: seq<Transaction>, q: Pool, l: Ledger, height: int)
    requires Consistent(net, p) && ListsPool(net, p, order)
    requires SurvivorsSoFar(net, p, order, |order|, q, l, height)
    ensures q == Revalidated(net, p, l, height)
  {
    hide Survives, Consistent, InFirst;
    var r := Revalidated(net, p, l, height);
    forall id ensures id in q.txs <==> id in r.txs {
      if id in p.txs {
        var j :| 0 <= j < |order| && order[j] == p.txs[id];
        Listed(net, p, order, j);
        CostAtOwnSlot(net, p, id);
      }
    }
    assert q.txs == r.txs;
    SlotsFollowTxs(net, p, q, r.txs);
    assert q.slots == r.slots;
  }

  /** In consistent pools the slots are determined by the transactions. */
  lemma SlotsFollowTxs(net: Network, p: Pool, q: Pool, txs: map<Hash, Transaction>)
    requires Consistent(net, p) && Consistent(net, q) && q.txs == txs
    requires forall id :: id in q.txs ==> id in p.txs && p.txs[id] == q.txs[id]
    ensures q.slots == map k | k in p.slots && p.slots[k] in txs :: p.slots[k]
  {
    forall k ensures k in q.slots <==> k in p.slots && p.slots[k] in txs {
      assert k in q.slots ==> SlotOf(p.txs[q.slots[k]]) == k;
      if k in p.slots && p.slots[k] in q.txs {
        assert SlotOf(q.txs[p.slots[k]]) == k;
      }
    }
  }
}
