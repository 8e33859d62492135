/** What comes back from the blocks a reorganization leaves: exactly which of their transactions are
    pending afterwards, and with them the whole pool.

    The disconnected transactions are offered to the revalidated pool in the order of their branch, so
    the run of a sender is rebuilt nonce by nonce until something in it is refused. */
module Returning {
  import opened Types
  import opened Transactions
  import opened State
  import opened Branches
  import opened BlockTree
  import opened PendingPool
  import opened Node
  import opened Reorganizations

  // What is promised

  /** What a sender pays in a list from some nonce on. */
  function SpentFrom(txs: seq<Transaction>, sender: Text, from: int): int {
    if txs == [] then 0
    else
      var tx := txs[|txs| - 1];
      SpentFrom(txs[..|txs| - 1], sender, from)
      + if tx.sender == sender && from <= tx.nonce then tx.amount + tx.fee else 0
  }

  /** The `i`-th transaction of a branch can be pending on another ledger: its nonce is one of the next 64
      there, every transaction of its sender from the account's nonce up to it is valid and unconfirmed
      there, and the balance pays for all of them. */
  ghost predicate ComesBack(net: Network, past: seq<Transaction>, i: nat, l: Ledger, height: int)
    requires i < |past|
  {
    var tx, account := past[i], AccountAt(l, past[i].sender);
    && account.nonce != U64_MAX && account.nonce <= tx.nonce < account.nonce + 64
    && (forall j :: 0 <= j <= i && past[j].sender == tx.sender && account.nonce <= past[j].nonce ==>
          ValidAt(net, past[j], height) && net.txid(past[j]) !in l.confirmed)
    && SpentFrom(past[..i + 1], tx.sender, account.nonce) <= account.balance
  }

  /** How many of the first `k` can. */
  ghost function CountBack(net: Network, past: seq<Transaction>, k: nat, l: Ledger, height: int): nat
    requires k <= |past|
  {
    if k == 0 then 0
    else CountBack(net, past, k - 1, l, height) + if ComesBack(net, past, k - 1, l, height) then 1 else 0
  }

  // The order of a branch

  lemma {:induction false} SentGrows(past: seq<Transaction>, j: nat, i: nat, a: Text)
    requires j <= i <= |past|
    ensures SentBy(past[..j], a) <= SentBy(past[..i], a)
    ensures j < i && past[j].sender == a ==> SentBy(past[..j], a) < SentBy(past[..i], a)
    decreases i
  {
    if j < i {
      assert past[..i][..i - 1] == past[..i - 1];
      SentGrows(past, j, i - 1, a);
    }
  }

  lemma OwnNonce(past: seq<Transaction>, i: nat)
    requires NoncesCount(EMPTY_LEDGER, past) && i < |past|
    ensures past[i].nonce == SentBy(past[..i], past[i].sender)
  {
  }

  /** On a branch the nonces of a sender follow the order of its transactions. */
  lemma NoncesInOrder(past: seq<Transaction>, j: nat, i: nat)
    requires NoncesCount(EMPTY_LEDGER, past) && j < |past| && i < |past| && past[j].sender == past[i].sender
    ensures past[j].nonce < past[i].nonce <==> j < i
    ensures past[j].nonce == past[i].nonce <==> j == i
  {
    SentGrows(past, if j < i then j else i, if j < i then i else j, past[i].sender);
  }

  lemma {:induction false} NonceOnBranch(past: seq<Transaction>, i: nat, sender: Text, n: int) returns (j: nat)
    requires NoncesCount(EMPTY_LEDGER, past) && i <= |past| && 0 <= n < SentBy(past[..i], sender)
    ensures j < i && past[j].sender == sender && past[j].nonce == n
    decreases i
  {
    assert past[..i][..i - 1] == past[..i - 1];
    if n < SentBy(past[..i - 1], sender) {
      j := NonceOnBranch(past, i - 1, sender, n);
    } else {
      j := i - 1;
    }
  }

  // Offering the disconnected transactions one by one

  /** The transactions `past` of a branch, of which those before `f` are on the new branch too, meet a pool
      that agrees with the new ledger and holds only what comes after the old branch. */
  ghost predicate Meets(net: Network, k: Pool, past: seq<Transaction>, f: nat, l: Ledger, height: int) {
    && f <= |past| && NoncesCount(EMPTY_LEDGER, past) && DistinctTxids(net, past)
    && PoolAgrees(net, k, l, height)
    && (forall i, id :: 0 <= i < |past| && id in k.txs ==> net.txid(past[i]) != id)
    && (forall id :: id in k.txs ==> SentBy(past, k.txs[id].sender) <= k.txs[id].nonce)
    && (forall a :: SentBy(past[..f], a) <= AccountAt(l, a).nonce)
  }

  /** The pool after the first `n` transactions of the old branch: what was there and, of the others, those
      that come back while there is room. */
  ghost predicate Accounted(net: Network, k: Pool, q: Pool, past: seq<Transaction>, n: nat, l: Ledger, height: int)
    requires n <= |past|
  {
    && PoolAgrees(net, q, l, height)
    && |q.txs| == (if |k.txs| + CountBack(net, past, n, l, height) < 50_000
                   then |k.txs| + CountBack(net, past, n, l, height) else 50_000)
    && KeepsAll(k, q) && Sourced(k, q, past, n) && Decided(net, k, q, past, n, l, height)
  }

  ghost predicate KeepsAll(k: Pool, q: Pool) {
    forall id :: id in k.txs ==> id in q.txs && q.txs[id] == k.txs[id]
  }

  ghost predicate Sourced(k: Pool, q: Pool, past: seq<Transaction>, n: nat)
    requires n <= |past|
  {
    forall id :: id in q.txs ==> id in k.txs || exists j :: 0 <= j < n && past[j] == q.txs[id]
  }

  ghost predicate Decided(net: Network, k: Pool, q: Pool, past: seq<Transaction>, n: nat, l: Ledger, height: int)
    requires n <= |past|
  {
    forall j :: 0 <= j < n ==> (net.txid(past[j]) in q.txs <==> IsAdmitted(net, k, past, j, l, height))
  }

  ghost predicate IsAdmitted(net: Network, k: Pool, past: seq<Transaction>, j: nat, l: Ledger, height: int)
    requires j < |past|
  {
    ComesBack(net, past, j, l, height) && |k.txs| + CountBack(net, past, j, l, height) < 50_000
  }

  lemma {:induction false} NothingBackBefore(net: Network, past: seq<Transaction>, f: nat, l: Ledger, height: int,
                                             n: nat)
    requires n <= f <= |past| && NoncesCount(EMPTY_LEDGER, past)
    requires forall a :: SentBy(past[..f], a) <= AccountAt(l, a).nonce
    ensures CountBack(net, past, n, l, height) == 0
    ensures forall j :: 0 <= j < n ==> !ComesBack(net, past, j, l, height)
  {
    hide AccountAt, ValidAt, SpentFrom, SentBy, NoncesCount;
    if n > 0 {
      NothingBackBefore(net, past, f, l, height, n - 1);
      SentGrows(past, n - 1, f, past[n - 1].sender);
      OwnNonce(past, n - 1);
    }
  }

  lemma {:induction false} CountGrows(net: Network, past: seq<Transaction>, j: nat, i: nat, l: Ledger, height: int)
    requires j <= i <= |past|
    ensures CountBack(net, past, j, l, height) <= CountBack(net, past, i, l, height)
    decreases i
  {
    hide ComesBack;
    if j < i {
      CountGrows(net, past, j, i - 1, l, height);
    }
  }

  /** What occupies a slot below the old branch's end is that branch's own transaction. */
  lemma HolderOfSlot(net: Network, k: Pool, q: Pool, past: seq<Transaction>, f: nat, n: nat, l: Ledger, height: int,
                     i: nat)
    requires Meets(net, k, past, f, l, height) && n <= |past| && Accounted(net, k, q, past, n, l, height) && i < |past|
    ensures SlotOf(past[i]) in q.slots ==>
              i < n && q.slots[SlotOf(past[i])] == net.txid(past[i]) && IsPendingIn(net, q, past[i])
    ensures net.txid(past[i]) in q.txs ==> i < n && IsPendingIn(net, q, past[i])
  {
    hide Meets, Accounted, PoolAgrees, NoncesCount, Sourced;
    Agreement(net, k, q, past, f, n, l, height);
    if SlotOf(past[i]) in q.slots {
      var id := q.slots[SlotOf(past[i])];
      SlotHolder(net, q, SlotOf(past[i]), l, height);
      var j := SourceOf(net, k, q, past, f, n, l, height, id, i);
      NoncesInOrder(past, j, i);
    }
    if net.txid(past[i]) in q.txs {
      var j := SourceOf(net, k, q, past, f, n, l, height, net.txid(past[i]), i);
      IdentifierHolder(net, q, net.txid(past[i]), l, height);
      OneIdentifier(net, k, past, f, l, height, j, i);
    }
  }

  lemma SlotHolder(net: Network, q: Pool, slot: Slot, l: Ledger, height: int)
    requires PoolAgrees(net, q, l, height) && slot in q.slots
    ensures q.slots[slot] in q.txs && SlotOf(q.txs[q.slots[slot]]) == slot
    ensures net.txid(q.txs[q.slots[slot]]) == q.slots[slot]
  {
    hide Backed;
  }

  lemma IdentifierHolder(net: Network, q: Pool, id: Hash, l: Ledger, height: int)
    requires PoolAgrees(net, q, l, height) && id in q.txs
    ensures net.txid(q.txs[id]) == id
  {
    hide Backed;
  }

  lemma OneIdentifier(net: Network, k: Pool, past: seq<Transaction>, f: nat, l: Ledger, height: int, j: nat, i: nat)
    requires Meets(net, k, past, f, l, height) && j < |past| && i < |past| && net.txid(past[j]) == net.txid(past[i])
    ensures i == j
  {
    hide PoolAgrees, NoncesCount;
  }

  /** What shares its slot or its identifier with a transaction of the branch came from the branch. */
  lemma SourceOf(net: Network, k: Pool, q: Pool, past: seq<Transaction>, f: nat, n: nat, l: Ledger, height: int,
                 id: Hash, i: nat) returns (j: nat)
    requires Meets(net, k, past, f, l, height) && n <= |past| && Accounted(net, k, q, past, n, l, height) && i < |past|
    requires id in q.txs && (id == net.txid(past[i]) || SlotOf(q.txs[id]) == SlotOf(past[i]))
    ensures j < n && past[j] == q.txs[id]
  {
    hide PoolAgrees, CountBack, Decided;
    OwnNonce(past, i);
    SentGrows(past, i, |past|, past[i].sender);
    assert past[..|past|] == past;
    j :| 0 <= j < n && past[j] == q.txs[id];
  }

  predicate IsPendingIn(net: Network, q: Pool, tx: Transaction) {
    net.txid(tx) in q.txs && q.txs[net.txid(tx)] == tx
  }

  /** If a pool holds all of a sender's transactions of the branch from some nonce on, they cost there what
      they cost on the branch. */
  lemma {:induction false} SpentIsRunCost(net: Network, q: Pool, past: seq<Transaction>, n: nat, sender: Text,
                                          from: int)
    requires NoncesCount(EMPTY_LEDGER, past) && Consistent(net, q) && n <= |past| && 0 <= from
    requires forall j :: 0 <= j < n && past[j].sender == sender && from <= past[j].nonce ==>
               IsPendingIn(net, q, past[j])
    ensures SpentFrom(past[..n], sender, from) == RunCost(q, sender, from, SentBy(past[..n], sender))
    decreases n
  {
    hide Consistent;
    if n > 0 {
      assert past[..n][..n - 1] == past[..n - 1];
      SpentIsRunCost(net, q, past, n - 1, sender, from);
      var tx := past[n - 1];
      OwnNonce(past, n - 1);
      if tx.sender == sender && from <= tx.nonce {
        CostAtOwnSlot(net, q, net.txid(tx));
        assert Slot(sender, tx.nonce) == SlotOf(tx);
      }
    } else {
      assert past[..n] == [];
    }
  }

  // One offer

  lemma SpentGrows(net: Network, past: seq<Transaction>, n: nat, sender: Text, from: int)
    requires n < |past|
    ensures SpentFrom(past[..n + 1], sender, from)
         == SpentFrom(past[..n], sender, from)
            + if past[n].sender == sender && from <= past[n].nonce then Cost(past[n]) else 0
  {
    assert past[..n + 1][..n] == past[..n];
  }

  /** An admitted transaction comes back: its predecessors are pending, so they are valid here, and what
      the pool reserves is what they cost. */
  lemma AdmittedComesBack(net: Network, k: Pool, q: Pool, past: seq<Transaction>, f: nat, n: nat, l: Ledger,
                          height: int)
    requires Meets(net, k, past, f, l, height) && n < |past| && Accounted(net, k, q, past, n, l, height)
    requires Admission(net, q, past[n], l, height).Pass?
    ensures ComesBack(net, past, n, l, height)
  {
    hide Backed, Reserved, RunCost, CountBack, ValidAt, FirstBrokenRule, Accounted, Meets, SpentFrom, ComesBack, SentBy,
      Admission;
    var tx := past[n];
    var from := AccountAt(l, tx.sender).nonce;
    Agreement(net, k, q, past, f, n, l, height);
    AdmissionMeans(net, q, tx, l, height);
    var m := SenderRun(net, q, l, height, tx.sender);
    OwnNonce(past, n);
    forall j | 0 <= j < n && past[j].sender == tx.sender && from <= past[j].nonce
      ensures IsPendingIn(net, q, past[j]) && ValidAt(net, past[j], height) && net.txid(past[j]) !in l.confirmed
    {
      NoncesInOrder(past, j, n);
      assert Slot(tx.sender, past[j].nonce) == SlotOf(past[j]);
      HolderOfSlot(net, k, q, past, f, n, l, height, j);
      PendingIsGood(net, q, past[j], l, height);
    }
    SpentIsRunCost(net, q, past, n, tx.sender, from);
    SpentGrows(net, past, n, tx.sender, from);
    BackBy(net, past, n, l, height);
  }

  lemma AdmissionMeans(net: Network, q: Pool, tx: Transaction, l: Ledger, height: int)
    requires Admission(net, q, tx, l, height).Pass?
    ensures ValidAt(net, tx, height) && net.txid(tx) !in l.confirmed && AccountAt(l, tx.sender).nonce != U64_MAX
    ensures tx.nonce - AccountAt(l, tx.sender).nonce == |SenderIds(q, tx.sender)| < 64
    ensures Reserved(q, SenderIds(q, tx.sender)) + Cost(tx) <= AccountAt(l, tx.sender).balance
  {
  }

  lemma Agreement(net: Network, k: Pool, q: Pool, past: seq<Transaction>, f: nat, n: nat, l: Ledger, height: int)
    requires Meets(net, k, past, f, l, height) && n <= |past| && Accounted(net, k, q, past, n, l, height)
    ensures PoolAgrees(net, q, l, height) && NoncesCount(EMPTY_LEDGER, past)
  {
  }

  lemma PendingIsGood(net: Network, q: Pool, tx: Transaction, l: Ledger, height: int)
    requires PoolAgrees(net, q, l, height) && IsPendingIn(net, q, tx)
    ensures ValidAt(net, tx, height) && net.txid(tx) !in l.confirmed
  {
    assert Backed(net, q, q.txs[net.txid(tx)], l, height);
  }

  lemma BackBy(net: Network, past: seq<Transaction>, i: nat, l: Ledger, height: int)
    requires i < |past| && NoncesCount(EMPTY_LEDGER, past)
    requires var tx, account := past[i], AccountAt(l, past[i].sender);
             && account.nonce != U64_MAX && account.nonce <= tx.nonce < account.nonce + 64
             && ValidAt(net, tx, height) && net.txid(tx) !in l.confirmed
             && (forall j :: 0 <= j < i && past[j].sender == tx.sender && account.nonce <= past[j].nonce ==>
                   ValidAt(net, past[j], height) && net.txid(past[j]) !in l.confirmed)
             && SpentFrom(past[..i + 1], tx.sender, account.nonce) <= account.balance
    ensures ComesBack(net, past, i, l, height)
  {
  }

  /** The predecessors of one that comes back come back too. */
  lemma PredecessorComesBack(net: Network, past: seq<Transaction>, i: nat, j: nat, l: Ledger, height: int)
    requires NoncesCount(EMPTY_LEDGER, past) && j < i < |past| && ComesBack(net, past, i, l, height)
    requires past[j].sender == past[i].sender && AccountAt(l, past[i].sender).nonce <= past[j].nonce
    ensures ComesBack(net, past, j, l, height)
  {
    hide SpentFrom, NoncesCount, FirstBrokenRule;
    var sender, from := past[i].sender, AccountAt(l, past[i].sender).nonce;
    NoncesInOrder(past, j, i);
    SpentRises(net, past, j + 1, i + 1, sender, from, height);
  }

  lemma {:induction false} SpentRises(net: Network, past: seq<Transaction>, j: nat, i: nat, sender: Text, from: int,
                                      height: int)
    requires j <= i <= |past|
    requires forall n :: 0 <= n < i && past[n].sender == sender && from <= past[n].nonce ==>
               ValidAt(net, past[n], height)
    ensures SpentFrom(past[..j], sender, from) <= SpentFrom(past[..i], sender, from)
    decreases i
  {
    if j < i {
      SpentRises(net, past, j, i - 1, sender, from, height);
      SpentGrows(net, past, i - 1, sender, from);
    }
  }

  /** One that can come back is admitted while there is room. */
  lemma ComingBackIsAdmitted(net: Network, k: Pool, q: Pool, past: seq<Transaction>, f: nat, n: nat, l: Ledger,
                             height: int)
    requires Meets(net, k, past, f, l, height) && n < |past| && Accounted(net, k, q, past, n, l, height)
    requires ComesBack(net, past, n, l, height) && |q.txs| < 50_000
    ensures Admission(net, q, past[n], l, height).Pass?
  {
    hide Backed, Reserved, RunCost, CountBack, ValidAt, FirstBrokenRule, Accounted, Meets, SpentFrom, ComesBack, SentBy,
      NoncesCount, Consistent, Admission;
    var tx := past[n];
    var from := AccountAt(l, tx.sender).nonce;
    Agreement(net, k, q, past, f, n, l, height);
    OwnNonce(past, n);
    HolderOfSlot(net, k, q, past, f, n, l, height, n);
    forall j | 0 <= j < n && past[j].sender == tx.sender && from <= past[j].nonce
      ensures IsPendingIn(net, q, past[j])
    {
      PredecessorComesBack(net, past, n, j, l, height);
      AdmittedEarlier(net, k, q, past, f, n, l, height, j);
    }
    forall nonce {:trigger Slot(tx.sender, nonce)} | from <= nonce < tx.nonce
      ensures Slot(tx.sender, nonce) in q.slots
    {
      var j := NonceOnBranch(past, n, tx.sender, nonce);
      SlotIsTaken(net, q, past[j], l, height);
    }
    Coming(net, past, n, l, height);
    PredecessorsAreAll(net, q, tx, l, height);
    SpentIsRunCost(net, q, past, n, tx.sender, from);
    SpentGrows(net, past, n, tx.sender, from);
    Admitted(net, q, tx, l, height);
  }

  lemma SlotIsTaken(net: Network, q: Pool, tx: Transaction, l: Ledger, height: int)
    requires PoolAgrees(net, q, l, height) && IsPendingIn(net, q, tx)
    ensures Slot(tx.sender, tx.nonce) in q.slots
  {
    assert SlotOf(q.txs[net.txid(tx)]) in q.slots;
  }

  lemma Coming(net: Network, past: seq<Transaction>, i: nat, l: Ledger, height: int)
    requires i < |past| && ComesBack(net, past, i, l, height)
    ensures var tx, account := past[i], AccountAt(l, past[i].sender);
            && account.nonce != U64_MAX && account.nonce <= tx.nonce < account.nonce + 64
            && ValidAt(net, tx, height) && net.txid(tx) !in l.confirmed
            && SpentFrom(past[..i + 1], tx.sender, account.nonce) <= account.balance
  {
  }

  lemma Admitted(net: Network, q: Pool, tx: Transaction, l: Ledger, height: int)
    requires |q.txs| < 50_000 && ValidAt(net, tx, height) && net.txid(tx) !in q.txs && net.txid(tx) !in l.confirmed
    requires SlotOf(tx) !in q.slots && AccountAt(l, tx.sender).nonce != U64_MAX
    requires tx.nonce - AccountAt(l, tx.sender).nonce == |SenderIds(q, tx.sender)| < 64
    requires Reserved(q, SenderIds(q, tx.sender)) + Cost(tx) <= AccountAt(l, tx.sender).balance
    ensures Admission(net, q, tx, l, height).Pass?
  {
  }

  lemma AdmittedEarlier(net: Network, k: Pool, q: Pool, past: seq<Transaction>, f: nat, n: nat, l: Ledger, height: int,
                        j: nat)
    requires Meets(net, k, past, f, l, height) && n <= |past| && Accounted(net, k, q, past, n, l, height)
    requires j < n && ComesBack(net, past, j, l, height) && |q.txs| < 50_000
    ensures IsPendingIn(net, q, past[j])
  {
    hide Backed, CountBack, ComesBack, PoolAgrees, Meets;
    CountGrows(net, past, j, n, l, height);
    HolderOfSlot(net, k, q, past, f, n, l, height, j);
  }

  lemma FreshHere(net: Network, k: Pool, past: seq<Transaction>, f: nat, n: nat, l: Ledger, height: int)
    requires Meets(net, k, past, f, l, height) && n < |past|
    ensures net.txid(past[n]) !in k.txs
    ensures forall j :: 0 <= j < n ==> net.txid(past[j]) != net.txid(past[n])
  {
    hide PoolAgrees;
  }

  lemma SourcedWith(net: Network, k: Pool, q: Pool, past: seq<Transaction>, n: nat)
    requires n < |past| && Sourced(k, q, past, n)
    ensures Sourced(k, With(net, q, past[n]), past, n + 1)
  {
    var q' := With(net, q, past[n]);
    forall id | id in q'.txs && id !in k.txs
      ensures exists j :: 0 <= j < n + 1 && past[j] == q'.txs[id]
    {
      if id != net.txid(past[n]) {
        var j :| 0 <= j < n && past[j] == q.txs[id];
      }
    }
  }

  lemma AccountedWith(net: Network, k: Pool, q: Pool, past: seq<Transaction>, n: nat, l: Ledger, height: int)
    requires n < |past| && Accounted(net, k, q, past, n, l, height)
    requires PoolAgrees(net, With(net, q, past[n]), l, height)
    requires net.txid(past[n]) !in q.txs && net.txid(past[n]) !in k.txs
    requires forall j :: 0 <= j < n ==> net.txid(past[j]) != net.txid(past[n])
    requires IsAdmitted(net, k, past, n, l, height) && ComesBack(net, past, n, l, height) && |q.txs| < 50_000
    ensures Accounted(net, k, With(net, q, past[n]), past, n + 1, l, height)
  {
    hide ComesBack, PoolAgrees, IsAdmitted, Sourced, Decided, KeepsAll, With;
    SourcedWith(net, k, q, past, n);
    OneLarger(net, k, q, past[n]);
    DecidedWith(net, k, q, past, n, l, height);
  }

  lemma OneLarger(net: Network, k: Pool, q: Pool, tx: Transaction)
    requires net.txid(tx) !in q.txs && net.txid(tx) !in k.txs && KeepsAll(k, q)
    ensures |With(net, q, tx).txs| == |q.txs| + 1 && KeepsAll(k, With(net, q, tx))
  {
    assert With(net, q, tx).txs.Keys == q.txs.Keys + {net.txid(tx)};
  }

  lemma DecidedWith(net: Network, k: Pool, q: Pool, past: seq<Transaction>, n: nat, l: Ledger, height: int)
    requires n < |past| && Decided(net, k, q, past, n, l, height) && IsAdmitted(net, k, past, n, l, height)
    requires forall j :: 0 <= j < n ==> net.txid(past[j]) != net.txid(past[n])
    ensures Decided(net, k, With(net, q, past[n]), past, n + 1, l, height)
  {
    hide IsAdmitted;
  }

  lemma AccountedWithout(net: Network, k: Pool, q: Pool, past: seq<Transaction>, n: nat, l: Ledger, height: int)
    requires n < |past| && Accounted(net, k, q, past, n, l, height)
    requires net.txid(past[n]) !in q.txs && !IsAdmitted(net, k, past, n, l, height)
    ensures Accounted(net, k, q, past, n + 1, l, height)
  {
    hide ComesBack, PoolAgrees;
  }

  lemma RoomIsCounted(net: Network, k: Pool, q: Pool, past: seq<Transaction>, n: nat, l: Ledger, height: int)
    requires n < |past| && Accounted(net, k, q, past, n, l, height)
    ensures IsAdmitted(net, k, past, n, l, height) <==> ComesBack(net, past, n, l, height) && |q.txs| < 50_000
  {
    hide ComesBack, PoolAgrees;
  }

  /** One more offer leaves the pool accounted for. */
  lemma AccountedGoesOn(net: Network, k: Pool, q: Pool, past: seq<Transaction>, f: nat, n: nat, l: Ledger, height: int)
    requires Meets(net, k, past, f, l, height) && n < |past| && Accounted(net, k, q, past, n, l, height)
    ensures Accounted(net, k, Offer(net, q, past[n], l, height), past, n + 1, l, height)
  {
    hide ComesBack, PoolAgrees, Admission, Accounted, Meets, With, IsAdmitted;
    var tx := past[n];
    Agreement(net, k, q, past, f, n, l, height);
    OfferKeepsAgreement(net, q, tx, l, height);
    HolderOfSlot(net, k, q, past, f, n, l, height, n);
    FreshHere(net, k, past, f, n, l, height);
    RoomIsCounted(net, k, q, past, n, l, height);
    if Admission(net, q, tx, l, height).Pass? {
      AdmittedComesBack(net, k, q, past, f, n, l, height);
      HasRoom(net, q, tx, l, height);
      AccountedWith(net, k, q, past, n, l, height);
    } else {
      if IsAdmitted(net, k, past, n, l, height) {
        ComingBackIsAdmitted(net, k, q, past, f, n, l, height);
      }
      AccountedWithout(net, k, q, past, n, l, height);
    }
  }

  lemma HasRoom(net: Network, q: Pool, tx: Transaction, l: Ledger, height: int)
    requires Admission(net, q, tx, l, height).Pass?
    ensures |q.txs| < 50_000
  {
  }

  /** All offers together. */
  lemma {:induction false} AllOffersAccounted(net: Network, k: Pool, past: seq<Transaction>, f: nat, n: nat, l: Ledger,
                                              height: int)
    requires Meets(net, k, past, f, l, height) && f <= n <= |past|
    ensures Accounted(net, k, OfferAll(net, k, past[f..n], l, height), past, n, l, height)
    decreases n
  {
    hide Meets, Accounted, Offer;
    if n == f {
      assert past[f..n] == [];
      NothingOfferedYet(net, k, past, f, l, height);
    } else {
      AllOffersAccounted(net, k, past, f, n - 1, l, height);
      assert past[f..n][..n - 1 - f] == past[f..n - 1];
      AccountedGoesOn(net, k, OfferAll(net, k, past[f..n - 1], l, height), past, f, n - 1, l, height);
    }
  }

  lemma NothingOfferedYet(net: Network, k: Pool, past: seq<Transaction>, f: nat, l: Ledger, height: int)
    requires Meets(net, k, past, f, l, height)
    ensures Accounted(net, k, k, past, f, l, height)
  {
    hide ComesBack, Backed;
    NothingBackBefore(net, past, f, l, height, f);
  }

  // The branch that is left

  /** All transactions of the active branch. */
  ghost function ActiveTransactions(net: Network, t: Tree): seq<Transaction>
    requires Linked(net, t)
  {
    TransactionsOf(BlocksOf(net, t, t.tip))
  }

  lemma {:induction false} TransactionsConcat(a: seq<Block>, b: seq<Block>)
    ensures TransactionsOf(a + b) == TransactionsOf(a) + TransactionsOf(b)
  {
    if b == [] {
      assert a + b == a;
    } else {
      assert (a + b)[..|a + b| - 1] == a + b[..|b| - 1];
      TransactionsConcat(a, b[..|b| - 1]);
    }
  }

  lemma {:induction false} TransactionsOfEntries(t: Tree, hashes: seq<Hash>, blocks: seq<Block>)
    requires |hashes| == |blocks|
    requires forall i :: 0 <= i < |hashes| ==> hashes[i] in t.entries && t.entries[hashes[i]].block == blocks[i]
    ensures TransactionsAt(t, hashes) == TransactionsOf(blocks)
  {
    if hashes != [] {
      TransactionsOfEntries(t, hashes[..|hashes| - 1], blocks[..|blocks| - 1]);
    }
  }

  /** The blocks that are left are the end of the old branch, and what comes before them is on the new one. */
  lemma BranchesSplit(net: Network, t: Tree, oldTip: Hash, newTip: Hash) returns (n: nat)
    requires Linked(net, t) && oldTip in t.entries && newTip in t.entries
    ensures var a, b := BlocksOf(net, t, oldTip), BlocksOf(net, t, newTip);
            var left := Reversed(SwitchBetween(net, t, oldTip, newTip).disconnected);
            && n <= |a| && n <= |b| && a[..n] == b[..n]
            && (forall i :: 0 <= i < |left| ==> left[i] in t.entries)
            && TransactionsAt(t, left) == TransactionsOf(a[n..])
  {
    hide Linked, SwitchBetween, Path, BlocksOf, CommonLength, Reversed, TransactionsAt;
    n := CommonPathLength(net, t, oldTip, newTip);
    var path := Path(net, t, oldTip);
    assert path[n - 1] == path[..n][n - 1] == Path(net, t, newTip)[n - 1];
    SameBelow(net, t, oldTip, newTip, n);
    assert path[n..] == Reversed(SwitchBetween(net, t, oldTip, newTip).disconnected);
    RestOfPath(net, t, oldTip, n);
  }

  lemma SameBelow(net: Network, t: Tree, a: Hash, b: Hash, n: nat)
    requires Linked(net, t) && a in t.entries && b in t.entries
    requires 0 < n <= |Path(net, t, a)| && n <= |Path(net, t, b)| && Path(net, t, a)[n - 1] == Path(net, t, b)[n - 1]
    ensures n <= |BlocksOf(net, t, a)| && n <= |BlocksOf(net, t, b)|
    ensures BlocksOf(net, t, a)[..n] == BlocksOf(net, t, b)[..n]
  {
    hide Linked, Path, BlocksOf;
    PathPrefix(net, t, a, n - 1);
    PathPrefix(net, t, b, n - 1);
  }

  lemma RestOfPath(net: Network, t: Tree, h: Hash, n: nat)
    requires Linked(net, t) && h in t.entries && n <= |Path(net, t, h)|
    ensures var left := Path(net, t, h)[n..];
            && n <= |BlocksOf(net, t, h)| && (forall i :: 0 <= i < |left| ==> left[i] in t.entries)
            && TransactionsAt(t, left) == TransactionsOf(BlocksOf(net, t, h)[n..])
  {
    hide Linked, Path, BlocksOf, TransactionsAt;
    var path, blocks := Path(net, t, h), BlocksOf(net, t, h);
    forall i | 0 <= i < |path[n..]|
      ensures path[n..][i] in t.entries && t.entries[path[n..][i]].block == blocks[n..][i]
    {
      PathPrefix(net, t, h, n + i);
    }
    TransactionsOfEntries(t, path[n..], blocks[n..]);
  }

  lemma OldBranchSplits(net: Network, t: Tree, b: Block) returns (n: nat)
    requires ValidTree(net, t) && Insert(net, t, b).Ok? && Insert(net, t, b).value.update.becameActive
    ensures var g := Insert(net, t, b).value;
            && ValidTree(net, g.tree) && UpdateIsKnown(g.tree, g.update)
            && n <= |BlocksOf(net, t, t.tip)| && n <= |BlocksOf(net, g.tree, g.tree.tip)|
            && BlocksOf(net, t, t.tip)[..n] == BlocksOf(net, g.tree, g.tree.tip)[..n]
            && TransactionsAt(g.tree, Reversed(g.update.disconnected)) == TransactionsOf(BlocksOf(net, t, t.tip)[n..])
  {
    hide NewEntry, SwitchBetween, Path, BlocksOf, EntryLinked, EntryHoldsItsBranch, Reversed, TransactionsAt;
    var g := Insert(net, t, b).value;
    UpdatesAreKnown(net, t, b);
    NewEntryIsLinked(net, t, b);
    PathsAreStable(net, t, g.tree, t.tip);
    n := BranchesSplit(net, g.tree, t.tip, g.tree.tip);
  }

  /** The offered list and the ledger it meets, in terms of the old branch. */
  lemma OldTransactionsSplit(net: Network, t: Tree, b: Block) returns (f: nat)
    requires ValidTree(net, t) && Insert(net, t, b).Ok? && Insert(net, t, b).value.update.becameActive
    ensures var g, past := Insert(net, t, b).value, ActiveTransactions(net, t);
            && ValidTree(net, g.tree) && UpdateIsKnown(g.tree, g.update) && f <= |past|
            && TransactionsAt(g.tree, Reversed(g.update.disconnected)) == past[f..]
            && forall a :: SentBy(past[..f], a) <= AccountAt(g.tree.Tip().ledger, a).nonce
  {
    hide Insert, BlocksOf, RunBranch, TransactionsOf, TransactionsAt, SentBy, Reversed, EntryLinked;
    TipIsKnown(net, t);
    var n := OldBranchSplits(net, t, b);
    var g := Insert(net, t, b).value;
    TipIsKnown(net, g.tree);
    var before, after := BlocksOf(net, t, t.tip), BlocksOf(net, g.tree, g.tree.tip);
    var common := TransactionsOf(before[..n]);
    f := |common|;
    assert before == before[..n] + before[n..] && after == after[..n] + after[n..];
    TransactionsConcat(before[..n], before[n..]);
    TransactionsConcat(after[..n], after[n..]);
    assert EntryHoldsItsBranch(net, g.tree, g.tree.tip);
    BranchCounts(net, after);
    forall a
      ensures SentBy(common, a) <= AccountAt(g.tree.Tip().ledger, a).nonce
    {
      SentByConcat(common, TransactionsOf(after[n..]), a);
    }
    assert ActiveTransactions(net, t)[..f] == common;
  }

  // The whole pool

  /** The pending transactions that survive at the new tip. */
  ghost function Kept(net: Network, p: Pool, l: Ledger, height: int): set<Hash> {
    set id | id in p.txs && Survives(net, p, p.txs[id], l, height)
  }

  /** Pending transactions come after the branch they are pending on, and are not on it. */
  lemma PendingIsNotPast(net: Network, s: NodeState, id: Hash)
    requires StateFits(net, s) && id in s.pool.txs
    ensures var past := ActiveTransactions(net, s.tree);
            && NoncesCount(EMPTY_LEDGER, past) && DistinctTxids(net, past)
            && SentBy(past, s.pool.txs[id].sender) <= s.pool.txs[id].nonce
            && forall i :: 0 <= i < |past| ==> net.txid(past[i]) != id
  {
    hide RunBranch, BlocksOf, TransactionsOf, SentBy, NoncesCount, DistinctTxids, EntryLinked;
    var blocks := BlocksOf(net, s.tree, s.tree.tip);
    assert EntryHoldsItsBranch(net, s.tree, s.tree.tip);
    BranchCounts(net, blocks);
    BranchIsFresh(net, blocks);
    assert Backed(net, s.pool, s.pool.txs[id], s.tree.Tip().ledger, s.tree.Tip().record.height + 1);
    IdentifierHolder(net, s.pool, id, s.tree.Tip().ledger, s.tree.Tip().record.height + 1);
  }

  lemma PastIsFresh(net: Network, t: Tree)
    requires ValidTree(net, t)
    ensures NoncesCount(EMPTY_LEDGER, ActiveTransactions(net, t)) && DistinctTxids(net, ActiveTransactions(net, t))
  {
    hide RunBranch, BlocksOf;
    assert EntryHoldsItsBranch(net, t, t.tip);
    BranchIsFresh(net, BlocksOf(net, t, t.tip));
  }

  /** What revalidation leaves in the pool, before anything is offered again. */
  lemma KeptPool(net: Network, s: NodeState, b: Block, g: Grown) returns (k: Pool)
    requires StateFits(net, s) && Insert(net, s.tree, b) == Ok(g) && g.update.becameActive
    requires UpdateIsKnown(g.tree, g.update)
    ensures var l, height := g.tree.Tip().ledger, g.tree.Tip().record.height + 1;
            && PoolAgrees(net, k, l, height)
            && k.txs.Keys == Kept(net, s.pool, l, height)
            && (forall id :: id in k.txs ==> id in s.pool.txs && k.txs[id] == s.pool.txs[id])
            && Reconciled(net, s.pool, g.tree, g.update)
               == OfferAll(net, k, TransactionsAt(g.tree, Reversed(g.update.disconnected)), l, height)
  {
    hide Insert, ValidTree, Linked, PoolAgrees, Consistent, WithoutAll, TransactionsAt, OfferAll, Revalidated, Kept,
      Reversed;
    TipIsKnown(net, s.tree);
    var l, height := g.tree.Tip().ledger, g.tree.Tip().record.height + 1;
    var out := TransactionsAt(g.tree, g.update.connected);
    var rest := WithoutAll(net, s.pool, out);
    k := Revalidated(net, rest, l, height);
    FitsIsConsistent(net, s);
    WithoutAllIsConsistent(net, s.pool, out);
    RevalidatedAgrees(net, rest, l, height);
    forall id
      ensures id in k.txs <==> id in Kept(net, s.pool, l, height)
      ensures id in k.txs ==> id in s.pool.txs && k.txs[id] == s.pool.txs[id]
    {
      KeptIffSurvives(net, s, b, g, id);
    }
  }

  lemma FitsIsConsistent(net: Network, s: NodeState)
    requires StateFits(net, s)
    ensures Consistent(net, s.pool) && |s.pool.txs| <= MAX_MEMPOOL_TRANSACTIONS
  {
    hide ValidTree, Consistent, Backed;
    TipIsKnown(net, s.tree);
  }

  lemma KeptIffSurvives(net: Network, s: NodeState, b: Block, g: Grown, id: Hash)
    requires StateFits(net, s) && Insert(net, s.tree, b) == Ok(g) && g.update.becameActive
    requires UpdateIsKnown(g.tree, g.update)
    ensures var l, height := g.tree.Tip().ledger, g.tree.Tip().record.height + 1;
            var k := Revalidated(net, WithoutAll(net, s.pool, TransactionsAt(g.tree, g.update.connected)), l, height);
            && (id in k.txs <==> id in Kept(net, s.pool, l, height))
            && (id in k.txs ==> id in s.pool.txs && k.txs[id] == s.pool.txs[id])
  {
    hide Insert, ValidTree, Backed, Consistent, WithoutAll, TransactionsAt, Survives;
    TipIsKnown(net, s.tree);
    var out := TransactionsAt(g.tree, g.update.connected);
    RemovalIsExact(net, s.pool, out, id);
    if id in s.pool.txs {
      PendingIsNotDisconnected(net, s, b, id);
      RemovalDoesNotDecide(net, s.pool, out, id, g.tree.Tip().ledger, g.tree.Tip().record.height + 1);
    }
  }

  /** So the pool that reconciliation leaves is accounted for by the old branch. */
  lemma ReconciledIsAccounted(net: Network, s: NodeState, b: Block, g: Grown) returns (k: Pool)
    requires StateFits(net, s) && Insert(net, s.tree, b) == Ok(g) && g.update.becameActive
    requires UpdateIsKnown(g.tree, g.update)
    ensures var l, height, past := g.tree.Tip().ledger, g.tree.Tip().record.height + 1, ActiveTransactions(net, s.tree);
            && Accounted(net, k, Reconciled(net, s.pool, g.tree, g.update), past, |past|, l, height)
            && k.txs.Keys == Kept(net, s.pool, l, height)
            && (forall id :: id in k.txs ==> id in s.pool.txs && k.txs[id] == s.pool.txs[id])
  {
    hide Insert, ValidTree, Linked, TransactionsAt, ActiveTransactions, PoolAgrees, Meets, Reversed, Reconciled,
      Accounted, Survives;
    TipIsKnown(net, s.tree);
    var l, height, past := g.tree.Tip().ledger, g.tree.Tip().record.height + 1, ActiveTransactions(net, s.tree);
    k := KeptPool(net, s, b, g);
    var f := OldTransactionsSplit(net, s.tree, b);
    KeptMeetsPast(net, s, k, f, l, height);
    AllOffersAccounted(net, k, past, f, |past|, l, height);
    assert past[f..|past|] == past[f..];
  }

  lemma ReadAccount(net: Network, k: Pool, q: Pool, past: seq<Transaction>, l: Ledger, height: int)
    requires Accounted(net, k, q, past, |past|, l, height)
    ensures forall i :: 0 <= i < |past| ==>
              (net.txid(past[i]) in q.txs <==>
                 ComesBack(net, past, i, l, height) && |k.txs.Keys| + CountBack(net, past, i, l, height) < 50_000)
    ensures forall id :: id in q.txs ==>
              (id in k.txs && q.txs[id] == k.txs[id]) || exists i :: 0 <= i < |past| && past[i] == q.txs[id]
  {
    hide ComesBack, CountBack, PoolAgrees;
    assert |k.txs| == |k.txs.Keys|;
  }

  /** The pool after a block that moved the tip, whatever was pending and whatever was left. Of the pending
      transactions exactly the survivors stay. Of the transactions of the old branch exactly those are
      pending that come back, as long as the pool has room for them and all that come back before them.
      There is nothing else. */
  lemma PoolAfterTipMoved(net: Network, s: NodeState, b: Block)
    requires StateFits(net, s) && Insert(net, s.tree, b).Ok? && Insert(net, s.tree, b).value.update.becameActive
    ensures var tip, past := Insert(net, s.tree, b).value.tree.Tip(), ActiveTransactions(net, s.tree);
            var l, height, p := tip.ledger, tip.record.height + 1, Operate(net, s, OfferBlock(b)).pool;
            && (forall id :: id in s.pool.txs ==>
                  (id in p.txs <==> Survives(net, s.pool, s.pool.txs[id], l, height)))
            && (forall i :: 0 <= i < |past| ==>
                  (net.txid(past[i]) in p.txs <==>
                     ComesBack(net, past, i, l, height)
                     && |Kept(net, s.pool, l, height)| + CountBack(net, past, i, l, height) < 50_000))
            && (forall id :: id in p.txs ==>
                  (id in s.pool.txs && p.txs[id] == s.pool.txs[id])
                  || exists i :: 0 <= i < |past| && past[i] == p.txs[id])
  {
    hide Insert, Survives, ValidTree, Linked, ComesBack, CountBack, TransactionsAt, ActiveTransactions, PoolAgrees,
      Reconciled, Kept, Accounted;
    TipIsKnown(net, s.tree);
    UpdatesAreKnown(net, s.tree, b);
    var g := Insert(net, s.tree, b).value;
    TipIsKnown(net, g.tree);
    var k := ReconciledIsAccounted(net, s, b, g);
    ReadAccount(net, k, Reconciled(net, s.pool, g.tree, g.update), ActiveTransactions(net, s.tree),
                g.tree.Tip().ledger, g.tree.Tip().record.height + 1);
    forall id | id in s.pool.txs
      ensures id in Operate(net, s, OfferBlock(b)).pool.txs
         <==> Survives(net, s.pool, s.pool.txs[id], g.tree.Tip().ledger, g.tree.Tip().record.height + 1)
    {
      PendingIsKeptIff(net, s, b, id);
    }
  }

  lemma KeptMeetsPast(net: Network, s: NodeState, k: Pool, f: nat, l: Ledger, height: int)
    requires StateFits(net, s) && PoolAgrees(net, k, l, height) && f <= |ActiveTransactions(net, s.tree)|
    requires forall id :: id in k.txs ==> id in s.pool.txs && k.txs[id] == s.pool.txs[id]
    requires forall a :: SentBy(ActiveTransactions(net, s.tree)[..f], a) <= AccountAt(l, a).nonce
    ensures Meets(net, k, ActiveTransactions(net, s.tree), f, l, height)
  {
    hide ActiveTransactions, PoolAgrees, SentBy, NoncesCount, DistinctTxids;
    PastIsFresh(net, s.tree);
    forall id | id in k.txs
      ensures SentBy(ActiveTransactions(net, s.tree), k.txs[id].sender) <= k.txs[id].nonce
      ensures forall i :: 0 <= i < |ActiveTransactions(net, s.tree)| ==>
                net.txid(ActiveTransactions(net, s.tree)[i]) != id
    {
      PendingIsNotPast(net, s, id);
    }
  }

  /** So unless the pool ends up full, a transaction of the branch that is left is pending afterwards if and
      only if it comes back: its whole run from the account's nonce on is valid, unconfirmed and paid for
      at the new tip. */
  lemma DisconnectedIsPendingIff(net: Network, s: NodeState, b: Block, i: nat)
    requires StateFits(net, s) && Insert(net, s.tree, b).Ok? && Insert(net, s.tree, b).value.update.becameActive
    requires i < |ActiveTransactions(net, s.tree)| && |Operate(net, s, OfferBlock(b)).pool.txs| < 50_000
    ensures var tip, past := Insert(net, s.tree, b).value.tree.Tip(), ActiveTransactions(net, s.tree);
            net.txid(past[i]) in Operate(net, s, OfferBlock(b)).pool.txs <==>
              ComesBack(net, past, i, tip.ledger, tip.record.height + 1)
  {
    hide Insert, ValidTree, Linked, ComesBack, TransactionsAt, ActiveTransactions, PoolAgrees, Reconciled, Kept,
      Accounted;
    TipIsKnown(net, s.tree);
    UpdatesAreKnown(net, s.tree, b);
    var g := Insert(net, s.tree, b).value;
    var k := ReconciledIsAccounted(net, s, b, g);
    RoomUnlessFull(net, k, Reconciled(net, s.pool, g.tree, g.update), ActiveTransactions(net, s.tree),
                   g.tree.Tip().ledger, g.tree.Tip().record.height + 1, i);
  }

  lemma RoomUnlessFull(net: Network, k: Pool, q: Pool, past: seq<Transaction>, l: Ledger, height: int, i: nat)
    requires Accounted(net, k, q, past, |past|, l, height) && |q.txs| < 50_000 && i < |past|
    ensures net.txid(past[i]) in q.txs <==> ComesBack(net, past, i, l, height)
  {
    hide ComesBack, PoolAgrees;
    CountGrows(net, past, i, |past|, l, height);
  }
}
