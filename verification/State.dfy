/** Account state: atomic batches of transfers, and the accounting laws every batch obeys. */
module State {
  import opened Types
  import opened Transactions

  // ---------------------------------------------------------------------------------------------
  // The ledger as a value
  // ---------------------------------------------------------------------------------------------

  /** An immutable snapshot of account state. */
  datatype Ledger = Ledger(accounts: map<Text, Account>, confirmed: set<Hash>)

  const EMPTY_LEDGER := Ledger(map[], {})

  datatype Applied = Applied(ledger: Ledger, fees: int)

  /** The account at an address; an address never seen has an empty one. */
  function AccountAt(l: Ledger, address: Text): Account {
    if address in l.accounts then l.accounts[address] else Account(0, 0)
  }

  predicate AddressesValid(net: Network, l: Ledger) {
    forall a :: a in l.accounts ==> net.validAddress(a)
  }

  /** The state-dependent rules a transaction must pass before it may be applied. */
  function Check(net: Network, l: Ledger, tx: Transaction, height: int): Outcome {
    if !ValidAt(net, tx, height) then Fail(FirstBrokenRule(net, tx, height))
    else CheckAccount(net, l, tx, AccountAt(l, tx.sender))
  }

  function CheckAccount(net: Network, l: Ledger, tx: Transaction, sender: Account): Outcome {
    if net.txid(tx) in l.confirmed then Fail(AlreadyConfirmed)
    else if tx.nonce != sender.nonce then Fail(WrongNonce)
    else if sender.nonce == U64_MAX then Fail(NonceExhausted)
    else if sender.balance < tx.amount + tx.fee then Fail(InsufficientBalance)
    else Pass
  }

  predicate Executable(net: Network, l: Ledger, tx: Transaction, height: int) {
    Check(net, l, tx, height).Pass?
  }

  /** The accounts once the sender has paid but the recipient has not been credited. */
  function Debited(net: Network, l: Ledger, tx: Transaction, height: int): map<Text, Account>
    requires Executable(net, l, tx, height)
  {
    var sender := AccountAt(l, tx.sender);
    var paid := if tx.sender == tx.recipient then tx.fee else tx.amount + tx.fee;
    l.accounts[tx.sender := Account(sender.balance - paid, sender.nonce + 1)]
  }

  function Transfer(net: Network, l: Ledger, tx: Transaction, height: int): Result<Ledger>
    requires Executable(net, l, tx, height)
  {
    var accounts := Debited(net, l, tx, height);
    var confirmed := l.confirmed + {net.txid(tx)};
    var recipient := AccountAt(l, tx.recipient);
    if tx.sender == tx.recipient then Ok(Ledger(accounts, confirmed))
    else if recipient.balance + tx.amount > U64_MAX then Err(RecipientOverflow)
    else
      var credited := Account(recipient.balance + tx.amount, recipient.nonce);
      Ok(Ledger(accounts[tx.recipient := credited], confirmed))
  }

  function ApplyOne(net: Network, l: Ledger, tx: Transaction, height: int): Result<Ledger> {
    match Check(net, l, tx, height)
    case Fail(fault) => Err(fault)
    case Pass => Transfer(net, l, tx, height)
  }

  /** Applies transactions left to right, adding up the fees and stopping at the first fault. */
  function ApplyAll(net: Network, l: Ledger, txs: seq<Transaction>, height: int): Result<Applied> {
    if txs == [] then Ok(Applied(l, 0))
    else ApplyNext(net, ApplyAll(net, l, txs[..|txs| - 1], height), txs[|txs| - 1], height)
  }

  function ApplyNext(net: Network, before: Result<Applied>, tx: Transaction, height: int): Result<Applied> {
    match before
    case Err(fault) => before
    case Ok(a) => AddFee(ApplyOne(net, a.ledger, tx, height), a.fees + tx.fee)
  }

  function AddFee(applied: Result<Ledger>, fees: int): Result<Applied> {
    match applied
    case Err(fault) => Err(fault)
    case Ok(l) => if fees > U64_MAX then Err(FeeOverflow) else Ok(Applied(l, fees))
  }

  /** One atomic batch at a block height. */
  function Batch(net: Network, l: Ledger, txs: seq<Transaction>, height: int): Result<Applied> {
    if !InU64(height) then Err(HeightOutOfRange) else ApplyAll(net, l, txs, height)
  }

  function Credit(net: Network, l: Ledger, address: Text, amount: int): Result<Ledger> {
    if !net.validAddress(address) then Err(InvalidAddress)
    else if !InU64(amount) then Err(RewardOutOfRange)
    else if amount == 0 then Ok(l)
    else
      var account := AccountAt(l, address);
      if account.balance + amount > U64_MAX then Err(RewardOverflow)
      else Ok(l.(accounts := l.accounts[address := Account(account.balance + amount, account.nonce)]))
  }

  // ---------------------------------------------------------------------------------------------
  // Conservation of atoms
  // ---------------------------------------------------------------------------------------------

  /** The sum of all balances. */
  ghost function Total(accounts: map<Text, Account>): (total: int)
    ensures total >= 0
    decreases |accounts|
  {
    if accounts == map[] then 0
    else
      var a :| a in accounts;
      assert |accounts - {a}| < |accounts| by { Shrinks(accounts, a); }
      accounts[a].balance + Total(accounts - {a})
  }

  lemma Shrinks(accounts: map<Text, Account>, a: Text)
    requires a in accounts
    ensures |accounts - {a}| == |accounts| - 1
  {
    assert (accounts - {a}).Keys == accounts.Keys - {a};
    assert |accounts| == |accounts.Keys| && |accounts - {a}| == |(accounts - {a}).Keys|;
  }

  lemma {:induction false} TotalSplits(accounts: map<Text, Account>, a: Text)
    requires a in accounts
    ensures Total(accounts) == accounts[a].balance + Total(accounts - {a})
    decreases |accounts|
  {
    var pick :| pick in accounts
      && Total(accounts) == accounts[pick].balance + Total(accounts - {pick});
    if pick != a {
      Shrinks(accounts, pick);
      Shrinks(accounts, a);
      TotalSplits(accounts - {pick}, a);
      TotalSplits(accounts - {a}, pick);
      assert accounts - {pick} - {a} == accounts - {a} - {pick};
    }
  }

  /** Rewriting one account moves the total by exactly the change of that balance. */
  lemma TotalAfterUpdate(l: Ledger, a: Text, account: Account)
    ensures Total(l.accounts[a := account])
         == Total(l.accounts) - AccountAt(l, a).balance + account.balance
  {
    var updated := l.accounts[a := account];
    TotalSplits(updated, a);
    if a in l.accounts {
      TotalSplits(l.accounts, a);
      assert updated - {a} == l.accounts - {a};
    } else {
      assert updated - {a} == l.accounts;
    }
  }

  lemma BalanceWithinTotal(l: Ledger, a: Text)
    ensures AccountAt(l, a).balance <= Total(l.accounts)
  {
    if a in l.accounts {
      TotalSplits(l.accounts, a);
    }
  }

  lemma TwoBalancesWithinTotal(l: Ledger, a: Text, b: Text)
    requires a != b
    ensures AccountAt(l, a).balance + AccountAt(l, b).balance <= Total(l.accounts)
  {
    BalanceWithinTotal(l, a);
    BalanceWithinTotal(l, b);
    if a in l.accounts && b in l.accounts {
      TotalSplits(l.accounts, a);
      TotalSplits(l.accounts - {a}, b);
    }
  }

  /** A transfer destroys its fee and nothing else, and it cannot overflow the recipient while
      all balances together fit 64 bits. */
  lemma TransferConserves(net: Network, l: Ledger, tx: Transaction, height: int)
    requires Executable(net, l, tx, height)
    ensures Transfer(net, l, tx, height).Ok? ==>
              Total(Transfer(net, l, tx, height).value.accounts) + tx.fee == Total(l.accounts)
    ensures Total(l.accounts) <= U64_MAX ==> Transfer(net, l, tx, height).Ok?
  {
    var accounts := Debited(net, l, tx, height);
    TotalAfterUpdate(l, tx.sender, accounts[tx.sender]);
    if tx.sender != tx.recipient {
      TwoBalancesWithinTotal(l, tx.sender, tx.recipient);
      var r := Transfer(net, l, tx, height);
      if r.Ok? {
        TotalAfterUpdate(Ledger(accounts, l.confirmed), tx.recipient, r.value.accounts[tx.recipient]);
      }
    }
  }

  /** Fees leave the accounts and nothing else does. */
  lemma {:induction false} BatchConserves(net: Network, l: Ledger, txs: seq<Transaction>, height: int)
    requires ApplyAll(net, l, txs, height).Ok?
    ensures var r := ApplyAll(net, l, txs, height).value;
            Total(r.ledger.accounts) + r.fees == Total(l.accounts) && r.fees >= 0
  {
    if txs != [] {
      var front, last := txs[..|txs| - 1], txs[|txs| - 1];
      BatchConserves(net, l, front, height);
      TransferConserves(net, ApplyAll(net, l, front, height).value.ledger, last, height);
    }
  }

  /** While all balances together fit 64 bits, the overflow branches of a batch are dead: a batch
      fails only because one of its transactions breaks a rule. */
  lemma {:induction false} BatchNeverOverflows(net: Network, l: Ledger, txs: seq<Transaction>, height: int)
    requires Total(l.accounts) <= U64_MAX
    ensures ApplyAll(net, l, txs, height).Err? ==>
              exists i, before ::
                && 0 <= i < |txs|
                && ApplyAll(net, l, txs[..i], height) == Ok(before)
                && Check(net, before.ledger, txs[i], height) == Fail(ApplyAll(net, l, txs, height).fault)
  {
    hide Check, Transfer, Total;
    if txs != [] {
      var front, last := txs[..|txs| - 1], txs[|txs| - 1];
      BatchNeverOverflows(net, l, front, height);
      if ApplyAll(net, l, front, height).Ok? {
        var before := ApplyAll(net, l, front, height).value;
        BatchConserves(net, l, front, height);
        if Executable(net, before.ledger, last, height) {
          TransferConserves(net, before.ledger, last, height);
        }
      } else {
        var i, before :| 0 <= i < |front| && ApplyAll(net, l, front[..i], height) == Ok(before)
          && Check(net, before.ledger, front[i], height) == Fail(ApplyAll(net, l, front, height).fault);
        assert front[..i] == txs[..i] && front[i] == txs[i];
      }
    }
  }

  // ---------------------------------------------------------------------------------------------
  // Nonces and replay
  // ---------------------------------------------------------------------------------------------

  function SentBy(txs: seq<Transaction>, address: Text): nat {
    if txs == [] then 0
    else SentBy(txs[..|txs| - 1], address) + if txs[|txs| - 1].sender == address then 1 else 0
  }

  function Txids(net: Network, txs: seq<Transaction>): set<Hash> {
    set tx | tx in txs :: net.txid(tx)
  }

  predicate DistinctTxids(net: Network, txs: seq<Transaction>) {
    forall i, j :: 0 <= i < j < |txs| ==> net.txid(txs[i]) != net.txid(txs[j])
  }

  /** Each sender's k-th transaction of the list carries the nonce `k` past its starting one. */
  predicate NoncesCount(l: Ledger, txs: seq<Transaction>) {
    forall i :: 0 <= i < |txs| ==>
      txs[i].nonce == AccountAt(l, txs[i].sender).nonce + SentBy(txs[..i], txs[i].sender)
  }

  /** One transaction advances its sender's nonce, confirms its identifier, keeps addresses valid. */
  lemma TransferAccounts(net: Network, l: Ledger, tx: Transaction, height: int)
    requires ApplyOne(net, l, tx, height).Ok?
    ensures var l' := ApplyOne(net, l, tx, height).value;
            && (forall a :: AccountAt(l', a).nonce
                         == AccountAt(l, a).nonce + if a == tx.sender then 1 else 0)
            && l'.confirmed == l.confirmed + {net.txid(tx)}
            && (AddressesValid(net, l) ==> AddressesValid(net, l'))
    ensures tx.nonce == AccountAt(l, tx.sender).nonce && net.txid(tx) !in l.confirmed
  {
  }

  /** A successful batch advances each nonce by the number of transactions sent and confirms
      exactly the batch's identifiers. */
  lemma {:induction false} BatchAdvances(net: Network, l: Ledger, txs: seq<Transaction>, height: int)
    requires ApplyAll(net, l, txs, height).Ok?
    ensures var l' := ApplyAll(net, l, txs, height).value.ledger;
            && (forall a :: AccountAt(l', a).nonce == AccountAt(l, a).nonce + SentBy(txs, a))
            && l'.confirmed == l.confirmed + Txids(net, txs)
            && (AddressesValid(net, l) ==> AddressesValid(net, l'))
  {
    if txs != [] {
      var front, last := txs[..|txs| - 1], txs[|txs| - 1];
      BatchAdvances(net, l, front, height);
      TransferAccounts(net, ApplyAll(net, l, front, height).value.ledger, last, height);
      assert txs == front + [last];
      assert Txids(net, txs) == Txids(net, front) + {net.txid(last)};
    } else {
      assert Txids(net, txs) == {};
    }
  }

  /** The transaction at position `i` of a successful batch ran on what the ones before it left. */
  lemma {:induction false} RunsOnPrefix(net: Network, l: Ledger, txs: seq<Transaction>, i: nat, height: int)
    requires ApplyAll(net, l, txs, height).Ok? && i < |txs|
    ensures ApplyAll(net, l, txs[..i], height).Ok?
    ensures ApplyOne(net, ApplyAll(net, l, txs[..i], height).value.ledger, txs[i], height).Ok?
  {
    BatchStep(net, l, txs, i, height);
    if ApplyAll(net, l, txs[..i + 1], height).Err? {
      StopsEarly(net, l, txs, i + 1, height);
    }
  }

  /** A successful batch contains neither a repeated nor an already confirmed transaction, and
      each sender's nonces run on without a gap. */
  lemma BatchIsFresh(net: Network, l: Ledger, txs: seq<Transaction>, height: int)
    requires ApplyAll(net, l, txs, height).Ok?
    ensures NoncesCount(l, txs) && DistinctTxids(net, txs) && Txids(net, txs) !! l.confirmed
  {
    forall i | 0 <= i < |txs|
      ensures txs[i].nonce == AccountAt(l, txs[i].sender).nonce + SentBy(txs[..i], txs[i].sender)
      ensures net.txid(txs[i]) !in l.confirmed + Txids(net, txs[..i])
    {
      RunsOnPrefix(net, l, txs, i, height);
      BatchAdvances(net, l, txs[..i], height);
      TransferAccounts(net, ApplyAll(net, l, txs[..i], height).value.ledger, txs[i], height);
    }
    forall i, j | 0 <= i < j < |txs| ensures net.txid(txs[i]) != net.txid(txs[j]) {
      assert txs[i] == txs[..j][i] && net.txid(txs[..j][i]) in Txids(net, txs[..j]);
    }
  }

  /** Replaying any transaction of a confirmed batch is refused. */
  lemma ReplayIsRefused(net: Network, l: Ledger, txs: seq<Transaction>, height: int,
                        tx: Transaction, later: int)
    requires ApplyAll(net, l, txs, height).Ok? && tx in txs
    ensures ApplyOne(net, ApplyAll(net, l, txs, height).value.ledger, tx, later).Err?
  {
    BatchAdvances(net, l, txs, height);
    assert net.txid(tx) in Txids(net, txs);
  }

  // ---------------------------------------------------------------------------------------------
  // The mutable container
  // ---------------------------------------------------------------------------------------------

  /** A mutable state container that commits only complete valid transitions. */
  class AccountState {
    const net: Network
    var accounts: map<Text, Account>
    var confirmed: set<Hash>

    function Snapshot(): Ledger
      reads this
    {
      Ledger(accounts, confirmed)
    }

    ghost predicate Valid()
      reads this
    {
      AddressesValid(net, Snapshot())
    }

    constructor (net: Network, l: Ledger)
      requires AddressesValid(net, l)
      ensures Valid() && this.net == net && Snapshot() == l
    {
      this.net := net;
      accounts, confirmed := l.accounts, l.confirmed;
    }

    method Copy() returns (copy: AccountState)
      requires Valid()
      ensures fresh(copy) && copy.Valid() && copy.net == net && copy.Snapshot() == Snapshot()
    {
      copy := new AccountState(net, Snapshot());
    }

    method GetAccount(address: Text) returns (r: Result<Account>)
      ensures r == if net.validAddress(address) then Ok(AccountAt(Snapshot(), address))
                   else Err(InvalidAddress)
    {
      if !net.validAddress(address) {
        return Err(InvalidAddress);
      }
      r := Ok(if address in accounts then accounts[address] else Account(0, 0));
    }

    method CreditReward(address: Text, amount: int) returns (o: Outcome)
      requires Valid()
      modifies this
      ensures Valid()
      ensures match Credit(net, old(Snapshot()), address, amount)
              case Ok(l) => o == Pass && Snapshot() == l
              case Err(fault) => o == Fail(fault) && Snapshot() == old(Snapshot())
    {
      if !net.validAddress(address) { return Fail(InvalidAddress); }
      if !InU64(amount) { return Fail(RewardOutOfRange); }
      if amount == 0 { return Pass; }
      var account := if address in accounts then accounts[address] else Account(0, 0);
      var balance := account.balance + amount;
      if balance > U64_MAX { return Fail(RewardOverflow); }
      accounts := accounts[address := Account(balance, account.nonce)];
      o := Pass;
    }

    /** Applies one checked transaction in place. On overflow the sender has already paid: only
        `ApplyTransactions`, which works on a copy, is atomic. */
    method ApplyValidated(tx: Transaction, ghost height: int) returns (r: Result<int>)
      requires Valid() && Executable(net, Snapshot(), tx, height)
      modifies this
      ensures Valid()
      ensures match Transfer(net, old(Snapshot()), tx, height)
              case Ok(l) => r == Ok(tx.fee) && Snapshot() == l
              case Err(fault) =>
                r == Err(fault)
                && Snapshot() == Ledger(Debited(net, old(Snapshot()), tx, height), old(confirmed))
    {
      var sender := if tx.sender in accounts then accounts[tx.sender] else Account(0, 0);
      var recipient := if tx.recipient in accounts then accounts[tx.recipient] else Account(0, 0);
      if tx.sender == tx.recipient {
        accounts := accounts[tx.sender := Account(sender.balance - tx.fee, sender.nonce + 1)];
      } else {
        accounts := accounts[tx.sender :=
          Account(sender.balance - tx.amount - tx.fee, sender.nonce + 1)];
        var recipientBalance := recipient.balance + tx.amount;
        if recipientBalance > U64_MAX { return Err(RecipientOverflow); }
        accounts := accounts[tx.recipient := Account(recipientBalance, recipient.nonce)];
      }
      confirmed := confirmed + {net.txid(tx)};
      r := Ok(tx.fee);
    }

    /** Checks one transaction against the current accounts and applies it in place. */
    method ValidateAndApply(tx: Transaction, height: int) returns (r: Result<int>)
      requires Valid()
      modifies this
      ensures Valid()
      ensures match ApplyOne(net, old(Snapshot()), tx, height)
              case Ok(l) => r == Ok(tx.fee) && Snapshot() == l
              case Err(fault) => r == Err(fault)
      ensures r.Ok? ==>
                && height <= tx.validUntil && tx.chainId == net.chainId
                && tx.sender == net.addressOf(tx.senderPublicKey) && net.verifies(tx)
                && net.validAddress(tx.sender) && net.validAddress(tx.recipient)
                && 0 < tx.amount && 0 <= tx.fee && tx.amount + tx.fee <= U64_MAX
    {
      var check := Check(net, Snapshot(), tx, height);
      if check.Fail? { return Err(check.fault); }
      r := ApplyValidated(tx, height);
    }

    /** Applies transactions one after another in place, adding up their fees. A fault leaves the
        ones before it applied. */
    method ApplyEach(txs: seq<Transaction>, height: int) returns (r: Result<int>)
      requires Valid()
      modifies this
      ensures Valid()
      ensures match ApplyAll(net, old(Snapshot()), txs, height)
              case Ok(applied) => r == Ok(applied.fees) && Snapshot() == applied.ledger
              case Err(fault) => r == Err(fault)
    {
      hide ApplyOne, ValidAt;
      ghost var start := Snapshot();
      var fees := 0;
      for i := 0 to |txs|
        invariant Valid()
        invariant ApplyAll(net, start, txs[..i], height) == Ok(Applied(Snapshot(), fees))
      {
        BatchGoesOn(net, start, txs, i, height, Applied(Snapshot(), fees));
        var fee := ValidateAndApply(txs[i], height);
        if fee.Err? { return fee; }
        fees := fees + fee.value;
        if fees > U64_MAX { return Err(FeeOverflow); }
      }
      assert txs[..|txs|] == txs;
      r := Ok(fees);
    }

    /** All or nothing: the batch runs on a copy whose fields are taken over only at the end. */
    method ApplyTransactions(txs: seq<Transaction>, height: int) returns (r: Result<int>)
      requires Valid()
      modifies this
      ensures Valid()
      ensures match Batch(net, old(Snapshot()), txs, height)
              case Ok(applied) => r == Ok(applied.fees) && Snapshot() == applied.ledger
              case Err(fault) => r == Err(fault) && Snapshot() == old(Snapshot())
    {
      if !InU64(height) { return Err(HeightOutOfRange); }
      var working := Copy();
      r := working.ApplyEach(txs, height);
      if r.Ok? {
        accounts, confirmed := working.accounts, working.confirmed;
      }
    }
  }

  lemma BatchStep(net: Network, l: Ledger, txs: seq<Transaction>, i: nat, height: int)
    requires i < |txs|
    ensures ApplyAll(net, l, txs[..i + 1], height)
         == ApplyNext(net, ApplyAll(net, l, txs[..i], height), txs[i], height)
  {
    assert txs[..i + 1][..i] == txs[..i];
  }

  lemma BatchGoesOn(net: Network, l: Ledger, txs: seq<Transaction>, i: nat, height: int, before: Applied)
    requires i < |txs| && ApplyAll(net, l, txs[..i], height) == Ok(before)
    ensures match ApplyOne(net, before.ledger, txs[i], height)
            case Err(fault) => ApplyAll(net, l, txs, height) == Err(fault)
            case Ok(after) =>
              var fees := before.fees + txs[i].fee;
              if fees > U64_MAX then ApplyAll(net, l, txs, height) == Err(FeeOverflow)
              else ApplyAll(net, l, txs[..i + 1], height) == Ok(Applied(after, fees))
  {
    BatchStep(net, l, txs, i, height);
    if ApplyAll(net, l, txs[..i + 1], height).Err? {
      StopsEarly(net, l, txs, i + 1, height);
    }
  }

  /** A prefix that fails makes the whole batch fail with the same fault. */
  lemma {:induction false} StopsEarly(net: Network, l: Ledger, txs: seq<Transaction>, i: nat, height: int)
    requires i <= |txs| && ApplyAll(net, l, txs[..i], height).Err?
    ensures ApplyAll(net, l, txs, height) == ApplyAll(net, l, txs[..i], height)
    decreases |txs|
  {
    if i < |txs| {
      assert txs[..|txs| - 1][..i] == txs[..i];
      StopsEarly(net, l, txs[..|txs| - 1], i, height);
    } else {
      assert txs[..i] == txs;
    }
  }
}
