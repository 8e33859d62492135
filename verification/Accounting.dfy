/** What stands behind the numbers of a branch, said in the fields of its blocks and transactions: every
    header is backed by proof of work, every transfer by its sender's own signature, and every balance by
    the payments, receipts and rewards of its account. */
module Accounting {
  import opened Types
  import opened Transactions
  import opened State
  import opened Emission
  import opened Consensus
  import opened Branches
  import opened BlockTree
  import opened ChainRuns

  // Authorization

  /** Everything a batch executes is unexpired, of this network, between valid addresses, of a positive
      amount, and signed with the key the sender's address belongs to. */
  lemma BatchIsAuthorized(net: Network, l: Ledger, txs: seq<Transaction>, height: int)
    requires ApplyAll(net, l, txs, height).Ok?
    ensures forall tx :: tx in txs ==>
              && height <= tx.validUntil
              && tx.sender == net.addressOf(tx.senderPublicKey) && net.verifies(tx)
              && tx.chainId == net.chainId
              && net.validAddress(tx.sender) && net.validAddress(tx.recipient)
              && 0 < tx.amount && 0 <= tx.fee && tx.amount + tx.fee <= U64_MAX
  {
    forall tx | tx in txs
      ensures ValidAt(net, tx, height)
    {
      var i :| 0 <= i < |txs| && txs[i] == tx;
      RunsOnPrefix(net, l, txs, i, height);
    }
  }

  /** The same for every block of a valid branch, at its own height. */
  lemma BranchIsAuthorized(net: Network, blocks: seq<Block>, k: nat)
    requires ValidBranch(net, blocks) && 0 < k < |blocks|
    ensures forall tx :: tx in blocks[k].transactions ==>
              && k <= tx.validUntil
              && tx.sender == net.addressOf(tx.senderPublicKey) && net.verifies(tx)
              && tx.chainId == net.chainId
              && net.validAddress(tx.sender) && net.validAddress(tx.recipient)
              && 0 < tx.amount && 0 <= tx.fee && tx.amount + tx.fee <= U64_MAX
  {
    hide RunBranch, ApplyAll;
    var s, paid := BlockSteps(net, blocks, k);
    BatchIsAuthorized(net, s.ledger, blocks[k].transactions, k);
  }

  /** What the block at height `k` of a valid branch did to the ledger below it. */
  lemma BlockSteps(net: Network, blocks: seq<Block>, k: nat) returns (s: BranchState, paid: Settlement)
    requires ValidBranch(net, blocks) && 0 < k < |blocks|
    ensures RunBranch(net, blocks[..k]) == Ok(s) && ValidBranch(net, blocks[..k + 1])
    ensures blocks[k].header.height == k
    ensures ApplyAll(net, s.ledger, blocks[k].transactions, k) == Ok(Applied(paid.ledger, paid.fees))
    ensures blocks[k].reward.amount == paid.subsidy + paid.fees
    ensures Credit(net, paid.ledger, blocks[k].reward.miner, blocks[k].reward.amount)
         == Ok(RunBranch(net, blocks[..k + 1]).value.ledger)
  {
    hide RunBranch, ApplyAll, Credit, TargetAfter, WorkForTarget, TargetsFollow;
    var upTo := blocks[..k + 1];
    PrefixIsValid(net, blocks, k + 1);
    assert upTo[..|upTo| - 1] == blocks[..k] && upTo[|upTo| - 1] == blocks[k];
    s, paid := LastStep(net, upTo);
    RewardIsPaid(net, upTo, s, paid);
    BranchHeaders(net, blocks);
  }

  lemma RewardIsPaid(net: Network, blocks: seq<Block>, s: BranchState, paid: Settlement)
    requires ValidBranch(net, blocks) && |blocks| > 1 && RunBranch(net, blocks[..|blocks| - 1]) == Ok(s)
    requires var b := blocks[|blocks| - 1];
             && ApplyAll(net, s.ledger, b.transactions, b.header.height) == Ok(Applied(paid.ledger, paid.fees))
             && BlockSubsidy(b.header.height, s.supply) == Ok(paid.subsidy)
    ensures blocks[|blocks| - 1].reward.amount == paid.subsidy + paid.fees
  {
    hide ApplyAll, TargetAfter, WorkForTarget, Credit, BlockSubsidy;
    var front, b := blocks[..|blocks| - 1], blocks[|blocks| - 1];
    var again := ExecutionSteps(net, b, front[|front| - 1], s.ledger, s.supply, Some(TargetAfter(front)));
  }

  // Balances

  /** What an address receives in transfers. */
  function Received(txs: seq<Transaction>, a: Text): int {
    if txs == [] then 0
    else
      var tx := txs[|txs| - 1];
      Received(txs[..|txs| - 1], a) + if tx.recipient == a then tx.amount else 0
  }

  /** What an address pays, fees included. */
  function Paid(txs: seq<Transaction>, a: Text): int {
    if txs == [] then 0
    else
      var tx := txs[|txs| - 1];
      Paid(txs[..|txs| - 1], a) + if tx.sender == a then tx.amount + tx.fee else 0
  }

  /** What an address mined: the rewards that name it. */
  function Mines(blocks: seq<Block>, a: Text): int {
    if blocks == [] then 0
    else
      var reward := blocks[|blocks| - 1].reward;
      Mines(blocks[..|blocks| - 1], a) + if reward.miner == a then reward.amount else 0
  }

  lemma TransferBalances(net: Network, l: Ledger, tx: Transaction, height: int, a: Text)
    requires ApplyOne(net, l, tx, height).Ok?
    ensures AccountAt(ApplyOne(net, l, tx, height).value, a).balance
         == AccountAt(l, a).balance + (if tx.recipient == a then tx.amount else 0)
                                    - (if tx.sender == a then tx.amount + tx.fee else 0)
  {
    hide ValidAt, FirstBrokenRule;
  }

  /** A batch moves each balance by exactly what its account receives and pays. */
  lemma {:induction false} BatchBalances(net: Network, l: Ledger, txs: seq<Transaction>, height: int, a: Text)
    requires ApplyAll(net, l, txs, height).Ok?
    ensures AccountAt(ApplyAll(net, l, txs, height).value.ledger, a).balance
         == AccountAt(l, a).balance + Received(txs, a) - Paid(txs, a)
  {
    hide ApplyOne;
    if txs != [] {
      var front, last := txs[..|txs| - 1], txs[|txs| - 1];
      BatchBalances(net, l, front, height, a);
      TransferBalances(net, ApplyAll(net, l, front, height).value.ledger, last, height, a);
    }
  }

  lemma CreditedBalance(net: Network, l: Ledger, miner: Text, amount: int, a: Text)
    requires Credit(net, l, miner, amount).Ok?
    ensures var l' := Credit(net, l, miner, amount).value;
            && AccountAt(l', a).balance == AccountAt(l, a).balance + (if a == miner then amount else 0)
            && AccountAt(l', a).nonce == AccountAt(l, a).nonce && l'.confirmed == l.confirmed
    ensures amount >= 0
  {
  }

  /** One block moves each balance by its receipts, its payments and its reward. */
  lemma BlockBalances(net: Network, blocks: seq<Block>, k: nat, a: Text)
    requires ValidBranch(net, blocks) && 0 < k < |blocks|
    ensures ValidBranch(net, blocks[..k]) && ValidBranch(net, blocks[..k + 1])
    ensures blocks[k].reward.amount >= 0
    ensures AccountAt(RunBranch(net, blocks[..k + 1]).value.ledger, a).balance
         == AccountAt(RunBranch(net, blocks[..k]).value.ledger, a).balance
            + Received(blocks[k].transactions, a) - Paid(blocks[k].transactions, a)
            + if a == blocks[k].reward.miner then blocks[k].reward.amount else 0
  {
    hide RunBranch, ApplyAll, Credit, Received, Paid;
    var s, paid := BlockSteps(net, blocks, k);
    BatchBalances(net, s.ledger, blocks[k].transactions, k, a);
    CreditedBalance(net, paid.ledger, blocks[k].reward.miner, blocks[k].reward.amount, a);
  }

  /** The balance sheet of an account on any branch: what it mined, plus what it received, minus what it
      paid. */
  lemma {:induction false} BranchBalances(net: Network, blocks: seq<Block>, a: Text)
    requires ValidBranch(net, blocks)
    ensures AccountAt(RunBranch(net, blocks).value.ledger, a).balance
         == Mines(blocks, a) + Received(TransactionsOf(blocks), a) - Paid(TransactionsOf(blocks), a)
  {
    BranchIsNonempty(net, blocks);
    if |blocks| == 1 {
      GenesisCounts(net, blocks);
      GenesisMinesNothing(net, blocks, a);
    } else {
      hide RunBranch, Received, Paid, TransactionsOf;
      var n := |blocks| - 1;
      assert blocks[..n + 1] == blocks;
      BranchBalances(net, blocks[..n], a);
      BlockBalances(net, blocks, n, a);
      SheetGrows(blocks, a);
    }
  }

  lemma GenesisMinesNothing(net: Network, blocks: seq<Block>, a: Text)
    requires ValidBranch(net, blocks) && |blocks| == 1
    ensures Mines(blocks, a) == 0 && Received([], a) == 0 && Paid([], a) == 0
  {
    assert blocks[..0] == [];
  }

  lemma SheetGrows(blocks: seq<Block>, a: Text)
    requires |blocks| > 0
    ensures var front, b := blocks[..|blocks| - 1], blocks[|blocks| - 1];
            && Received(TransactionsOf(blocks), a) == Received(TransactionsOf(front), a) + Received(b.transactions, a)
            && Paid(TransactionsOf(blocks), a) == Paid(TransactionsOf(front), a) + Paid(b.transactions, a)
  {
    SheetConcat(TransactionsOf(blocks[..|blocks| - 1]), blocks[|blocks| - 1].transactions, a);
  }

  lemma {:induction false} SheetConcat(x: seq<Transaction>, y: seq<Transaction>, a: Text)
    ensures Received(x + y, a) == Received(x, a) + Received(y, a)
    ensures Paid(x + y, a) == Paid(x, a) + Paid(y, a)
  {
    if y == [] {
      assert x + y == x;
    } else {
      assert (x + y)[..|x + y| - 1] == x + y[..|y| - 1];
      SheetConcat(x, y[..|y| - 1], a);
    }
  }

  lemma {:induction false} NobodyPaid(txs: seq<Transaction>, a: Text)
    requires forall tx :: tx in txs ==> tx.sender != a && tx.amount >= 0
    ensures Paid(txs, a) == 0 && Received(txs, a) >= 0
  {
    if txs != [] {
      NobodyPaid(txs[..|txs| - 1], a);
    }
  }

  /** On no branch does a balance fall in a block without an unexpired transaction there that the
      account's own key has signed. */
  lemma BalanceFallsOnlyByOwnSignature(net: Network, blocks: seq<Block>, k: nat, a: Text)
    requires ValidBranch(net, blocks) && 0 < k < |blocks|
    ensures ValidBranch(net, blocks[..k]) && ValidBranch(net, blocks[..k + 1])
    ensures AccountAt(RunBranch(net, blocks[..k + 1]).value.ledger, a).balance
            < AccountAt(RunBranch(net, blocks[..k]).value.ledger, a).balance ==>
              exists tx :: tx in blocks[k].transactions && tx.sender == a && k <= tx.validUntil
                && a == net.addressOf(tx.senderPublicKey) && net.verifies(tx)
  {
    hide RunBranch, Received, Paid;
    BlockBalances(net, blocks, k, a);
    BranchIsAuthorized(net, blocks, k);
    if forall tx :: tx in blocks[k].transactions ==> tx.sender != a {
      NobodyPaid(blocks[k].transactions, a);
    }
  }

  // Work

  /** Every header above genesis on a valid branch hashes to a number not above its target. */
  lemma BranchIsMined(net: Network, blocks: seq<Block>, k: nat)
    requires ValidBranch(net, blocks) && 0 < k < |blocks|
    ensures net.hashValue(net.blockHash(blocks[k].header)) <= blocks[k].header.target
  {
    hide RunBranch, ExecuteBody, TargetAfter;
    var s := StepOfBranch(net, blocks, k);
  }

  /** 2^256 over the target plus one, rounded down, for each header. */
  function HashesExpected(blocks: seq<Block>): int
    requires forall i :: 0 <= i < |blocks| ==> TargetInRange(blocks[i].header.target)
  {
    if blocks == [] then 0
    else
      var target := blocks[|blocks| - 1].header.target;
      assert TargetInRange(target);
      HashesExpected(blocks[..|blocks| - 1]) + (MAX_TARGET + 1) / (target + 1)
  }

  /** The work of a branch adds up that of its own headers, genesis included. */
  lemma {:induction false} BranchWork(net: Network, blocks: seq<Block>)
    requires ValidBranch(net, blocks)
    ensures forall i :: 0 <= i < |blocks| ==> TargetInRange(blocks[i].header.target)
    ensures RunBranch(net, blocks).value.work == HashesExpected(blocks)
  {
    hide RunBranch, TargetAfter, TargetsFollow;
    BranchHeaders(net, blocks);
    if |blocks| == 1 {
      GenesisCounts(net, blocks);
      GenesisWork(net, blocks);
    } else {
      var s, paid := LastStep(net, blocks);
      BranchWork(net, blocks[..|blocks| - 1]);
    }
  }

  lemma GenesisWork(net: Network, blocks: seq<Block>)
    requires |blocks| == 1 && blocks[0] == GenesisBlock(net)
    ensures HashesExpected(blocks) == GENESIS_STATE.work
  {
    assert HashesExpected(blocks[..0]) == 0;
  }

  /** In every reachable tree, whatever was attempted, every entry above genesis carries its proof of work
      and transactions authorized by their senders. */
  lemma EveryEntryIsEarned(net: Network, attempts: seq<Block>, h: Hash)
    requires h in Run(net, attempts).entries && Run(net, attempts).entries[h].record.height > 0
    ensures var e := Run(net, attempts).entries[h];
            && net.hashValue(h) <= e.block.header.target
            && forall tx :: tx in e.block.transactions ==>
                 && e.record.height <= tx.validUntil
                 && tx.sender == net.addressOf(tx.senderPublicKey) && net.verifies(tx)
                 && tx.chainId == net.chainId
                 && net.validAddress(tx.sender) && net.validAddress(tx.recipient)
                 && 0 < tx.amount && 0 <= tx.fee && tx.amount + tx.fee <= U64_MAX
  {
    hide RunBranch, Run, BlocksOf;
    var t := Run(net, attempts);
    var blocks := BlocksOf(net, t, h);
    assert EntryHoldsItsBranch(net, t, h) && EntryLinked(net, t.entries, h);
    BranchIsMined(net, blocks, |blocks| - 1);
    BranchIsAuthorized(net, blocks, |blocks| - 1);
  }
}
