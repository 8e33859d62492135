/** The meaning of one branch: executing its blocks in order from genesis.

    Everything the ledger promises about a branch is proved here by induction on its blocks. Module
    `Chain` then shows that each entry of the block tree holds exactly the result of its branch. */
module Branches {
  import opened Types
  import opened State
  import opened Emission
  import opened Consensus

  const TARGET_BLOCK_SECONDS := 60
  // One adjustment every 120 blocks. The window holds 119 intervals of 60 seconds, 7140 in all, and
  // its timespan is clamped to [7140 / 4, 7140 * 4] == [1785, 28560]. These numbers and 2^256 are
  // written as literals, which keeps the verifier's arithmetic linear.
  const MAX_BLOCK_WORK: int :=
    0x8000_0000_0000_0000_0000_0000_0000_0000_0000_0000_0000_0000_0000_0000_0000_0000
  const WORK_LIMIT: int :=
    0x1_0000_0000_0000_0000_0000_0000_0000_0000_0000_0000_0000_0000_0000_0000_0000_0000_0000_0000_0000_0000

  // ---------------------------------------------------------------------------------------------
  // Work and difficulty
  // ---------------------------------------------------------------------------------------------

  /** The expected number of hashes behind one header. */
  function WorkForTarget(target: int): int
    requires TargetInRange(target)
  {
    0x1_0000_0000_0000_0000_0000_0000_0000_0000_0000_0000_0000_0000_0000_0000_0000_0000 / (target + 1)
  }

  /** A header never counts for nothing, and never for more than half the hash space. */
  lemma WorkIsBounded(target: int)
    requires TargetInRange(target)
    ensures 1 <= WorkForTarget(target) <= MAX_BLOCK_WORK
  {
    var work := WorkForTarget(target);
    var all := MAX_TARGET + 1;
    assert all == (target + 1) * work + all % (target + 1);
    assert (target + 1) * work >= 2 * work;
  }

  /** Work is 2^256 / (target + 1) rounded down, so a smaller target never counts for less. */
  lemma WorkIsTheFloor(target: int, easier: int)
    requires TargetInRange(target) && TargetInRange(easier) && target <= easier
    ensures WorkForTarget(target) * (target + 1) <= MAX_TARGET + 1 < (WorkForTarget(target) + 1) * (target + 1)
    ensures WorkForTarget(easier) <= WorkForTarget(target)
  {
    QuotientIsTheFloor(MAX_TARGET + 1, target + 1);
    QuotientFalls(MAX_TARGET + 1, target + 1, easier + 1);
  }

  lemma QuotientIsTheFloor(n: nat, d: nat)
    requires d > 0
    ensures n / d * d <= n < (n / d + 1) * d
  {
  }

  lemma QuotientFalls(n: nat, d: nat, e: nat)
    requires 0 < d <= e
    ensures n / e <= n / d
  {
    var q := n / e;
    QuotientIsTheFloor(n, d);
    QuotientIsTheFloor(n, e);
    ProductRises(q, d, e);
    if q > n / d {
      ProductRises(d, n / d + 1, q);
    }
  }

  lemma ProductRises(k: nat, a: int, b: int)
    requires a <= b
    ensures k * a <= k * b && a * k <= b * k
  {
  }

  function Clamp(value: int, low: int, high: int): int {
    Min(Max(value, low), high)
  }

  function Max(a: int, b: int): int {
    if a < b then b else a
  }

  /** The retargeting rule over a window's timespan. */
  function Retarget(target: int, timespan: int): int {
    Clamp(target * Clamp(timespan, 1785, 28560) / 7140, 1, MAX_TARGET)
  }

  /** Whatever the timestamps say, one adjustment is at most fourfold either way. */
  lemma RetargetIsAtMostFourfold(target: int, timespan: int)
    requires TargetInRange(target)
    ensures TargetInRange(Retarget(target, timespan))
    ensures target / 4 <= Retarget(target, timespan) <= 4 * target
  {
    var bounded := Clamp(timespan, 1785, 28560);
    assert target * 1785 <= target * bounded <= target * 28560;
    assert target * 1785 / 7140 == target / 4;
  }

  /** A window that took as long as intended leaves the target alone, and a longer one never makes
      mining harder than a shorter one. */
  lemma RetargetFollowsTheClock(target: int, shorter: int, longer: int)
    requires TargetInRange(target) && shorter <= longer
    ensures Retarget(target, 7140) == target
    ensures Retarget(target, shorter) <= Retarget(target, longer)
  {
    var a, b := Clamp(shorter, 1785, 28560), Clamp(longer, 1785, 28560);
    ProductRises(target, a, b);
    QuotientRises(target * a, target * b);
  }

  lemma QuotientRises(a: int, b: int)
    requires a <= b
    ensures a / 7140 <= b / 7140
  {
  }

  /** The target required of the block that comes after a branch. */
  function TargetAfter(blocks: seq<Block>): int
    requires |blocks| > 0
  {
    var parent := blocks[|blocks| - 1].header;
    if |blocks| % 120 != 0 then parent.target
    else
      Retarget(parent.target,
               parent.timestamp - blocks[|blocks| - 120].header.timestamp)
  }

  /** The adjustment in numbers, for every branch. Between adjustments the target stays. At one it is
      multiplied by the time the last 120 blocks took, brought into a quarter to four times the
      intended 7140 seconds, divided by 7140, rounded down, and kept in range. */
  lemma TargetIsProportional(blocks: seq<Block>)
    requires |blocks| > 0 && TargetInRange(blocks[|blocks| - 1].header.target)
    ensures |blocks| % 120 != 0 ==> TargetAfter(blocks) == blocks[|blocks| - 1].header.target
    ensures |blocks| % 120 == 0 ==>
              var last, first := blocks[|blocks| - 1].header, blocks[|blocks| - 120].header;
              var taken := last.timestamp - first.timestamp;
              var s := if taken < 1785 then 1785 else if taken > 28560 then 28560 else taken;
              var next := TargetAfter(blocks);
              && (last.target * s < 7140 ==> next == 1)
              && (last.target * s >= 7140 * (MAX_TARGET + 1) ==> next == MAX_TARGET)
              && (7140 <= last.target * s < 7140 * (MAX_TARGET + 1) ==>
                    next * 7140 <= last.target * s < (next + 1) * 7140)
  {
    if |blocks| % 120 == 0 {
      var last, first := blocks[|blocks| - 1].header, blocks[|blocks| - 120].header;
      RetargetIsProportional(last.target, last.timestamp - first.timestamp);
    }
  }

  lemma RetargetIsProportional(target: int, taken: int)
    requires TargetInRange(target)
    ensures var s := if taken < 1785 then 1785 else if taken > 28560 then 28560 else taken;
            var next := Retarget(target, taken);
            && (target * s < 7140 ==> next == 1)
            && (target * s >= 7140 * (MAX_TARGET + 1) ==> next == MAX_TARGET)
            && (7140 <= target * s < 7140 * (MAX_TARGET + 1) ==> next * 7140 <= target * s < (next + 1) * 7140)
  {
    var s := Clamp(taken, 1785, 28560);
    ProductRises(target, 0, s);
    FloorOfSevenThousand(target * s);
  }

  lemma FloorOfSevenThousand(n: nat)
    ensures n / 7140 * 7140 <= n < (n / 7140 + 1) * 7140
    ensures n < 7140 ==> n / 7140 == 0
    ensures n >= 7140 * (MAX_TARGET + 1) ==> n / 7140 > MAX_TARGET
  {
  }

  // ---------------------------------------------------------------------------------------------
  // Executing a branch
  // ---------------------------------------------------------------------------------------------

  datatype BranchState = BranchState(ledger: Ledger, supply: int, work: int)

  predicate GenesisMined(net: Network) {
    Mined(net, GenesisBlock(net))
  }

  const GENESIS_STATE := BranchState(EMPTY_LEDGER, 0, WorkForTarget(GENESIS_TARGET))

  /** Executes one more block on a branch. */
  function Extend(net: Network, blocks: seq<Block>, s: BranchState, b: Block): Result<BranchState>
    requires |blocks| > 0
  {
    var parent := blocks[|blocks| - 1];
    match Execute(net, b, Some(parent), s.ledger, s.supply, Some(TargetAfter(blocks)))
    case Err(fault) => Err(fault)
    case Ok(e) => Ok(BranchState(e.ledger, e.supply, s.work + WorkForTarget(b.header.target)))
  }

  /** Executes a whole branch from genesis. */
  function RunBranch(net: Network, blocks: seq<Block>): Result<BranchState> {
    if |blocks| == 0 then Err(NotGenesis)
    else if |blocks| == 1 then
      if blocks[0] == GenesisBlock(net) then Ok(GENESIS_STATE) else Err(NotGenesis)
    else
      var front := blocks[..|blocks| - 1];
      match RunBranch(net, front)
      case Err(fault) => Err(fault)
      case Ok(s) => Extend(net, front, s, blocks[|blocks| - 1])
  }

  predicate ValidBranch(net: Network, blocks: seq<Block>) {
    RunBranch(net, blocks).Ok?
  }

  /** The branch one block longer. */
  lemma RunBranchExtends(net: Network, blocks: seq<Block>, b: Block)
    requires ValidBranch(net, blocks)
    ensures RunBranch(net, blocks + [b]) == Extend(net, blocks, RunBranch(net, blocks).value, b)
  {
    assert (blocks + [b])[..|blocks|] == blocks;
  }

  lemma {:induction false} PrefixIsValid(net: Network, blocks: seq<Block>, k: nat)
    requires ValidBranch(net, blocks) && 0 < k <= |blocks|
    ensures ValidBranch(net, blocks[..k])
  {
    if k < |blocks| {
      var front := blocks[..|blocks| - 1];
      PrefixIsValid(net, front, k);
      assert front[..k] == blocks[..k];
    } else {
      assert blocks[..k] == blocks;
    }
  }

  /** The block at height `k` was executed on the branch below it. */
  lemma StepOfBranch(net: Network, blocks: seq<Block>, k: nat) returns (s: BranchState)
    requires ValidBranch(net, blocks) && 0 < k < |blocks|
    ensures RunBranch(net, blocks[..k]) == Ok(s)
    ensures Extend(net, blocks[..k], s, blocks[k]).Ok?
    ensures Extend(net, blocks[..k], s, blocks[k]) == RunBranch(net, blocks[..k + 1])
  {
    hide RunBranch, Extend;
    PrefixIsValid(net, blocks, k);
    PrefixIsValid(net, blocks, k + 1);
    assert blocks[..k + 1] == blocks[..k] + [blocks[k]];
    s := RunBranch(net, blocks[..k]).value;
    RunBranchExtends(net, blocks[..k], blocks[k]);
  }

  // ---------------------------------------------------------------------------------------------
  // Headers along a branch
  // ---------------------------------------------------------------------------------------------

  /** Height and links follow the position, time moves forward, targets stay in range. */
  predicate HeadersInOrder(net: Network, blocks: seq<Block>) {
    && |blocks| > 0 && blocks[0] == GenesisBlock(net)
    && (forall i :: 0 <= i < |blocks| ==>
          && blocks[i].header.height == i && i <= U64_MAX
          && TargetInRange(blocks[i].header.target)
          && GENESIS_TIMESTAMP + i <= blocks[i].header.timestamp <= U64_MAX)
    && (forall i :: 0 < i < |blocks| ==>
          && blocks[i].header.previous == net.HashOf(blocks[i - 1])
          && blocks[i - 1].header.timestamp < blocks[i].header.timestamp)
    && TargetsFollow(blocks)
  }

  predicate TargetsFollow(blocks: seq<Block>) {
    forall i :: 0 < i < |blocks| ==> blocks[i].header.target == TargetAfter(blocks[..i])
  }

  /** What the last block of a branch was checked against. */
  lemma LastStep(net: Network, blocks: seq<Block>) returns (s: BranchState, paid: Settlement)
    requires ValidBranch(net, blocks) && |blocks| > 1
    ensures var front, b := blocks[..|blocks| - 1], blocks[|blocks| - 1];
            var h, parent, after := b.header, front[|front| - 1], RunBranch(net, blocks).value;
            && RunBranch(net, front) == Ok(s)
            && h.height == parent.header.height + 1 && h.previous == net.HashOf(parent)
            && parent.header.timestamp < h.timestamp && InU64(h.timestamp) && InU64(h.height)
            && h.target == TargetAfter(front) && TargetInRange(h.target)
            && ApplyAll(net, s.ledger, b.transactions, h.height) == Ok(Applied(paid.ledger, paid.fees))
            && BlockSubsidy(h.height, s.supply) == Ok(paid.subsidy)
            && Credit(net, paid.ledger, b.reward.miner, paid.subsidy + paid.fees) == Ok(after.ledger)
            && after.supply == s.supply + paid.subsidy
            && after.work == s.work + WorkForTarget(h.target)
  {
    hide TargetAfter, WorkForTarget, GenesisBlock, ApplyAll, Credit;
    var front, b := blocks[..|blocks| - 1], blocks[|blocks| - 1];
    s := RunBranch(net, front).value;
    paid := ExecutionSteps(net, b, front[|front| - 1], s.ledger, s.supply, Some(TargetAfter(front)));
  }

  lemma {:induction false} BranchHeaders(net: Network, blocks: seq<Block>)
    requires ValidBranch(net, blocks)
    ensures HeadersInOrder(net, blocks)
  {
    if |blocks| > 1 {
      var front, b := blocks[..|blocks| - 1], blocks[|blocks| - 1];
      var _, _ := LastStep(net, blocks);
      BranchHeaders(net, front);
      HeadersExtend(net, front, b);
      assert blocks == front + [b];
    }
  }

  lemma HeadersExtend(net: Network, front: seq<Block>, b: Block)
    requires HeadersInOrder(net, front)
    requires var h, parent := b.header, front[|front| - 1];
             && h.height == parent.header.height + 1 && h.previous == net.HashOf(parent)
             && parent.header.timestamp < h.timestamp && InU64(h.timestamp) && InU64(h.height)
             && h.target == TargetAfter(front) && TargetInRange(h.target)
    ensures HeadersInOrder(net, front + [b])
  {
    hide TargetsFollow, GenesisBlock;
    TargetsExtend(front, b);
  }

  lemma TargetsExtend(front: seq<Block>, b: Block)
    requires |front| > 0 && TargetsFollow(front) && b.header.target == TargetAfter(front)
    ensures TargetsFollow(front + [b])
  {
    hide TargetAfter;
    var blocks := front + [b];
    forall i | 0 < i < |blocks| ensures blocks[i].header.target == TargetAfter(blocks[..i]) {
      assert i < |front| ==> front[..i] == blocks[..i] && front[i] == blocks[i];
      assert i == |front| ==> blocks[..i] == front;
    }
  }

  lemma HeightIsPosition(net: Network, blocks: seq<Block>)
    requires ValidBranch(net, blocks)
    ensures |blocks| > 0 && blocks[|blocks| - 1].header.height == |blocks| - 1
  {
    hide TargetsFollow;
    BranchHeaders(net, blocks);
  }

  /** Strictly increasing 64-bit timestamps run out long before heights do, so the node's
      "height is exhausted" errors cannot occur on a validated branch. */
  lemma HeightIsNeverExhausted(net: Network, blocks: seq<Block>)
    requires ValidBranch(net, blocks)
    ensures 0 <= |blocks| - 1 <= U64_MAX - GENESIS_TIMESTAMP
  {
    BranchHeaders(net, blocks);
    assert GENESIS_TIMESTAMP + (|blocks| - 1) <= blocks[|blocks| - 1].header.timestamp;
  }

  /** So on every branch each target follows from the headers before it. */
  lemma BranchTarget(net: Network, blocks: seq<Block>, k: nat)
    requires ValidBranch(net, blocks) && 0 < k < |blocks|
    ensures k % 120 != 0 ==> blocks[k].header.target == blocks[k - 1].header.target
    ensures k % 120 == 0 ==>
              var last, first, next := blocks[k - 1].header, blocks[k - 120].header, blocks[k].header.target;
              var taken := last.timestamp - first.timestamp;
              var s := if taken < 1785 then 1785 else if taken > 28560 then 28560 else taken;
              && (last.target * s < 7140 ==> next == 1)
              && (last.target * s >= 7140 * (MAX_TARGET + 1) ==> next == MAX_TARGET)
              && (7140 <= last.target * s < 7140 * (MAX_TARGET + 1) ==>
                    next * 7140 <= last.target * s < (next + 1) * 7140)
  {
    hide RunBranch, TargetAfter;
    BranchHeaders(net, blocks);
    assert blocks[..k][k - 1] == blocks[k - 1];
    TargetIsProportional(blocks[..k]);
  }

  /** Work strictly grows along a branch: every block adds at least one and at most half the
      hash space. */
  lemma {:induction false} WorkGrows(net: Network, blocks: seq<Block>)
    requires ValidBranch(net, blocks)
    ensures |blocks| <= RunBranch(net, blocks).value.work <= |blocks| * MAX_BLOCK_WORK
    ensures |blocks| > 1 ==>
              && ValidBranch(net, blocks[..|blocks| - 1])
              && RunBranch(net, blocks[..|blocks| - 1]).value.work < RunBranch(net, blocks).value.work
  {
    if |blocks| > 1 {
      var n := |blocks| - 1;
      var _, _ := LastStep(net, blocks);
      WorkGrows(net, blocks[..n]);
      WorkIsBounded(blocks[n].header.target);
      assert (n + 1) * MAX_BLOCK_WORK == n * MAX_BLOCK_WORK + MAX_BLOCK_WORK;
    } else {
      WorkIsBounded(GENESIS_TARGET);
    }
  }

  /** Cumulative work always fits the 40-byte field of the database and of the wire. */
  lemma WorkFitsFortyBytes(net: Network, blocks: seq<Block>)
    requires ValidBranch(net, blocks)
    ensures 0 < RunBranch(net, blocks).value.work < WORK_LIMIT
  {
    WorkGrows(net, blocks);
    HeightIsNeverExhausted(net, blocks);
    assert |blocks| * MAX_BLOCK_WORK <= 0x1_0000_0000_0000_0000 * MAX_BLOCK_WORK;
  }

  // ---------------------------------------------------------------------------------------------
  // Money along a branch
  // ---------------------------------------------------------------------------------------------

  /** On every branch the balances add up to the recorded supply, and the supply is a function of
      the height alone, strictly below the maximum. */
  lemma {:induction false} BranchConserves(net: Network, blocks: seq<Block>)
    requires ValidBranch(net, blocks)
    ensures var s := RunBranch(net, blocks).value;
            Total(s.ledger.accounts) == s.supply == Issued(|blocks| - 1) < MAX_SUPPLY_ATOMS
  {
    hide TargetAfter, WorkForTarget, Execute, ApplyAll, Credit, BlockSubsidy;
    IssuedStaysBelowMaximum(|blocks| - 1);
    if |blocks| > 1 {
      var front, b := blocks[..|blocks| - 1], blocks[|blocks| - 1];
      BranchConserves(net, front);
      HeightIsPosition(net, blocks);
      var s, paid := LastStep(net, blocks);
      BatchConserves(net, s.ledger, b.transactions, b.header.height);
      CreditAdds(net, paid.ledger, b.reward.miner, paid.subsidy + paid.fees);
      CapNeverBinds(|front|);
    }
  }

  /** On a validated branch a block can fail on a rule, never on an overflow: if its transactions
      execute and its shape is right, the reward it must pay can always be credited. */
  lemma BranchNeverOverflows(net: Network, blocks: seq<Block>, txs: seq<Transaction>, miner: Text)
    requires ValidBranch(net, blocks) && net.validAddress(miner)
    requires Batch(net, RunBranch(net, blocks).value.ledger, txs, |blocks|).Ok?
    ensures var s := RunBranch(net, blocks).value;
            && Settle(net, s.ledger, s.supply, txs, |blocks|).Ok?
            && var paid := Settle(net, s.ledger, s.supply, txs, |blocks|).value;
               && paid.subsidy == Scheduled(|blocks|)
               && Credit(net, paid.ledger, miner, paid.subsidy + paid.fees).Ok?
  {
    hide RunBranch, Scheduled, ApplyAll;
    var s := RunBranch(net, blocks).value;
    BranchConserves(net, blocks);
    SettlementNeverOverflows(net, s.ledger, s.supply, txs, |blocks|, miner);
    HeightIsNeverExhausted(net, blocks);
    CapNeverBinds(|blocks|);
  }

  /** And the transactions themselves fail on one of their own rules or not at all. */
  lemma BranchBatchNeverOverflows(net: Network, blocks: seq<Block>, txs: seq<Transaction>)
    requires ValidBranch(net, blocks)
    requires Batch(net, RunBranch(net, blocks).value.ledger, txs, |blocks|).Err?
    ensures Batch(net, RunBranch(net, blocks).value.ledger, txs, |blocks|).fault !in
              {HeightOutOfRange, FeeOverflow, RecipientOverflow}
  {
    hide RunBranch, ApplyAll;
    var l := RunBranch(net, blocks).value.ledger;
    BranchConserves(net, blocks);
    HeightIsNeverExhausted(net, blocks);
    BatchNeverOverflows(net, l, txs, |blocks|);
  }

  // ---------------------------------------------------------------------------------------------
  // Transactions along a branch
  // ---------------------------------------------------------------------------------------------

  /** All ordinary transactions of a branch, oldest first. */
  function TransactionsOf(blocks: seq<Block>): seq<Transaction> {
    if blocks == [] then []
    else TransactionsOf(blocks[..|blocks| - 1]) + blocks[|blocks| - 1].transactions
  }

  lemma {:induction false} SentByConcat(a: seq<Transaction>, b: seq<Transaction>, address: Text)
    ensures SentBy(a + b, address) == SentBy(a, address) + SentBy(b, address)
  {
    if b == [] {
      assert a + b == a;
    } else {
      assert (a + b)[..|a + b| - 1] == a + b[..|b| - 1];
      SentByConcat(a, b[..|b| - 1], address);
    }
  }

  lemma TxidsConcat(net: Network, a: seq<Transaction>, b: seq<Transaction>)
    ensures Txids(net, a + b) == Txids(net, a) + Txids(net, b)
  {
  }

  /** On every branch an account's nonce is the number of transactions it sent there, and the
      confirmed set is exactly the identifiers of the branch. */
  lemma {:induction false} BranchCounts(net: Network, blocks: seq<Block>)
    requires ValidBranch(net, blocks)
    ensures var s := RunBranch(net, blocks).value;
            && (forall a :: AccountAt(s.ledger, a).nonce == SentBy(TransactionsOf(blocks), a))
            && s.ledger.confirmed == Txids(net, TransactionsOf(blocks))
            && AddressesValid(net, s.ledger)
  {
    hide Txids, SentBy, ApplyAll, RunBranch, TransactionsOf, TargetAfter, Credit, AccountAt, AddressesValid;
    BranchIsNonempty(net, blocks);
    if |blocks| == 1 {
      GenesisCounts(net, blocks);
    } else {
      var front, b := blocks[..|blocks| - 1], blocks[|blocks| - 1];
      BranchCounts(net, front);
      var s, paid := LastStep(net, blocks);
      BatchAdvances(net, s.ledger, b.transactions, b.header.height);
      CreditAdds(net, paid.ledger, b.reward.miner, paid.subsidy + paid.fees);
      CountsOfLast(net, blocks);
    }
  }

  lemma GenesisCounts(net: Network, blocks: seq<Block>)
    requires ValidBranch(net, blocks) && |blocks| == 1
    ensures RunBranch(net, blocks) == Ok(GENESIS_STATE) && TransactionsOf(blocks) == []
    ensures forall a :: AccountAt(EMPTY_LEDGER, a).nonce == SentBy([], a)
    ensures EMPTY_LEDGER.confirmed == Txids(net, []) && AddressesValid(net, EMPTY_LEDGER)
  {
    assert blocks[..0] == [];
    assert TransactionsOf(blocks) == [] + blocks[0].transactions == [];
  }

  lemma BranchIsNonempty(net: Network, blocks: seq<Block>)
    requires ValidBranch(net, blocks)
    ensures |blocks| > 0 && (|blocks| > 1 ==> ValidBranch(net, blocks[..|blocks| - 1]))
  {
  }

  lemma CountsOfLast(net: Network, blocks: seq<Block>)
    requires |blocks| > 0
    ensures var front, b := blocks[..|blocks| - 1], blocks[|blocks| - 1];
            && (forall a :: SentBy(TransactionsOf(blocks), a)
                         == SentBy(TransactionsOf(front), a) + SentBy(b.transactions, a))
            && Txids(net, TransactionsOf(blocks)) == Txids(net, TransactionsOf(front)) + Txids(net, b.transactions)
  {
    hide Txids, SentBy;
    var front, b := blocks[..|blocks| - 1], blocks[|blocks| - 1];
    TxidsConcat(net, TransactionsOf(front), b.transactions);
    forall a ensures SentBy(TransactionsOf(blocks), a)
                  == SentBy(TransactionsOf(front), a) + SentBy(b.transactions, a) {
      SentByConcat(TransactionsOf(front), b.transactions, a);
    }
  }

  /** On every branch the k-th transaction of a sender carries nonce k and no identifier occurs
      twice. */
  lemma {:induction false} BranchIsFresh(net: Network, blocks: seq<Block>)
    requires ValidBranch(net, blocks)
    ensures NoncesCount(EMPTY_LEDGER, TransactionsOf(blocks))
    ensures DistinctTxids(net, TransactionsOf(blocks))
  {
    if |blocks| == 1 {
      assert TransactionsOf(blocks) == TransactionsOf(blocks[..0]) + blocks[0].transactions == [];
    } else {
      var front, b := blocks[..|blocks| - 1], blocks[|blocks| - 1];
      BranchIsFresh(net, front);
      BranchCounts(net, front);
      var s, paid := LastStep(net, blocks);
      BatchIsFresh(net, s.ledger, b.transactions, b.header.height);
      FreshConcat(net, TransactionsOf(front), b.transactions, s.ledger);
    }
  }

  lemma FreshConcat(net: Network, a: seq<Transaction>, b: seq<Transaction>, l: Ledger)
    requires NoncesCount(EMPTY_LEDGER, a) && DistinctTxids(net, a)
    requires NoncesCount(l, b) && DistinctTxids(net, b) && Txids(net, b) !! Txids(net, a)
    requires forall address :: AccountAt(l, address).nonce == SentBy(a, address)
    ensures NoncesCount(EMPTY_LEDGER, a + b) && DistinctTxids(net, a + b)
  {
    hide NoncesCount;
    NoncesConcat(a, b, l);
    forall i, j | 0 <= i < j < |a + b| ensures net.txid((a + b)[i]) != net.txid((a + b)[j]) {
      if i < |a| <= j {
        assert net.txid(a[i]) in Txids(net, a) && net.txid(b[j - |a|]) in Txids(net, b);
      }
    }
  }

  lemma NoncesConcat(a: seq<Transaction>, b: seq<Transaction>, l: Ledger)
    requires NoncesCount(EMPTY_LEDGER, a) && NoncesCount(l, b)
    requires forall address :: AccountAt(l, address).nonce == SentBy(a, address)
    ensures NoncesCount(EMPTY_LEDGER, a + b)
  {
    hide SentBy;
    var all := a + b;
    forall i | 0 <= i < |all| ensures all[i].nonce == 0 + SentBy(all[..i], all[i].sender) {
      if i < |a| {
        assert all[..i] == a[..i];
      } else {
        assert all[..i] == a + b[..i - |a|];
        SentByConcat(a, b[..i - |a|], all[i].sender);
      }
    }
  }
}
