/** Block construction and atomic block validation. */
module Consensus {
  import opened Types
  import opened State
  import opened Emission

  const BLOCK_VERSION := 1
  const REWARD_TRANSACTION_VERSION := 1
  const MAX_BLOCK_TRANSACTIONS := 10_000
  const GENESIS_TARGET: int :=
    0x0FFF_FFFF_FFFF_FFFF_FFFF_FFFF_FFFF_FFFF_FFFF_FFFF_FFFF_FFFF_FFFF_FFFF_FFFF_FFFF
  const GENESIS_TIMESTAMP := 1_786_060_800
  const GENESIS_NONCE := 10
  const ZERO_HASH: Hash := seq(32, _ => 0)

  /** A validated block's effect on its branch. */
  datatype Execution = Execution(ledger: Ledger, supply: int, subsidy: int, fees: int)

  // ---------------------------------------------------------------------------------------------
  // Fields that have a canonical encoding
  // ---------------------------------------------------------------------------------------------

  predicate InU16(n: int) {
    0 <= n <= U16_MAX
  }

  predicate TargetInRange(target: int) {
    0 < target <= MAX_TARGET
  }

  predicate TransactionEncodable(tx: Transaction) {
    && InU16(tx.version) && |tx.senderPublicKey| <= U32_MAX && |tx.signature| <= U32_MAX
    && InU64(tx.amount) && InU64(tx.fee) && InU64(tx.nonce) && InU64(tx.validUntil)
  }

  predicate RewardEncodable(r: Reward) {
    InU16(r.version) && InU64(r.height) && InU64(r.amount)
  }

  predicate HeaderEncodable(h: Header) {
    && InU16(h.version) && InU64(h.height) && InU64(h.timestamp)
    && TargetInRange(h.target) && InU64(h.nonce)
  }

  predicate BodyEncodable(b: Block) {
    RewardEncodable(b.reward) && forall tx :: tx in b.transactions ==> TransactionEncodable(tx)
  }

  /** Sufficient Proof of Work. */
  predicate Mined(net: Network, b: Block) {
    TargetInRange(b.header.target) && net.hashValue(net.HashOf(b)) <= b.header.target
  }

  // ---------------------------------------------------------------------------------------------
  // Blocks as the node builds and checks them
  // ---------------------------------------------------------------------------------------------

  function GenesisBlock(net: Network): Block {
    var reward := Reward(REWARD_TRANSACTION_VERSION, net.chainId, 0, net.genesisMiner, 0);
    Block(Header(BLOCK_VERSION, net.chainId, 0, ZERO_HASH, net.transactionsRoot(reward, []),
                 net.stateRoot(map[]), GENESIS_TIMESTAMP, GENESIS_TARGET, GENESIS_NONCE,
                 net.genesisMiner),
          reward, [])
  }

  /** The state before the reward is paid, and what the miner is owed. */
  datatype Settlement = Settlement(ledger: Ledger, subsidy: int, fees: int)

  function Settle(net: Network, l: Ledger, supply: int, txs: seq<Transaction>, height: int)
    : Result<Settlement>
  {
    match Batch(net, l, txs, height)
    case Err(fault) => Err(fault)
    case Ok(applied) =>
      match BlockSubsidy(height, supply)
      case Err(fault) => Err(fault)
      case Ok(subsidy) =>
        if subsidy + applied.fees > U64_MAX then Err(BlockRewardOverflow)
        else Ok(Settlement(applied.ledger, subsidy, applied.fees))
  }

  function RequiredTarget(parent: Block, expected: Option<int>): int {
    match expected
    case None => parent.header.target
    case Some(target) => target
  }

  /** A candidate whose roots commit to executing its own transactions; its nonce is not searched. */
  function Candidate(net: Network, parent: Block, l: Ledger, supply: int, miner: Text,
                     txs: seq<Transaction>, timestamp: int, target: Option<int>): Result<Block>
  {
    var height := parent.header.height + 1;
    if !SupplyInRange(supply) then Err(SupplyOutOfRange)
    else if parent.header.height == U64_MAX then Err(HeightExhausted)
    else if !InU64(timestamp) then Err(TimestampOutOfRange)
    else if timestamp <= parent.header.timestamp then Err(TimestampNotIncreasing)
    else if |txs| > MAX_BLOCK_TRANSACTIONS then Err(TooManyTransactions)
    else if !TargetInRange(RequiredTarget(parent, target)) then Err(TargetOutOfRange)
    else if !net.validAddress(miner) then Err(InvalidAddress)
    else
      match Settle(net, l, supply, txs, height)
      case Err(fault) => Err(fault)
      case Ok(s) =>
        var reward := Reward(REWARD_TRANSACTION_VERSION, net.chainId, height, miner, s.subsidy + s.fees);
        match Credit(net, s.ledger, miner, reward.amount)
        case Err(fault) => Err(fault)
        case Ok(final) => Ok(Assembled(net, parent, reward, txs, final, timestamp, RequiredTarget(parent, target)))
  }

  function Assembled(net: Network, parent: Block, reward: Reward, txs: seq<Transaction>,
                     final: Ledger, timestamp: int, target: int): Block
  {
    Block(Header(BLOCK_VERSION, net.chainId, reward.height, net.HashOf(parent),
                 net.transactionsRoot(reward, txs), net.stateRoot(final.accounts), timestamp,
                 target, 0, reward.miner),
          reward, txs)
  }

  /** The rules on the header, the body and the reward that need no account. */
  predicate WellShaped(net: Network, b: Block, parent: Block, required: int) {
    var h := b.header;
    && h.version == BLOCK_VERSION && h.chainId == net.chainId
    && h.height == parent.header.height + 1
    && h.previous == net.HashOf(parent)
    && h.timestamp > parent.header.timestamp
    && TargetInRange(required) && h.target == required
    && |b.transactions| <= MAX_BLOCK_TRANSACTIONS
    && net.validAddress(h.miner)
    && BodyEncodable(b) && h.transactionsRoot == net.transactionsRoot(b.reward, b.transactions)
    && HeaderEncodable(h) && Mined(net, b)
    && b.reward.version == REWARD_TRANSACTION_VERSION && b.reward.chainId == net.chainId
    && b.reward.height == h.height && b.reward.miner == h.miner
  }

  /** The rule the node reports for a misshapen block: the first one broken. */
  function FirstBrokenShape(net: Network, b: Block, parent: Block, required: int): Fault {
    var h := b.header;
    if h.version != BLOCK_VERSION then UnsupportedVersion
    else if h.chainId != net.chainId then WrongNetwork
    else if h.height != parent.header.height + 1 then WrongHeight
    else if h.previous != net.HashOf(parent) then WrongPreviousHash
    else if h.timestamp <= parent.header.timestamp then TimestampNotIncreasing
    else if !TargetInRange(required) then TargetOutOfRange
    else if h.target != required then TargetMismatch
    else if |b.transactions| > MAX_BLOCK_TRANSACTIONS then TooManyTransactions
    else if !net.validAddress(h.miner) then InvalidAddress
    else if !BodyEncodable(b) then NotEncodable
    else if h.transactionsRoot != net.transactionsRoot(b.reward, b.transactions) then WrongTransactionsRoot
    else if !HeaderEncodable(h) then NotEncodable
    else if !Mined(net, b) then InsufficientWork
    else if b.reward.version != REWARD_TRANSACTION_VERSION then WrongRewardVersion
    else if b.reward.chainId != net.chainId then WrongNetwork
    else if b.reward.height != h.height then WrongRewardHeight
    else WrongRewardRecipient
  }

  function ExecuteGenesis(net: Network, b: Block, l: Ledger, supply: int): Result<Execution> {
    if l != EMPTY_LEDGER then Err(NotGenesis)
    else if supply != 0 then Err(NotGenesis)
    else if b != GenesisBlock(net) then Err(NotGenesis)
    else if !Mined(net, b) then Err(InsufficientWork)
    else Ok(Execution(l, 0, 0, 0))
  }

  /** Validates a block against its parent and returns the state it leads to. */
  function Execute(net: Network, b: Block, parent: Option<Block>, l: Ledger, supply: int,
                   expected: Option<int>): Result<Execution>
  {
    if !SupplyInRange(supply) then Err(SupplyOutOfRange)
    else if parent.None? then ExecuteGenesis(net, b, l, supply)
    else
      var required := RequiredTarget(parent.value, expected);
      if WellShaped(net, b, parent.value, required) then ExecuteBody(net, b, l, supply)
      else Err(FirstBrokenShape(net, b, parent.value, required))
  }

  function ExecuteBody(net: Network, b: Block, l: Ledger, supply: int): Result<Execution> {
    match Settle(net, l, supply, b.transactions, b.header.height)
    case Err(fault) => Err(fault)
    case Ok(s) =>
      if b.reward.amount != s.subsidy + s.fees then Err(WrongRewardAmount)
      else
        match Credit(net, s.ledger, b.reward.miner, b.reward.amount)
        case Err(fault) => Err(fault)
        case Ok(final) =>
          if b.header.stateRoot != net.stateRoot(final.accounts) then Err(WrongStateRoot)
          else Ok(Execution(final, supply + s.subsidy, s.subsidy, s.fees))
  }

  // ---------------------------------------------------------------------------------------------
  // Building and validating agree
  // ---------------------------------------------------------------------------------------------

  lemma BatchIsEncodable(net: Network, l: Ledger, txs: seq<Transaction>, height: int)
    requires ApplyAll(net, l, txs, height).Ok?
    ensures forall tx :: tx in txs ==> TransactionEncodable(tx)
  {
    forall tx | tx in txs ensures TransactionEncodable(tx) {
      var i :| 0 <= i < |txs| && txs[i] == tx;
      RunsOnPrefix(net, l, txs, i, height);
    }
  }

  /** Whatever the node builds, it accepts once the nonce search has succeeded. */
  lemma MinedCandidateIsValid(net: Network, b: Block, parent: Block, l: Ledger, supply: int,
                              expected: Option<int>)
    requires Candidate(net, parent, l, supply, b.header.miner, b.transactions, b.header.timestamp,
                       expected) == Ok(b.WithNonce(0))
    requires InU64(b.header.nonce) && Mined(net, b)
    ensures Execute(net, b, Some(parent), l, supply, expected).Ok?
  {
    var s := Settle(net, l, supply, b.transactions, parent.header.height + 1).value;
    var built := b.WithNonce(0);
    assert b.header == built.header.(nonce := b.header.nonce) && b.reward == built.reward;
    BatchIsEncodable(net, l, b.transactions, parent.header.height + 1);
    assert WellShaped(net, b, parent, RequiredTarget(parent, expected));
  }

  /** Whatever the node accepts, it would itself have built from the same miner, transactions and
      timestamp. */
  lemma ValidBlockIsACandidate(net: Network, b: Block, parent: Block, l: Ledger, supply: int,
                               expected: Option<int>)
    requires Execute(net, b, Some(parent), l, supply, expected).Ok?
    ensures Candidate(net, parent, l, supply, b.header.miner, b.transactions, b.header.timestamp,
                      expected) == Ok(b.WithNonce(0))
    ensures InU64(b.header.nonce) && Mined(net, b)
  {
    assert WellShaped(net, b, parent, RequiredTarget(parent, expected));
    assert b.header.height == parent.header.height + 1;
    var s := Settle(net, l, supply, b.transactions, b.header.height).value;
    var final := Credit(net, s.ledger, b.reward.miner, b.reward.amount).value;
    assert b.WithNonce(0) == Assembled(net, parent, b.reward, b.transactions, final,
                                       b.header.timestamp, RequiredTarget(parent, expected));
  }

  /** Validation accepts exactly the mined candidates: the block is determined by its parent, miner,
      transactions, timestamp and nonce, and everything else in it is forced. */
  lemma ValidIffMinedCandidate(net: Network, b: Block, parent: Block, l: Ledger, supply: int,
                               expected: Option<int>)
    ensures Execute(net, b, Some(parent), l, supply, expected).Ok?
       <==> && Candidate(net, parent, l, supply, b.header.miner, b.transactions,
                         b.header.timestamp, expected) == Ok(b.WithNonce(0))
            && InU64(b.header.nonce) && Mined(net, b)
  {
    if Execute(net, b, Some(parent), l, supply, expected).Ok? {
      ValidBlockIsACandidate(net, b, parent, l, supply, expected);
    } else if Candidate(net, parent, l, supply, b.header.miner, b.transactions, b.header.timestamp,
                        expected) == Ok(b.WithNonce(0)) && InU64(b.header.nonce) && Mined(net, b) {
      MinedCandidateIsValid(net, b, parent, l, supply, expected);
    }
  }

  // ---------------------------------------------------------------------------------------------
  // What one valid block does to its branch
  // ---------------------------------------------------------------------------------------------

  lemma CreditAdds(net: Network, l: Ledger, address: Text, amount: int)
    requires Credit(net, l, address, amount).Ok?
    ensures var l' := Credit(net, l, address, amount).value;
            && Total(l'.accounts) == Total(l.accounts) + amount
            && l'.confirmed == l.confirmed
            && (forall a :: AccountAt(l', a).nonce == AccountAt(l, a).nonce)
            && (AddressesValid(net, l) ==> AddressesValid(net, l'))
  {
    var account := AccountAt(l, address);
    if amount > 0 {
      TotalAfterUpdate(l, address, Account(account.balance + amount, account.nonce));
    }
  }

  /** The steps a valid block went through. */
  lemma ExecutionSteps(net: Network, b: Block, parent: Block, l: Ledger, supply: int,
                       expected: Option<int>) returns (s: Settlement)
    requires Execute(net, b, Some(parent), l, supply, expected).Ok?
    ensures WellShaped(net, b, parent, RequiredTarget(parent, expected))
    ensures ApplyAll(net, l, b.transactions, b.header.height) == Ok(Applied(s.ledger, s.fees))
    ensures BlockSubsidy(b.header.height, supply) == Ok(s.subsidy) && InU64(b.header.height)
    ensures var e := Execute(net, b, Some(parent), l, supply, expected).value;
            && Credit(net, s.ledger, b.reward.miner, b.reward.amount) == Ok(e.ledger)
            && b.reward.amount == s.subsidy + s.fees
            && e.subsidy == s.subsidy && e.supply == supply + s.subsidy
            && b.header.stateRoot == net.stateRoot(e.ledger.accounts)
  {
    s := Settle(net, l, supply, b.transactions, b.header.height).value;
  }

  /** A valid block moves the fees to the miner and creates exactly its subsidy. */
  lemma BlockConserves(net: Network, b: Block, parent: Block, l: Ledger, supply: int,
                       expected: Option<int>)
    requires Execute(net, b, Some(parent), l, supply, expected).Ok?
    ensures var e := Execute(net, b, Some(parent), l, supply, expected).value;
            && Total(e.ledger.accounts) == Total(l.accounts) + e.subsidy
            && e.supply == supply + e.subsidy
            && BlockSubsidy(b.header.height, supply) == Ok(e.subsidy)
  {
    var s := ExecutionSteps(net, b, parent, l, supply, expected);
    BatchConserves(net, l, b.transactions, b.header.height);
    CreditAdds(net, s.ledger, b.reward.miner, b.reward.amount);
  }

  /** While all balances equal the supply and the cap leaves room, a block can fail on a rule but
      never on an overflow: not of a recipient, not of the fees, not of the reward. */
  lemma SettlementNeverOverflows(net: Network, l: Ledger, supply: int, txs: seq<Transaction>,
                                 height: int, miner: Text)
    requires Total(l.accounts) == supply && SupplyInRange(supply) && net.validAddress(miner)
    requires Batch(net, l, txs, height).Ok?
    ensures Settle(net, l, supply, txs, height).Ok?
    ensures var s := Settle(net, l, supply, txs, height).value;
            Credit(net, s.ledger, miner, s.subsidy + s.fees).Ok?
  {
    BatchConserves(net, l, txs, height);
    var applied := Batch(net, l, txs, height).value;
    BalanceWithinTotal(applied.ledger, miner);
  }

  // ---------------------------------------------------------------------------------------------
  // The node's procedures
  // ---------------------------------------------------------------------------------------------

  method BuildBlockCandidate(net: Network, parent: Block, state: AccountState, supply: int, miner: Text,
                             txs: seq<Transaction>, timestamp: int, target: Option<int>)
    returns (r: Result<Block>)
    requires state.Valid() && state.net == net
    ensures r == Candidate(net, parent, state.Snapshot(), supply, miner, txs, timestamp, target)
  {
    hide ApplyAll, BlockSubsidy, Credit, Assembled;
    if !SupplyInRange(supply) { return Err(SupplyOutOfRange); }
    if parent.header.height == U64_MAX { return Err(HeightExhausted); }
    var height := parent.header.height + 1;
    if !InU64(timestamp) { return Err(TimestampOutOfRange); }
    if timestamp <= parent.header.timestamp { return Err(TimestampNotIncreasing); }
    if |txs| > MAX_BLOCK_TRANSACTIONS { return Err(TooManyTransactions); }
    var required := RequiredTarget(parent, target);
    if !TargetInRange(required) { return Err(TargetOutOfRange); }
    if !net.validAddress(miner) { return Err(InvalidAddress); }
    var working := state.Copy();
    var fees := working.ApplyTransactions(txs, height);
    if fees.Err? { return Err(fees.fault); }
    var subsidy := ComputeBlockSubsidy(height, supply);
    if subsidy.Err? { return Err(subsidy.fault); }
    var amount := subsidy.value + fees.value;
    if amount > U64_MAX { return Err(BlockRewardOverflow); }
    var reward := Reward(REWARD_TRANSACTION_VERSION, net.chainId, height, miner, amount);
    var credited := working.CreditReward(miner, amount);
    if credited.Fail? { return Err(credited.fault); }
    r := Ok(Assembled(net, parent, reward, txs, working.Snapshot(), timestamp, required));
  }

  method ValidateAndExecuteBlock(net: Network, b: Block, parent: Option<Block>, state: AccountState,
                                 supply: int, expected: Option<int>)
    returns (r: Result<Execution>)
    requires state.Valid() && state.net == net
    ensures r == Execute(net, b, parent, state.Snapshot(), supply, expected)
    ensures r.Ok? && parent.Some? ==>
              var h, above := b.header, parent.value.header;
              && net.hashValue(net.blockHash(h)) <= h.target == RequiredTarget(parent.value, expected)
              && h.height == above.height + 1 && h.previous == net.blockHash(above) && h.timestamp > above.timestamp
              && b.reward.miner == h.miner && b.reward.height == h.height
  {
    if !SupplyInRange(supply) { return Err(SupplyOutOfRange); }
    if parent.None? { return ExecuteGenesis(net, b, state.Snapshot(), supply); }
    var required := RequiredTarget(parent.value, expected);
    if !WellShaped(net, b, parent.value, required) {
      return Err(FirstBrokenShape(net, b, parent.value, required));
    }
    var working := state.Copy();
    var fees := working.ApplyTransactions(b.transactions, b.header.height);
    if fees.Err? { return Err(fees.fault); }
    var subsidy := ComputeBlockSubsidy(b.header.height, supply);
    if subsidy.Err? { return Err(subsidy.fault); }
    var owed := subsidy.value + fees.value;
    if owed > U64_MAX { return Err(BlockRewardOverflow); }
    if b.reward.amount != owed { return Err(WrongRewardAmount); }
    var credited := working.CreditReward(b.reward.miner, b.reward.amount);
    if credited.Fail? { return Err(credited.fault); }
    if b.header.stateRoot != net.stateRoot(working.accounts) { return Err(WrongStateRoot); }
    r := Ok(Execution(working.Snapshot(), supply + subsidy.value, subsidy.value, fees.value));
  }
}
