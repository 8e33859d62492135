/** The node: chain, storage, pending pool and miner, and what holds after every operation. */
module Node {
  import opened Types
  import opened Transactions
  import opened State
  import opened Emission
  import opened Consensus
  import opened Branches
  import opened BlockTree
  import opened ChainRuns
  import C = Chain
  import opened PendingPool
  import opened Selection
  import M = Mempool
  import opened Miner
  import opened Persistence
  import opened Storage

  datatype MiningResult = MiningResult(block: Block, update: Update)

  /** A wallet's public side and its signature function. */
  datatype Wallet = Wallet(publicKey: Bytes, address: Text, sign: Transaction -> Bytes)

  // ---------------------------------------------------------------------------------------------
  // Reconciling the pool with a new tip
  // ---------------------------------------------------------------------------------------------

  /** The transactions of a list of known blocks, in order. */
  function TransactionsAt(t: Tree, hashes: seq<Hash>): seq<Transaction>
    requires forall i :: 0 <= i < |hashes| ==> hashes[i] in t.entries
  {
    if hashes == [] then []
    else TransactionsAt(t, hashes[..|hashes| - 1]) + t.entries[hashes[|hashes| - 1]].block.transactions
  }

  ghost predicate UpdateIsKnown(t: Tree, u: Update) {
    && t.tip in t.entries
    && (forall i :: 0 <= i < |u.connected| ==> u.connected[i] in t.entries)
    && (forall i :: 0 <= i < |u.disconnected| ==> u.disconnected[i] in t.entries)
  }

  /** The pool after the tip moved: connected transactions leave, the rest is revalidated against
      the new tip, then the disconnected ones are offered again, oldest first. */
  ghost function Reconciled(net: Network, p: Pool, t: Tree, u: Update): Pool
    requires UpdateIsKnown(t, u)
  {
    var l, height := t.Tip().ledger, t.Tip().record.height + 1;
    var left := WithoutAll(net, p, TransactionsAt(t, u.connected));
    OfferAll(net, Revalidated(net, left, l, height), TransactionsAt(t, Reversed(u.disconnected)), l, height)
  }

  /** The whole-node invariant: the pool agrees with the tip for the next block. */
  ghost predicate PoolFits(net: Network, t: Tree, p: Pool)
    requires t.tip in t.entries
  {
    PoolAgrees(net, p, t.Tip().ledger, t.Tip().record.height + 1)
  }

  lemma UpdatesAreKnown(net: Network, t: Tree, b: Block)
    requires ValidTree(net, t) && Insert(net, t, b).Ok?
    ensures UpdateIsKnown(Insert(net, t, b).value.tree, Insert(net, t, b).value.update)
    ensures ValidTree(net, Insert(net, t, b).value.tree)
    ensures !Insert(net, t, b).value.update.becameActive ==>
              Insert(net, t, b).value.tree.tip == t.tip
              && Insert(net, t, b).value.tree.Tip() == t.Tip()
  {
    hide Execute, TargetAfter, RunBranch, EntryHoldsItsBranch, Path, CommonLength, Reversed;
    InsertKeepsValid(net, t, b);
    var g := Insert(net, t, b).value;
    if g.update.becameActive {
      SwitchIsKnown(net, g.tree, t.tip, net.HashOf(b));
    }
  }

  lemma SwitchIsKnown(net: Network, t: Tree, oldTip: Hash, newTip: Hash)
    requires Linked(net, t) && oldTip in t.entries && newTip in t.entries
    ensures var s := SwitchBetween(net, t, oldTip, newTip);
            && (forall i :: 0 <= i < |s.disconnected| ==> s.disconnected[i] in t.entries)
            && (forall i :: 0 <= i < |s.connected| ==> s.connected[i] in t.entries)
  {
    hide Linked, Path, CommonLength;
    GenesisIsFirst(net, t, oldTip);
    GenesisIsFirst(net, t, newTip);
  }

  /** Reconciliation makes any consistent pool agree with any tip. */
  lemma ReconciledFits(net: Network, p: Pool, t: Tree, u: Update)
    requires UpdateIsKnown(t, u) && Consistent(net, p) && |p.txs| <= MAX_MEMPOOL_TRANSACTIONS
    ensures PoolFits(net, t, Reconciled(net, p, t, u))
  {
    hide Consistent, Revalidated, Backed, OfferAll, WithoutAll;
    var l, height := t.Tip().ledger, t.Tip().record.height + 1;
    var left := WithoutAll(net, p, TransactionsAt(t, u.connected));
    WithoutAllIsConsistent(net, p, TransactionsAt(t, u.connected));
    RevalidatedAgrees(net, left, l, height);
    OfferAllKeepsAgreement(net, Revalidated(net, left, l, height), TransactionsAt(t, Reversed(u.disconnected)),
                           l, height);
  }

  /** What a node does to its tree and pool. Sending is an offer, mining is a block on the tip. */
  datatype Operation = OfferTransaction(tx: Transaction) | OfferBlock(block: Block)

  datatype NodeState = NodeState(tree: Tree, pool: Pool)

  ghost predicate StateFits(net: Network, s: NodeState) {
    ValidTree(net, s.tree) && PoolFits(net, s.tree, s.pool)
  }

  ghost function Operate(net: Network, s: NodeState, op: Operation): (s': NodeState)
    requires StateFits(net, s)
  {
    match op
    case OfferTransaction(tx) =>
      s.(pool := Offer(net, s.pool, tx, s.tree.Tip().ledger, s.tree.Tip().record.height + 1))
    case OfferBlock(b) =>
      match Insert(net, s.tree, b)
      case Err(_) => s
      case Ok(g) =>
        UpdatesAreKnown(net, s.tree, b);
        if g.update.becameActive then NodeState(g.tree, Reconciled(net, s.pool, g.tree, g.update))
        else NodeState(g.tree, s.pool)
  }

  lemma OperationKeepsFit(net: Network, s: NodeState, op: Operation)
    requires StateFits(net, s)
    ensures StateFits(net, Operate(net, s, op))
  {
    hide Insert, Reconciled, Backed, Consistent;
    match op
    case OfferTransaction(tx) =>
      OfferKeepsAgreement(net, s.pool, tx, s.tree.Tip().ledger, s.tree.Tip().record.height + 1);
    case OfferBlock(b) =>
      if Insert(net, s.tree, b).Ok? {
        var g := Insert(net, s.tree, b).value;
        UpdatesAreKnown(net, s.tree, b);
        ReconciledFits(net, s.pool, g.tree, g.update);
      }
  }

  ghost function RunNode(net: Network, ops: seq<Operation>): (s: NodeState)
    ensures StateFits(net, s)
  {
    if ops == [] then
      GenesisTreeIsValid(net);
      EmptyPoolAgrees(net, GENESIS_STATE.ledger, 1);
      NodeState(GenesisTree(net), EMPTY_POOL)
    else
      var before := RunNode(net, ops[..|ops| - 1]);
      OperationKeepsFit(net, before, ops[|ops| - 1]);
      Operate(net, before, ops[|ops| - 1])
  }

  lemma ValidMeans(net: Network, tx: Transaction, height: int)
    requires ValidAt(net, tx, height)
    ensures height <= tx.validUntil && tx.chainId == net.chainId
    ensures tx.sender == net.addressOf(tx.senderPublicKey) && net.verifies(tx)
    ensures net.validAddress(tx.sender) && net.validAddress(tx.recipient)
    ensures 0 < tx.amount && 0 <= tx.fee && tx.amount + tx.fee <= U64_MAX
  {
  }

  /** Over every run of operations, reorganizations and side branches included, each pending
      transaction is unconfirmed and unexpired at the next height, carries a nonce of its sender's
      gapless run, and its sender has at most 64 of them, together covered by the confirmed
      balance; and the two maps of the pool stay inverse. */
  lemma EveryRunKeepsThePoolMinable(net: Network, ops: seq<Operation>, id: Hash)
    requires id in RunNode(net, ops).pool.txs
    ensures var s := RunNode(net, ops);
            var tx, tip := s.pool.txs[id], s.tree.Tip();
            var account := AccountAt(tip.ledger, tx.sender);
            && Consistent(net, s.pool)
            && tip.record.height + 1 <= tx.validUntil && tx.chainId == net.chainId
            && tx.sender == net.addressOf(tx.senderPublicKey) && net.verifies(tx)
            && net.validAddress(tx.sender) && net.validAddress(tx.recipient)
            && 0 < tx.amount && 0 <= tx.fee && tx.amount + tx.fee <= U64_MAX
            && ValidAt(net, tx, tip.record.height + 1) && id !in tip.ledger.confirmed
            && (forall n {:trigger Slot(tx.sender, n)} ::
                  account.nonce <= n <= tx.nonce ==> Slot(tx.sender, n) in s.pool.slots)
            && |SenderIds(s.pool, tx.sender)| <= MAX_PENDING_PER_SENDER
            && Reserved(s.pool, SenderIds(s.pool, tx.sender)) <= account.balance
  {
    hide Reserved, RunNode, EntryHoldsItsBranch, EntryLinked;
    var s := RunNode(net, ops);
    var tip := s.tree.Tip();
    SenderIsCovered(net, s.pool, tip.ledger, tip.record.height + 1, s.pool.txs[id].sender);
    assert Backed(net, s.pool, s.pool.txs[id], tip.ledger, tip.record.height + 1);
    CostAtOwnSlot(net, s.pool, id);
  }

  // ---------------------------------------------------------------------------------------------
  // Building on the tip
  // ---------------------------------------------------------------------------------------------

  /** The target required after any valid branch is a legal one. */
  lemma RequiredTargetIsLegal(net: Network, blocks: seq<Block>)
    requires ValidBranch(net, blocks)
    ensures TargetInRange(TargetAfter(blocks))
  {
    hide RunBranch, Retarget, TargetsFollow;
    BranchHeaders(net, blocks);
    if |blocks| % 120 == 0 {
      var parent := blocks[|blocks| - 1].header;
      RetargetIsAtMostFourfold(parent.target, parent.timestamp - blocks[|blocks| - 120].header.timestamp);
    }
  }

  lemma TipFacts(net: Network, t: Tree)
    requires ValidTree(net, t)
    ensures var e, blocks := t.Tip(), BlocksOf(net, t, t.tip);
            && RunBranch(net, blocks) == Ok(BranchState(e.ledger, e.record.supply, e.record.work))
            && |blocks| == e.record.height + 1 && e.block.header.height == e.record.height
            && 0 <= e.record.height < U64_MAX && 0 <= e.block.header.timestamp <= U64_MAX
            && Total(e.ledger.accounts) == e.record.supply && SupplyInRange(e.record.supply)
            && TargetInRange(TargetAfter(blocks))
  {
    var blocks := BlocksOf(net, t, t.tip);
    assert EntryHoldsItsBranch(net, t, t.tip);
    hide RunBranch, BlocksOf, TargetAfter;
    BranchConserves(net, blocks);
    RequiredTargetIsLegal(net, blocks);
    HeightIsNeverExhausted(net, blocks);
    BranchHeaders(net, blocks);
  }

  /** Everything that executes on the tip fits into a candidate: building can fail only on the
      miner's address or the timestamp. */
  lemma CandidateOnTip(net: Network, t: Tree, txs: seq<Transaction>, miner: Text, timestamp: int)
    requires ValidTree(net, t) && |txs| <= MAX_BLOCK_TRANSACTIONS
    requires ApplyAll(net, t.Tip().ledger, txs, t.Tip().record.height + 1).Ok?
    ensures var e := t.Tip();
            && e.record.height != U64_MAX
            && (Candidate(net, e.block, e.ledger, e.record.supply, miner, txs, timestamp,
                          Some(TargetAfter(BlocksOf(net, t, t.tip)))).Ok?
                <==> net.validAddress(miner) && e.block.header.timestamp < timestamp <= U64_MAX)
  {
    hide RunBranch, TargetAfter, ApplyAll, EntryHoldsItsBranch, EntryLinked, Candidate, Settle;
    var e, blocks := t.Tip(), BlocksOf(net, t, t.tip);
    TipFacts(net, t);
    if net.validAddress(miner) {
      BranchNeverOverflows(net, blocks, txs, miner);
    }
    CandidateSucceeds(net, e.block, e.ledger, e.record.supply, miner, txs, timestamp, Some(TargetAfter(blocks)));
  }

  lemma CandidateSucceeds(net: Network, parent: Block, l: Ledger, supply: int, miner: Text,
                          txs: seq<Transaction>, timestamp: int, target: Option<int>)
    requires SupplyInRange(supply) && parent.header.height != U64_MAX && 0 <= parent.header.timestamp
    requires |txs| <= MAX_BLOCK_TRANSACTIONS && TargetInRange(RequiredTarget(parent, target))
    requires net.validAddress(miner) ==>
               && Settle(net, l, supply, txs, parent.header.height + 1).Ok?
               && var s := Settle(net, l, supply, txs, parent.header.height + 1).value;
                  Credit(net, s.ledger, miner, s.subsidy + s.fees).Ok?
    ensures Candidate(net, parent, l, supply, miner, txs, timestamp, target).Ok?
       <==> net.validAddress(miner) && parent.header.timestamp < timestamp <= U64_MAX
  {
    hide Settle, Credit, Assembled;
  }

  /** A mined candidate on the tip is accepted and becomes the tip, disconnecting nothing. The one
      exception is a hash collision with a different, already known header. */
  lemma MinedBlockWins(net: Network, t: Tree, b: Block, txs: seq<Transaction>, miner: Text, timestamp: int)
    requires ValidTree(net, t)
    requires var e := t.Tip();
             Candidate(net, e.block, e.ledger, e.record.supply, miner, txs, timestamp,
                       Some(TargetAfter(BlocksOf(net, t, t.tip)))) == Ok(b.WithNonce(0))
    requires InU64(b.header.nonce) && Mined(net, b) && t.Tip().record.height != U64_MAX
    ensures b.header.previous == t.tip && b.transactions == txs
    ensures Insert(net, t, b).Ok? ==>
              Insert(net, t, b).value.update
                == Update(net.HashOf(b), net.HashOf(b), true, false, Some(t.tip), [], [net.HashOf(b)])
    ensures Insert(net, t, b).Err? ==>
              && Insert(net, t, b) == Err(AlreadyKnown)
              && net.HashOf(b) in t.entries && t.entries[net.HashOf(b)].block.header != b.header
  {
    var e := t.Tip();
    var expected := Some(TargetAfter(BlocksOf(net, t, t.tip)));
    assert EntryLinked(net, t.entries, t.tip);
    CandidateFields(net, e.block, e.ledger, e.record.supply, b, txs, miner, timestamp, expected);
    MinedCandidateIsValid(net, b, e.block, e.ledger, e.record.supply, expected);
    ValidIsEncodable(net, b, e.block, e.ledger, e.record.supply, expected);
    hide Execute, Candidate, TargetAfter, HeaderEncodable, BlocksOf;
    if net.HashOf(b) in t.entries {
      KnownHeaderDiffers(net, t, b);
    } else {
      assert Insert(net, t, b).Ok?;
      ExtendingTheTipWins(net, t, b);
    }
  }

  lemma CandidateFields(net: Network, parent: Block, l: Ledger, supply: int, b: Block, txs: seq<Transaction>,
                        miner: Text, timestamp: int, expected: Option<int>)
    requires Candidate(net, parent, l, supply, miner, txs, timestamp, expected) == Ok(b.WithNonce(0))
    ensures b.header.previous == net.HashOf(parent) && b.transactions == txs
    ensures b.header.miner == miner && b.header.timestamp == timestamp
  {
    var built := b.WithNonce(0);
    assert built.header.previous == b.header.previous && built.transactions == b.transactions;
  }

  lemma ValidIsEncodable(net: Network, b: Block, parent: Block, l: Ledger, supply: int, expected: Option<int>)
    requires Execute(net, b, Some(parent), l, supply, expected).Ok?
    ensures HeaderEncodable(b.header)
  {
  }

  /** No known block extends the tip, so a known hash of a block that does is a collision. */
  lemma KnownHeaderDiffers(net: Network, t: Tree, b: Block)
    requires ValidTree(net, t) && b.header.previous == t.tip && net.HashOf(b) in t.entries
    requires b.header.height > 0
    ensures t.entries[net.HashOf(b)].block.header != b.header
  {
    var h := net.HashOf(b);
    assert EntryLinked(net, t.entries, h);
    if t.entries[h].record.parent == Some(t.tip) {
      ChildOutweighsParent(net, t, h);
    }
  }

  lemma ChildOutweighsParent(net: Network, t: Tree, h: Hash)
    requires ValidTree(net, t) && h in t.entries && t.entries[h].record.parent.Some?
    ensures t.entries[h].record.parent.value in t.entries
    ensures t.entries[t.entries[h].record.parent.value].record.work < t.entries[h].record.work
  {
    var p := t.entries[h].record.parent.value;
    assert EntryLinked(net, t.entries, h) && EntryLinked(net, t.entries, p);
    assert EntryHoldsItsBranch(net, t, h) && EntryHoldsItsBranch(net, t, p);
    var blocks := BlocksOf(net, t, h);
    assert blocks[..|blocks| - 1] == BlocksOf(net, t, p);
    hide RunBranch, BlocksOf;
    WorkGrows(net, blocks);
  }

  // ---------------------------------------------------------------------------------------------
  // The node
  // ---------------------------------------------------------------------------------------------

  class LocalNode {
    const net: Network
    var chain: C.Chain
    const pool: M.Mempool
    const storage: ChainStorage?

    /** After every operation: the tree is valid, the pool agrees with its tip, and the database,
        if there is one, opens as exactly this tree. */
    ghost predicate Valid()
      reads this, chain, pool, storage
    {
      && chain.net == net && chain.Valid()
      && pool.net == net && pool.Valid() && PoolFits(net, chain.Tree(), pool.Value())
      && (storage != null ==> storage.net == net && Load(net, storage.db) == Ok(chain.Tree()))
    }

    constructor InMemory(net: Network)
      requires GenesisMined(net)
      ensures Valid() && this.net == net && fresh(chain) && fresh(pool) && storage == null
      ensures chain.Tree() == GenesisTree(net) && pool.Value() == EMPTY_POOL
    {
      GenesisTreeIsValid(net);
      this.net := net;
      chain := new C.Chain(net);
      pool := new M.Mempool(net);
      storage := null;
      new;
      EmptyPoolAgrees(net, chain.Tree().Tip().ledger, chain.Tree().Tip().record.height + 1);
    }

    /** A node on top of a database that opens. */
    constructor OnStorage(storage: ChainStorage, chain: C.Chain)
      requires chain.Valid() && chain.net == storage.net && Load(storage.net, storage.db) == Ok(chain.Tree())
      ensures Valid() && net == storage.net && this.chain == chain && fresh(pool) && this.storage == storage
      ensures pool.Value() == EMPTY_POOL
    {
      net := storage.net;
      this.chain := chain;
      pool := new M.Mempool(storage.net);
      this.storage := storage;
      new;
      EmptyPoolAgrees(net, chain.Tree().Tip().ledger, chain.Tree().Tip().record.height + 1);
    }

    /** Opens a database and starts with the chain it holds and an empty pool. */
    static method OpenPersistent(storage: ChainStorage) returns (r: Result<LocalNode>)
      requires GenesisMined(storage.net)
      ensures match Load(storage.net, storage.db)
              case Ok(t) =>
                && r.Ok? && fresh(r.value) && r.value.Valid() && r.value.storage == storage
                && r.value.chain.Tree() == t && r.value.pool.Value() == EMPTY_POOL
              case Err(fault) => r == Err(fault)
    {
      hide Load;
      var chain := storage.LoadChain();
      if chain.Err? { return Err(chain.fault); }
      var node := new LocalNode.OnStorage(storage, chain.value);
      r := Ok(node);
    }

    /** Offers a transaction to the pool. */
    method SubmitTransaction(tx: Transaction) returns (r: Result<Hash>)
      requires Valid()
      modifies pool
      ensures Valid()
      ensures var tip := chain.Tree().Tip();
              match Admission(net, old(pool.Value()), tx, tip.ledger, tip.record.height + 1)
              case Pass => r == Ok(net.txid(tx)) && pool.Value() == With(net, old(pool.Value()), tx)
              case Fail(fault) => r == Err(fault) && pool.Value() == old(pool.Value())
    {
      hide Admission, PoolAgrees, ValidTree, Load, Consistent;
      ghost var p := pool.Value();
      TipIsKnown(net, chain.Tree());
      var tip := chain.entries[chain.tip];
      var state := chain.StateAt(chain.tip);
      r := pool.Add(tx, state, tip.record.height + 1);
      OfferKeepsAgreement(net, p, tx, tip.ledger, tip.record.height + 1);
    }

    /** Creates a transaction with the sender's next nonce, signs it and offers it. A transaction
        with that nonce is never refused for a gap or a conflict. */
    method Send(wallet: Wallet, recipient: Text, amount: int, fee: int, validForBlocks: int)
      returns (r: Result<Transaction>)
      requires Valid()
      modifies pool
      ensures Valid()
      ensures r.Ok? ==>
                && pool.Value() == With(net, old(pool.Value()), r.value)
                && r.value.nonce == AccountAt(chain.Tree().Tip().ledger, wallet.address).nonce
                                    + |SenderIds(old(pool.Value()), wallet.address)|
                && r.value.validUntil == chain.Tree().Tip().record.height + 1 + validForBlocks
                && r.value.sender == wallet.address && r.value.recipient == recipient
                && r.value.amount == amount && r.value.fee == fee
      ensures r.Err? ==> pool.Value() == old(pool.Value()) && r.fault !in {PendingGap, NonceConflict}
    {
      hide Admission, PoolAgrees, ValidTree, Linked, Load, Consistent, With;
      var tx := NextTransaction(wallet, recipient, amount, fee, validForBlocks);
      if tx.Err? { return tx; }
      TipIsKnown(net, chain.Tree());
      ghost var p, tip := pool.Value(), chain.Tree().Tip();
      var sent := SubmitTransaction(tx.value);
      NextNonceIsNeverAGap(net, p, tx.value, tip.ledger, tip.record.height + 1);
      if sent.Err? { return Err(sent.fault); }
      r := tx;
    }

    /** A signed transaction that carries the sender's next nonce. */
    method NextTransaction(wallet: Wallet, recipient: Text, amount: int, fee: int, validForBlocks: int)
      returns (r: Result<Transaction>)
      requires Valid()
      ensures r.Ok? ==>
                && ValidAt(net, r.value, 0) && r.value.sender == wallet.address && r.value.recipient == recipient
                && r.value.senderPublicKey == wallet.publicKey && net.addressOf(wallet.publicKey) == wallet.address
                && r.value.signature == wallet.sign(r.value.(signature := [])) && net.verifies(r.value)
                && r.value.chainId == net.chainId && net.validAddress(recipient)
                && 0 < amount && 0 <= fee && amount + fee <= U64_MAX
                && r.value.amount == amount && r.value.fee == fee
                && r.value.nonce == AccountAt(chain.Tree().Tip().ledger, wallet.address).nonce
                                    + |SenderIds(pool.Value(), wallet.address)|
                && r.value.validUntil == chain.Tree().Tip().record.height + 1 + validForBlocks
      ensures r.Err? ==> r.fault !in {PendingGap, NonceConflict}
    {
      hide PoolAgrees, ValidTree, Linked, Load, ValidAt, FirstBrokenRule, Consistent;
      if validForBlocks < 0 { return Err(BadLifetime); }
      TipIsKnown(net, chain.Tree());
      var tip := chain.entries[chain.tip];
      var height := tip.record.height + 1;
      var validUntil := height + validForBlocks;
      if validUntil > U64_MAX { return Err(BadLifetime); }
      var state := chain.StateAt(chain.tip);
      var nonce := pool.NextNonce(wallet.address, state, height);
      if nonce.Err? {
        NextNonceFaults(net, pool.Value(), wallet.address, tip.ledger, nonce);
        return Err(nonce.fault);
      }
      var unsigned := Transaction(1, net.chainId, wallet.publicKey, wallet.address, recipient, amount, fee,
                                  nonce.value, validUntil, []);
      var tx := unsigned.(signature := wallet.sign(unsigned));
      if !ValidAt(net, tx, 0) {
        BrokenRuleIsNotAGap(net, tx, 0);
        return Err(FirstBrokenRule(net, tx, 0));
      }
      ValidMeans(net, tx, 0);
      r := Ok(tx);
    }

    /** Adds a block; with a database, on a copy that replaces the chain only once the write has
        committed. If the tip moved, the pool is reconciled with it. Any failure changes nothing. */
    method SubmitBlock(b: Block, commits: bool) returns (r: Result<Update>)
      requires Valid()
      modifies this`chain, chain, pool, storage
      ensures Valid() && (chain == old(chain) || fresh(chain))
      ensures r.Err? ==> chain.Tree() == old(chain.Tree()) && pool.Value() == old(pool.Value())
      ensures Insert(net, old(chain.Tree()), b).Err? ==> r == Err(Insert(net, old(chain.Tree()), b).fault)
      ensures Insert(net, old(chain.Tree()), b).Ok? && storage != null && !commits ==>
                r.Err? && r.fault in {IntegrityError, WriteFailed}
      ensures Insert(net, old(chain.Tree()), b).Ok? && (storage == null || commits) ==>
                var g := Insert(net, old(chain.Tree()), b).value;
                && r == Ok(g.update) && chain.Tree() == g.tree && UpdateIsKnown(g.tree, g.update)
                && pool.Value() == if g.update.becameActive
                                   then Reconciled(net, old(pool.Value()), g.tree, g.update)
                                   else old(pool.Value())
    {
      hide PoolAgrees, ValidTree, Load, Insert, Persisted, Reconciled, Consistent, UpdateIsKnown;
      ghost var t, p := chain.Tree(), pool.Value();
      var update: Result<Update>;
      if storage == null {
        update := chain.AddBlock(b);
        if update.Err? { return update; }
      } else {
        var candidate := new C.Chain.CopyOf(chain);
        update := candidate.AddBlock(b);
        if update.Err? { return update; }
        PersistingRefines(net, storage.db, t, b);
        var written := storage.PersistChainUpdate(candidate, update.value, commits);
        if written.Err? { return Err(written.fault); }
        chain := candidate;
      }
      UpdatesAreKnown(net, t, b);
      r := update;
      if update.value.becameActive {
        ReconcilePool(update.value);
      }
    }

    /** Selects, builds, searches and submits. If the database commits, the miner's address is valid
        and the timestamp is acceptable, the only ways not to succeed are the search limit and a
        hash collision with a known block: what the node selects it can build, and what it builds
        and mines it accepts as its new tip. */
    method Mine(miner: Text, timestamp: Option<int>, maxTransactions: int, maxAttempts: int, commits: bool)
      returns (r: Result<MiningResult>)
      requires Valid()
      modifies this`chain, chain, pool, storage
      ensures Valid() && (chain == old(chain) || fresh(chain))
      ensures r.Err? ==> chain.Tree() == old(chain.Tree()) && pool.Value() == old(pool.Value())
      ensures 0 <= maxTransactions <= MAX_BLOCK_TRANSACTIONS && 0 < maxAttempts && commits
              && MinerIsAcceptable(net, old(chain.Tree()), miner, timestamp) ==>
                && MiningOutcome(net, old(chain.Tree()), old(pool.Value()), miner, timestamp, maxTransactions,
                                 r, chain.Tree(), pool.Value())
                && (r.Ok? ==>
                      var h, above := r.value.block.header, old(chain.Tree()).Tip().block.header;
                      && h.miner == miner && h.previous == old(chain.tip)
                      && h.timestamp == (if timestamp.Some? then timestamp.value else above.timestamp + 60)
                      && net.hashValue(net.blockHash(h)) <= h.target)
    {
      hide PoolAgrees, ValidTree, Load, Insert, Consistent, MiningOutcome, MinerIsAcceptable, Greedy, Minable,
        Candidate, Mined, Persisted;
      if !(0 <= maxTransactions <= MAX_BLOCK_TRANSACTIONS) { return Err(BadCount); }
      var block, selected := FindBlock(miner, timestamp, maxTransactions, maxAttempts);
      if block.Err? {
        SearchFailed(net, chain.Tree(), pool.Value(), miner, timestamp, maxTransactions);
        return Err(block.fault);
      }
      ghost var t, p := chain.Tree(), pool.Value();
      r := SubmitMined(block.value, selected, miner, timestamp, maxTransactions, commits);
      if r.Ok? && MiningOutcome(net, t, p, miner, timestamp, maxTransactions, r, chain.Tree(), pool.Value()) {
        MinedHeader(net, t, p, miner, timestamp, maxTransactions, r.value, chain.Tree(), pool.Value());
      }
    }

    /** Selects transactions, builds a candidate on the tip and searches its nonce. */
    method FindBlock(miner: Text, timestamp: Option<int>, maxTransactions: int, maxAttempts: int)
      returns (r: Result<Block>, ghost selected: seq<Transaction>)
      requires Valid() && 0 <= maxTransactions <= MAX_BLOCK_TRANSACTIONS
      ensures r.Ok? ==>
                && InU64(r.value.header.nonce) && Mined(net, r.value)
                && CandidateWas(net, chain.Tree(), pool.Value(), r.value, selected, miner, timestamp, maxTransactions)
      ensures r.Err? && 0 < maxAttempts && MinerIsAcceptable(net, chain.Tree(), miner, timestamp) ==>
                r.fault == NoNonceFound
    {
      hide PoolAgrees, Load, Consistent, Greedy, Candidate, Minable, ApplyAll, MinerIsAcceptable,
        RunBranch, TargetAfter, BlocksOf, EntryHoldsItsBranch, EntryLinked, M.Selects, M.NoneRuns,
        M.BlockedAreStuck;
      ghost var t := chain.Tree();
      TipFacts(net, t);
      var tip := chain.entries[chain.tip];
      var state := chain.StateAt(chain.tip);
      var picked, _, _ := pool.Select(state, tip.record.height + 1, maxTransactions);
      selected := picked.value;
      var time := CandidateTime(tip, timestamp);
      var candidate := chain.BuildCandidate(miner, picked.value, time, chain.tip);
      CandidateOnTip(net, t, picked.value, miner, time);
      if candidate.Err? {
        BuildingFailsOnlyForTheMiner(net, t, miner, timestamp);
        return Err(candidate.fault), selected;
      }
      CandidateStartsAtZero(net, t, picked.value, miner, time, candidate.value);
      r := MineBlock(net, candidate.value, maxAttempts);
    }

    method SubmitMined(b: Block, ghost selected: seq<Transaction>, ghost miner: Text, ghost timestamp: Option<int>,
                       ghost limit: int, commits: bool)
      returns (r: Result<MiningResult>)
      requires Valid() && InU64(b.header.nonce) && Mined(net, b)
      requires CandidateWas(net, chain.Tree(), pool.Value(), b, selected, miner, timestamp, limit)
      modifies this`chain, chain, pool, storage
      ensures Valid() && (chain == old(chain) || fresh(chain))
      ensures r.Err? ==> chain.Tree() == old(chain.Tree()) && pool.Value() == old(pool.Value())
      ensures commits ==>
                MiningOutcome(net, old(chain.Tree()), old(pool.Value()), miner, timestamp, limit, r,
                              chain.Tree(), pool.Value())
    {
      hide PoolAgrees, ValidTree, Load, Insert, Reconciled, Consistent, Greedy, Candidate, Minable, MiningOutcome,
        Mined;
      ghost var t, p := chain.Tree(), pool.Value();
      MinedOutcome(net, t, p, b, selected, miner, timestamp, limit);
      MinedBlockActivates(net, t, b, selected, miner, timestamp);
      var update := SubmitBlock(b, commits);
      if update.Err? { return Err(update.fault); }
      r := Ok(MiningResult(b, update.value));
    }

    /** Brings the pool in line with a new tip. */
    method ReconcilePool(u: Update)
      requires chain.net == net && chain.Valid() && pool.net == net && pool.Valid()
      requires UpdateIsKnown(chain.Tree(), u)
      modifies pool
      ensures pool.Valid() && pool.Value() == Reconciled(net, old(pool.Value()), chain.Tree(), u)
      ensures PoolFits(net, chain.Tree(), pool.Value())
    {
      hide PoolAgrees, ValidTree, Revalidated, OfferAll, Consistent, EntryLinked, TransactionsAt, WithoutAll, Reversed;
      ghost var t, p := chain.Tree(), pool.Value();
      var connected := BlockTransactions(u.connected);
      var disconnected := BlockTransactions(Reversed(u.disconnected));
      pool.RemoveConfirmed(connected);
      var tip := chain.entries[chain.tip];
      var height := tip.record.height + 1;
      var state := chain.StateAt(chain.tip);
      var _ := pool.Revalidate(state, height);
      ghost var kept := pool.Value();
      Reoffer(disconnected, state, height);
      OfferAllKeepsAgreement(net, kept, disconnected, tip.ledger, height);
    }

    /** Offers disconnected transactions again, skipping what is confirmed or already pending. */
    method Reoffer(disconnected: seq<Transaction>, state: AccountState, height: int)
      requires pool.net == net && pool.Valid() && state.net == net
      modifies pool
      ensures pool.Valid()
      ensures pool.Value() == OfferAll(net, old(pool.Value()), disconnected, state.Snapshot(), height)
    {
      hide Admission, Offer, Consistent;
      ghost var kept, l := pool.Value(), state.Snapshot();
      for i := 0 to |disconnected|
        invariant pool.Valid() && state.Snapshot() == l
        invariant pool.Value() == OfferAll(net, kept, disconnected[..i], l, height)
      {
        assert disconnected[..i + 1][..i] == disconnected[..i];
        OfferCases(net, pool.Value(), disconnected[i], l, height);
        var id := net.txid(disconnected[i]);
        if id in state.confirmed || id in pool.txs {
          continue;
        }
        var _ := pool.Add(disconnected[i], state, height);
      }
      assert disconnected[..|disconnected|] == disconnected;
    }

    /** The transactions of a list of known blocks, in order. */
    method BlockTransactions(hashes: seq<Hash>) returns (txs: seq<Transaction>)
      requires forall i :: 0 <= i < |hashes| ==> hashes[i] in chain.entries
      ensures txs == TransactionsAt(chain.Tree(), hashes)
    {
      txs := [];
      for i := 0 to |hashes|
        invariant txs == TransactionsAt(chain.Tree(), hashes[..i])
      {
        assert hashes[..i + 1][..i] == hashes[..i];
        txs := txs + chain.entries[hashes[i]].block.transactions;
      }
      assert hashes[..|hashes|] == hashes;
    }
  }

  /** The timestamp of a candidate: the caller's, or one target interval after the tip. */
  function CandidateTime(tip: Entry, timestamp: Option<int>): int {
    match timestamp
    case None => tip.block.header.timestamp + TARGET_BLOCK_SECONDS
    case Some(time) => time
  }

  /** A block on the tip that took the best of the pool and became the new tip. */
  ghost predicate MinedOnTop(net: Network, t: Tree, p: Pool, m: MiningResult, miner: Text, time: int, limit: int)
    requires ValidTree(net, t)
  {
    var b, hash := m.block, net.HashOf(m.block);
    && b.header.previous == t.tip && b.header.miner == miner && b.header.timestamp == time
    && Greedy(net, p, t.Tip().ledger, t.Tip().record.height + 1, b.transactions)
    && |b.transactions| == (if |Minable(p)| < limit then |Minable(p)| else limit)
    && hash !in t.entries && Insert(net, t, b).Ok?
    && m.update == Update(hash, hash, true, false, Some(t.tip), [], [hash])
  }

  ghost predicate MinerIsAcceptable(net: Network, t: Tree, miner: Text, timestamp: Option<int>)
    requires t.tip in t.entries
  {
    net.validAddress(miner) && t.Tip().block.header.timestamp < CandidateTime(t.Tip(), timestamp) <= U64_MAX
  }

  /** How mining may end: on top, or without a nonce, or because the mined block has the hash of
      another, known block. Only the first changes anything. */
  ghost predicate MiningOutcome(net: Network, t: Tree, p: Pool, miner: Text, timestamp: Option<int>, limit: int,
                                r: Result<MiningResult>, t': Tree, p': Pool)
    requires ValidTree(net, t)
  {
    match r
    case Ok(m) =>
      && MinedOnTop(net, t, p, m, miner, CandidateTime(t.Tip(), timestamp), limit)
      && t' == Insert(net, t, m.block).value.tree && UpdateIsKnown(t', m.update)
      && p' == Reconciled(net, p, t', m.update)
    case Err(fault) =>
      && t' == t && p' == p
      && (fault == NoNonceFound
          || (fault == AlreadyKnown && exists b, txs :: Collides(net, t, p, b, txs, miner, timestamp, limit)))
  }

  lemma MinedHeader(net: Network, t: Tree, p: Pool, miner: Text, timestamp: Option<int>, limit: int, m: MiningResult,
                    t': Tree, p': Pool)
    requires ValidTree(net, t) && MiningOutcome(net, t, p, miner, timestamp, limit, Ok(m), t', p')
    ensures var h, above := m.block.header, t.Tip().block.header;
            && h.miner == miner && h.previous == t.tip
            && h.timestamp == (if timestamp.Some? then timestamp.value else above.timestamp + 60)
            && net.hashValue(net.blockHash(h)) <= h.target
  {
    hide NewEntry, SwitchBetween, Greedy, Reconciled, EntryHoldsItsBranch;
    NewEntryIsMined(net, t, m.block);
  }

  lemma BuildingFailsOnlyForTheMiner(net: Network, t: Tree, miner: Text, timestamp: Option<int>)
    requires t.tip in t.entries
    requires !(net.validAddress(miner)
               && t.Tip().block.header.timestamp < CandidateTime(t.Tip(), timestamp) <= U64_MAX)
    ensures !MinerIsAcceptable(net, t, miner, timestamp)
  {
  }

  lemma SearchFailed(net: Network, t: Tree, p: Pool, miner: Text, timestamp: Option<int>, limit: int)
    requires ValidTree(net, t)
    ensures MiningOutcome(net, t, p, miner, timestamp, limit, Err(NoNonceFound), t, p)
  {
  }

  /** A block whose candidate was built on the tip from a complete greedy selection of the pool. */
  ghost predicate CandidateWas(net: Network, t: Tree, p: Pool, b: Block, txs: seq<Transaction>, miner: Text,
                               timestamp: Option<int>, limit: int)
    requires Linked(net, t)
  {
    var e := t.Tip();
    && Candidate(net, e.block, e.ledger, e.record.supply, miner, txs, CandidateTime(e, timestamp),
                 Some(TargetAfter(BlocksOf(net, t, t.tip)))) == Ok(b.WithNonce(0))
    && Greedy(net, p, e.ledger, e.record.height + 1, txs)
    && |txs| == if |Minable(p)| < limit then |Minable(p)| else limit
  }

  /** The mined block itself has the hash of a known block with another header. */
  ghost predicate Collides(net: Network, t: Tree, p: Pool, b: Block, txs: seq<Transaction>, miner: Text,
                           timestamp: Option<int>, limit: int)
    requires Linked(net, t)
  {
    && InU64(b.header.nonce) && Mined(net, b) && CandidateWas(net, t, p, b, txs, miner, timestamp, limit)
    && net.HashOf(b) in t.entries && t.entries[net.HashOf(b)].block.header != b.header
  }

  /** Submitting the mined candidate of a greedy selection gives one of the two other outcomes. */
  lemma MinedOutcome(net: Network, t: Tree, p: Pool, b: Block, txs: seq<Transaction>, miner: Text,
                     timestamp: Option<int>, limit: int)
    requires ValidTree(net, t) && InU64(b.header.nonce) && Mined(net, b)
    requires CandidateWas(net, t, p, b, txs, miner, timestamp, limit)
    ensures Insert(net, t, b).Ok? ==>
              var g := Insert(net, t, b).value;
              && UpdateIsKnown(g.tree, g.update)
              && MiningOutcome(net, t, p, miner, timestamp, limit, Ok(MiningResult(b, g.update)), g.tree,
                               Reconciled(net, p, g.tree, g.update))
    ensures Insert(net, t, b).Err? ==>
              MiningOutcome(net, t, p, miner, timestamp, limit, Err(Insert(net, t, b).fault), t, p)
  {
    hide Candidate, Execute, TargetAfter, Greedy, Minable, Reconciled, SwitchBetween, EntryHoldsItsBranch;
    var e := t.Tip();
    var expected := Some(TargetAfter(BlocksOf(net, t, t.tip)));
    TipFacts(net, t);
    MinedBlockWins(net, t, b, txs, miner, CandidateTime(e, timestamp));
    CandidateFields(net, e.block, e.ledger, e.record.supply, b, txs, miner, CandidateTime(e, timestamp), expected);
    if Insert(net, t, b).Ok? {
      UpdatesAreKnown(net, t, b);
    } else {
      assert Collides(net, t, p, b, txs, miner, timestamp, limit);
    }
  }

  lemma MinedBlockActivates(net: Network, t: Tree, b: Block, txs: seq<Transaction>, miner: Text,
                            timestamp: Option<int>)
    requires ValidTree(net, t) && InU64(b.header.nonce) && Mined(net, b)
    requires var e := t.Tip();
             Candidate(net, e.block, e.ledger, e.record.supply, miner, txs, CandidateTime(e, timestamp),
                       Some(TargetAfter(BlocksOf(net, t, t.tip)))) == Ok(b.WithNonce(0))
    ensures Insert(net, t, b).Ok? ==> Insert(net, t, b).value.update.becameActive
  {
    hide Candidate, Insert, TargetAfter;
    TipFacts(net, t);
    MinedBlockWins(net, t, b, txs, miner, CandidateTime(t.Tip(), timestamp));
  }

  lemma CandidateStartsAtZero(net: Network, t: Tree, txs: seq<Transaction>, miner: Text, timestamp: int, c: Block)
    requires ValidTree(net, t)
    requires var e := t.Tip();
             Candidate(net, e.block, e.ledger, e.record.supply, miner, txs, timestamp,
                       Some(TargetAfter(BlocksOf(net, t, t.tip)))) == Ok(c)
    ensures c.header.nonce == 0 && forall n :: c.WithNonce(n).WithNonce(0) == c
    ensures c.header.miner == miner && c.header.timestamp == timestamp
  {
  }

  /** Skipping a transaction that is confirmed or already pending is what an offer would do. */
  lemma OfferCases(net: Network, p: Pool, tx: Transaction, l: Ledger, height: int)
    ensures net.txid(tx) in l.confirmed || net.txid(tx) in p.txs ==> Offer(net, p, tx, l, height) == p
    ensures match Admission(net, p, tx, l, height)
            case Pass => Offer(net, p, tx, l, height) == With(net, p, tx)
            case Fail(_) => Offer(net, p, tx, l, height) == p
  {
    hide Reserved, ValidAt, FirstBrokenRule;
  }

  lemma NextNonceFaults(net: Network, p: Pool, sender: Text, l: Ledger, nonce: Result<int>)
    requires nonce.Err?
    requires !net.validAddress(sender) ==> nonce == Err(InvalidAddress)
    requires net.validAddress(sender) ==>
               var next := AccountAt(l, sender).nonce + |SenderIds(p, sender)|;
               nonce == if AccountAt(l, sender).nonce == U64_MAX || next > U64_MAX then Err(NonceExhausted)
                        else Ok(next)
    ensures nonce.fault !in {PendingGap, NonceConflict}
  {
  }

  lemma BrokenRuleIsNotAGap(net: Network, tx: Transaction, height: int)
    ensures FirstBrokenRule(net, tx, height) !in {PendingGap, NonceConflict}
  {
  }

  /** The nonce the pool asks for is never refused as a gap or a conflict. */
  lemma NextNonceIsNeverAGap(net: Network, p: Pool, tx: Transaction, l: Ledger, height: int)
    requires PoolAgrees(net, p, l, height)
    requires tx.nonce == AccountAt(l, tx.sender).nonce + |SenderIds(p, tx.sender)|
    ensures Admission(net, p, tx, l, height) !in {Fail(PendingGap), Fail(NonceConflict)}
  {
    BrokenRuleIsNotAGap(net, tx, height);
    hide PoolAgrees, ValidAt, FirstBrokenRule, Reserved;
    AdmittedNonceIsNext(net, p, tx, l, height);
  }
}
