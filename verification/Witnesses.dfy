/** Concrete inputs on which the node falls short of what one might expect of it. */
module Witnesses {
  import opened Types
  import opened Transactions
  import opened State
  import opened Emission
  import opened Consensus
  import opened Branches
  import opened BlockTree
  import opened Accounting
  import opened ChainRuns
  import opened Encoding
  import opened PendingPool
  import opened Selection
  import opened Node
  import opened Reorganizations
  import opened OpenNetwork
  import opened SyncRounds

  /** Alice pays Bob one atom. */
  function Payment(nonce: int): Transaction {
    Transaction(TRANSACTION_VERSION, [], BigEndian(0, 32), ALICE, BOB, 1, 0, nonce, U64_MAX, BigEndian(0, 64))
  }

  lemma PaymentIsValid(net: Network, nonce: int, height: int)
    requires IsOpen(net) && InU64(nonce) && InU64(height)
    ensures ValidAt(net, Payment(nonce), height)
    ensures net.txid(Payment(nonce)) == Numbered(nonce)
  {
  }

  lemma PaymentExecutes(net: Network, l: Ledger, nonce: int, height: int)
    requires IsOpen(net) && InU64(nonce) && InU64(height) && nonce < U64_MAX
    requires AccountAt(l, ALICE).nonce == nonce && AccountAt(l, ALICE).balance > 0
    requires Numbered(nonce) !in l.confirmed
    ensures Executable(net, l, Payment(nonce), height)
    ensures Admission(net, EMPTY_POOL, Payment(nonce), l, height) == Pass
  {
    hide ValidAt, FirstBrokenRule;
    PaymentIsValid(net, nonce, height);
    assert SenderIds(EMPTY_POOL, ALICE) == {};
  }

  // The last nonce

  /** With the account at the last nonce but one, two payments fit the pool, and no ledger ever executes
      the second at any height. */
  lemma LastNonceIsAdmittedButNotMinable()
    ensures var l := Ledger(map[ALICE := Account(2, U64_MAX - 1)], {});
            var first, last := Payment(U64_MAX - 1), Payment(U64_MAX);
            var p := With(OPEN, EMPTY_POOL, first);
            && Admission(OPEN, EMPTY_POOL, first, l, 1) == Pass && PoolAgrees(OPEN, p, l, 1)
            && Admission(OPEN, p, last, l, 1) == Pass
            && OPEN.txid(last) in With(OPEN, p, last).txs && OPEN.txid(last) !in Minable(With(OPEN, p, last))
            && forall l', height :: !Executable(OPEN, l', last, height)
  {
    OpenIsOpen();
    SecondPaymentIsAdmitted(OPEN);
  }

  lemma SecondPaymentIsAdmitted(net: Network)
    requires IsOpen(net)
    ensures var l := Ledger(map[ALICE := Account(2, U64_MAX - 1)], {});
            var first, last := Payment(U64_MAX - 1), Payment(U64_MAX);
            var p := With(net, EMPTY_POOL, first);
            && Admission(net, EMPTY_POOL, first, l, 1) == Pass && PoolAgrees(net, p, l, 1)
            && Admission(net, p, last, l, 1) == Pass
            && net.txid(last) in With(net, p, last).txs && net.txid(last) !in Minable(With(net, p, last))
            && forall l', height :: !Executable(net, l', last, height)
  {
    hide IsOpen, Admission, PoolAgrees, ValidAt, Executable;
    var l := Ledger(map[ALICE := Account(2, U64_MAX - 1)], {});
    var first, last := Payment(U64_MAX - 1), Payment(U64_MAX);
    PaymentExecutes(net, l, U64_MAX - 1, 1);
    PaymentIsValid(net, U64_MAX - 1, 1);
    PaymentIsValid(net, U64_MAX, 1);
    EmptyPoolAgrees(net, l, 1);
    AdmissionKeepsAgreement(net, EMPTY_POOL, first, l, 1);
    NumbersDiffer(U64_MAX - 1, U64_MAX);
    SecondOfTwo(net, l, first, last, 1);
    forall l', height
      ensures !Executable(net, l', last, height)
    {
      LastNonceNeverExecutes(net, l', last, height);
    }
  }

  lemma LastNonceNeverExecutes(net: Network, l: Ledger, tx: Transaction, height: int)
    requires tx.nonce == U64_MAX
    ensures !Executable(net, l, tx, height)
  {
    hide ValidAt, FirstBrokenRule;
  }

  lemma SecondOfTwo(net: Network, l: Ledger, first: Transaction, last: Transaction, height: int)
    requires ValidAt(net, last, height) && net.txid(last) != net.txid(first) && net.txid(last) !in l.confirmed
    requires first.sender == last.sender && first.nonce < last.nonce
    requires var account := AccountAt(l, last.sender);
             account.nonce + 1 == last.nonce <= U64_MAX && Cost(first) + Cost(last) <= account.balance
    ensures Admission(net, With(net, EMPTY_POOL, first), last, l, height) == Pass
  {
    hide ValidAt, FirstBrokenRule;
    var p, id := With(net, EMPTY_POOL, first), net.txid(first);
    assert SenderIds(p, last.sender) == {id};
    ReservedSplits(p, {id}, id);
  }

  // A reorganization that drops a successor

  /** Two branches on Alice's first block: one more block of hers with her first payment, and two empty
      ones of Bob's. */
  datatype Story = Story(trunk: seq<Block>, paid: seq<Block>, fork: seq<Block>, longer: seq<Block>) {
    ghost predicate Fits(net: Network) {
      && ValidBranch(net, trunk) && ValidBranch(net, paid) && ValidBranch(net, fork) && ValidBranch(net, longer)
      && OnTime(trunk) && OnTime(paid) && OnTime(fork) && OnTime(longer)
      && |trunk| == 2 && trunk == [GenesisBlock(net), trunk[1]]
      && |paid| == |fork| == 3 && paid == trunk + [paid[2]] && fork == trunk + [fork[2]]
      && |longer| == 4 && longer == fork + [longer[3]]
      && paid[2].transactions == [Payment(0)]
      && trunk[1].header.miner == paid[2].header.miner == ALICE
      && fork[2].header.miner == longer[3].header.miner == BOB
    }

    /** On Alice's branch she has paid once; on Bob's she has not. */
    ghost predicate Settled(net: Network)
      requires Fits(net)
    {
      var a, b := RunBranch(net, paid).value.ledger, RunBranch(net, longer).value.ledger;
      && AccountAt(a, ALICE).nonce == 1 && AccountAt(a, ALICE).balance > 0 && Numbered(1) !in a.confirmed
      && AccountAt(b, ALICE).nonce == 0 && AccountAt(b, ALICE).balance > 0 && Numbered(0) !in b.confirmed
    }
  }

  lemma StoryExists(net: Network) returns (s: Story)
    requires IsOpen(net)
    ensures s.Fits(net) && s.Settled(net)
  {
    hide RunBranch, Payment;
    var trunk := FirstBlock(net);
    var paid := FirstPayment(net, trunk);
    var fork := BobsBlock(net, trunk);
    var longer := BobsBlock(net, fork);
    NumbersDiffer(0, 1);
    s := Story(trunk, paid, fork, longer);
  }

  /** Alice owns the reward of the first block and has sent nothing. */
  ghost predicate AliceIsUnspent(net: Network, blocks: seq<Block>) {
    && ValidBranch(net, blocks) && OnTime(blocks) && 2 <= |blocks| <= 3
    && var l := RunBranch(net, blocks).value.ledger;
       AccountAt(l, ALICE) == Account(INITIAL_REWARD_ATOMS, 0) && l.confirmed == {}
  }

  lemma FirstBlock(net: Network) returns (trunk: seq<Block>)
    requires IsOpen(net)
    ensures AliceIsUnspent(net, trunk) && trunk == [GenesisBlock(net), trunk[1]]
    ensures trunk[1].header.miner == ALICE
  {
    var start := [GenesisBlock(net)];
    GenesisContinues(net);
    EmptyBlockPays(net, start, ALICE, ALICE);
    trunk := Next(net, start, ALICE, []);
  }

  lemma BobsBlock(net: Network, blocks: seq<Block>) returns (longer: seq<Block>)
    requires IsOpen(net) && AliceIsUnspent(net, blocks)
    ensures |longer| == |blocks| + 1 && longer == blocks + [longer[|blocks|]]
    ensures ValidBranch(net, longer) && OnTime(longer) && longer[|blocks|].header.miner == BOB
    ensures |blocks| == 2 ==> AliceIsUnspent(net, longer)
    ensures var l := RunBranch(net, longer).value.ledger;
            AccountAt(l, ALICE) == Account(INITIAL_REWARD_ATOMS, 0) && l.confirmed == {}
  {
    hide RunBranch;
    EmptyContinues(net, blocks);
    EmptyBlockPays(net, blocks, BOB, ALICE);
    longer := Next(net, blocks, BOB, []);
  }

  lemma FirstPayment(net: Network, trunk: seq<Block>) returns (paid: seq<Block>)
    requires IsOpen(net) && AliceIsUnspent(net, trunk) && |trunk| == 2
    ensures |paid| == 3 && paid == trunk + [paid[2]]
    ensures ValidBranch(net, paid) && OnTime(paid) && paid[2].transactions == [Payment(0)]
    ensures paid[2].header.miner == ALICE
    ensures var l := RunBranch(net, paid).value.ledger;
            AccountAt(l, ALICE).nonce == 1 && AccountAt(l, ALICE).balance > 0 && l.confirmed == {Numbered(0)}
  {
    hide RunBranch, ApplyOne, ApplyAll, Executable, Next, Credit, Payment, IsOpen, Lenient, TargetAfter, WorkForTarget;
    var l := RunBranch(net, trunk).value.ledger;
    OpenIsLenient(net);
    PaymentExecutes(net, l, 0, 2);
    BranchConserves(net, trunk);
    PaymentMoves(net, l);
    SingleBatch(net, l, Payment(0), 2);
    paid := Next(net, trunk, ALICE, [Payment(0)]);
    PaidAndRewarded(net, trunk, paid, ApplyAll(net, l, [Payment(0)], 2).value);
  }

  lemma PaidAndRewarded(net: Network, trunk: seq<Block>, paid: seq<Block>, applied: Applied)
    requires 0 < |trunk| == |paid| - 1 && trunk == paid[..|trunk|] && ValidBranch(net, trunk) && ValidBranch(net, paid)
    requires ApplyAll(net, RunBranch(net, trunk).value.ledger, paid[|trunk|].transactions, |trunk|) == Ok(applied)
    ensures var a := AccountAt(RunBranch(net, paid).value.ledger, ALICE);
            && a.nonce == AccountAt(applied.ledger, ALICE).nonce
            && a.balance >= AccountAt(applied.ledger, ALICE).balance
    ensures RunBranch(net, paid).value.ledger.confirmed == applied.ledger.confirmed
  {
    hide RunBranch, ApplyAll, Credit, TargetAfter, WorkForTarget;
    var before, settled := LastStep(net, paid);
    HeightIsPosition(net, paid);
    assert settled.ledger == applied.ledger;
    var reward := settled.subsidy + settled.fees;
    CreditedBalance(net, settled.ledger, paid[|trunk|].reward.miner, reward, ALICE);
  }

  lemma OpenIsLenient(net: Network)
    requires IsOpen(net)
    ensures Lenient(net)
  {
  }

  lemma PaymentMoves(net: Network, l: Ledger)
    requires IsOpen(net) && Executable(net, l, Payment(0), 2) && Total(l.accounts) <= U64_MAX
    ensures ApplyOne(net, l, Payment(0), 2).Ok?
    ensures var l' := ApplyOne(net, l, Payment(0), 2).value;
            && AccountAt(l', ALICE).nonce == 1 && l'.confirmed == l.confirmed + {Numbered(0)}
            && AccountAt(l', ALICE).balance == AccountAt(l, ALICE).balance - 1
  {
    hide IsOpen, Executable, Transfer, Total;
    PaymentIsValid(net, 0, 2);
    TransferConserves(net, l, Payment(0), 2);
    SenderPays(net, l, Payment(0), 2);
  }

  lemma SenderPays(net: Network, l: Ledger, tx: Transaction, height: int)
    requires Executable(net, l, tx, height) && Transfer(net, l, tx, height).Ok? && tx.sender != tx.recipient
    ensures ApplyOne(net, l, tx, height) == Transfer(net, l, tx, height)
    ensures var l' := Transfer(net, l, tx, height).value;
            && AccountAt(l', tx.sender).nonce == tx.nonce + 1 && l'.confirmed == l.confirmed + {net.txid(tx)}
            && AccountAt(l', tx.sender).balance == AccountAt(l, tx.sender).balance - Cost(tx)
  {
    hide ValidAt, FirstBrokenRule;
  }

  /** The four hashes after genesis, by number. */
  lemma StoryHashes(net: Network, s: Story)
    requires IsOpen(net) && s.Fits(net)
    ensures var start := 2 * GENESIS_TIMESTAMP;
            && net.HashOf(s.trunk[0]) == Numbered(start) && net.HashOf(s.trunk[1]) == Numbered(start + 120)
            && net.HashOf(s.paid[2]) == Numbered(start + 240) && net.HashOf(s.fork[2]) == Numbered(start + 241)
            && net.HashOf(s.longer[3]) == Numbered(start + 361)
  {
    hide RunBranch, Payment;
    assert ALICE[0] != BOB[0];
  }

  lemma StoryHashesDiffer(net: Network, s: Story)
    requires IsOpen(net) && s.Fits(net)
    ensures var genesis, a1, a2 := net.HashOf(s.trunk[0]), net.HashOf(s.trunk[1]), net.HashOf(s.paid[2]);
            var b2, b3 := net.HashOf(s.fork[2]), net.HashOf(s.longer[3]);
            a1 != genesis && a2 !in {genesis, a1} && b2 !in {genesis, a1, a2} && b3 !in {genesis, a1, a2, b2}
  {
    hide Numbered, IsOpen, Story.Fits;
    StoryHashes(net, s);
    var start := 2 * GENESIS_TIMESTAMP;
    forall m, n | m in {start, start + 120, start + 240, start + 241, start + 361}
               && n in {start, start + 120, start + 240, start + 241, start + 361}
      ensures Numbered(m) == Numbered(n) <==> m == n
    {
      NumbersDiffer(m, n);
    }
  }

  // The node lives through it

  lemma OneMore(net: Network, ops: seq<Operation>, op: Operation)
    ensures RunNode(net, ops + [op]) == Operate(net, RunNode(net, ops), op)
  {
    assert (ops + [op])[..|ops|] == ops;
  }

  lemma {:induction false} EmptyStaysEmpty(net: Network, txs: seq<Transaction>)
    ensures WithoutAll(net, EMPTY_POOL, txs) == EMPTY_POOL
  {
    if txs != [] {
      EmptyStaysEmpty(net, txs[..|txs| - 1]);
    }
  }

  /** A block on the tip leaves an empty pool empty. */
  lemma EmptyNodeGrows(net: Network, s: NodeState, branch: seq<Block>, b: Block) returns (t': Tree)
    requires StateFits(net, s) && s.pool == EMPTY_POOL && Holds(net, s.tree, branch)
    requires s.tree.tip == net.HashOf(branch[|branch| - 1])
    requires ValidBranch(net, branch + [b]) && net.HashOf(b) !in s.tree.entries
    ensures Operate(net, s, OfferBlock(b)) == NodeState(t', EMPTY_POOL)
    ensures ValidTree(net, t') && Extends(s.tree, t') && Holds(net, t', branch + [b])
    ensures t'.tip == net.HashOf(b) && t'.entries.Keys == s.tree.entries.Keys + {net.HashOf(b)}
  {
    hide RunBranch, BlocksOf, ValidTree, Linked, Insert, Survives, WithoutAll;
    t' := Grow(net, s.tree, branch, b);
    PreviousInBranch(net, branch, b);
    ExtendingTheTipWins(net, s.tree, b);
    UpdatesAreKnown(net, s.tree, b);
    EmptyStaysEmpty(net, TransactionsAt(t', Insert(net, s.tree, b).value.update.connected));
  }

  function AliceMines(s: Story): seq<Operation>
    requires |s.trunk| == 2 && |s.paid| == 3
  {
    [OfferBlock(s.trunk[1])] + [OfferBlock(s.paid[2])]
  }

  lemma AfterAliceMines(net: Network, s: Story)
    requires IsOpen(net) && s.Fits(net)
    ensures var state := RunNode(net, AliceMines(s));
            && state.pool == EMPTY_POOL && Holds(net, state.tree, s.trunk) && Holds(net, state.tree, s.paid)
            && state.tree.tip == net.HashOf(s.paid[2])
            && state.tree.entries.Keys == {net.HashOf(s.trunk[0]), net.HashOf(s.trunk[1]), net.HashOf(s.paid[2])}
  {
    hide RunBranch, IsOpen, BlocksOf, Operate, RunNode, Linked, ValidTree, Payment;
    StoryHashesDiffer(net, s);
    HoldsGenesis(net);
    assert [] + [OfferBlock(s.trunk[1])] == [OfferBlock(s.trunk[1])];
    OneMore(net, [], OfferBlock(s.trunk[1]));
    OneMore(net, [OfferBlock(s.trunk[1])], OfferBlock(s.paid[2]));
    assert [s.trunk[0]] + [s.trunk[1]] == s.trunk;
    var t1 := EmptyNodeGrows(net, RunNode(net, []), [s.trunk[0]], s.trunk[1]);
    var t2 := EmptyNodeGrows(net, RunNode(net, [OfferBlock(s.trunk[1])]), s.trunk, s.paid[2]);
    TipIsKnown(net, t2);
    HoldsStays(net, t1, t2, s.trunk);
  }

  /** The run up to Bob's second block: both of Alice's blocks, her second payment, and the first of
      Bob's, which leaves the tip where it was. */
  function Before(s: Story): seq<Operation>
    requires |s.trunk| == 2 && |s.paid| == |s.fork| == 3
  {
    AliceMines(s) + [OfferTransaction(Payment(1))] + [OfferBlock(s.fork[2])]
  }

  lemma BeforeReorganization(net: Network, s: Story)
    requires IsOpen(net) && s.Fits(net) && s.Settled(net)
    ensures var state := RunNode(net, Before(s));
            && state.pool == With(net, EMPTY_POOL, Payment(1))
            && Holds(net, state.tree, s.paid) && state.tree.tip == net.HashOf(s.paid[2])
            && Holds(net, state.tree, s.fork) && net.HashOf(s.longer[3]) !in state.tree.entries
  {
    hide RunBranch, IsOpen, BlocksOf, Operate, RunNode, AliceMines, Linked, ValidTree, Payment, With, Holds, Extends,
      Story.Settled, Admission, Insert;
    StoryHashesDiffer(net, s);
    AfterAliceMines(net, s);
    var quiet := AliceMines(s) + [OfferTransaction(Payment(1))];
    OneMore(net, AliceMines(s), OfferTransaction(Payment(1)));
    OneMore(net, quiet, OfferBlock(s.fork[2]));
    SecondPaymentEnters(net, s, RunNode(net, AliceMines(s)));
    SideBlockChangesNothing(net, s, RunNode(net, quiet));
  }

  lemma HoldsGenesis(net: Network)
    ensures var t := GenesisTree(net);
            && RunNode(net, []) == NodeState(t, EMPTY_POOL) && Holds(net, t, [GenesisBlock(net)])
            && t.tip == net.HashOf(GenesisBlock(net)) && t.entries.Keys == {net.HashOf(GenesisBlock(net))}
  {
    GenesisTreeIsValid(net);
    assert EntryLinked(net, GenesisTree(net).entries, GenesisHash(net));
  }

  lemma SecondPaymentEnters(net: Network, s: Story, state: NodeState)
    requires IsOpen(net) && s.Fits(net) && s.Settled(net)
    requires StateFits(net, state) && state.pool == EMPTY_POOL && Holds(net, state.tree, s.paid)
    requires state.tree.tip == net.HashOf(s.paid[2])
    ensures Operate(net, state, OfferTransaction(Payment(1)))
         == NodeState(state.tree, With(net, EMPTY_POOL, Payment(1)))
  {
    hide RunBranch, BlocksOf, ValidTree, Payment, Admission, Executable;
    HeldState(net, state.tree, s.paid);
    PaymentExecutes(net, state.tree.Tip().ledger, 1, 3);
  }

  /** Bob's first block is as heavy as Alice's second, so it does not move the tip. */
  lemma SideBlockChangesNothing(net: Network, s: Story, state: NodeState)
    requires s.Fits(net) && StateFits(net, state)
    requires Holds(net, state.tree, s.paid) && Holds(net, state.tree, s.trunk)
    requires state.tree.tip == net.HashOf(s.paid[2]) && net.HashOf(s.fork[2]) !in state.tree.entries
    ensures var after := Operate(net, state, OfferBlock(s.fork[2]));
            && after.pool == state.pool && after.tree.tip == state.tree.tip
            && Extends(state.tree, after.tree) && Holds(net, after.tree, s.paid) && Holds(net, after.tree, s.fork)
            && after.tree.entries.Keys == state.tree.entries.Keys + {net.HashOf(s.fork[2])}
  {
    hide RunBranch, BlocksOf, Linked, ValidTree, Insert, Payment, WorkForTarget;
    var t' := Grow(net, state.tree, s.trunk, s.fork[2]);
    HeldState(net, state.tree, s.paid);
    WorkOnTime(net, s.paid);
    WorkOnTime(net, s.fork);
    TipIsKnown(net, t');
    HoldsStays(net, state.tree, t', s.paid);
  }

  // The reorganization

  /** Two branches that part at position `n`: what leads away from the first is the rest of it. */
  lemma PartedAt(net: Network, t: Tree, a: Hash, b: Hash, n: nat)
    requires Linked(net, t) && a in t.entries && b in t.entries
    requires n < |BlocksOf(net, t, a)| && n < |BlocksOf(net, t, b)|
    requires BlocksOf(net, t, a)[..n] == BlocksOf(net, t, b)[..n]
    requires net.HashOf(BlocksOf(net, t, a)[n]) != net.HashOf(BlocksOf(net, t, b)[n])
    ensures SwitchBetween(net, t, a, b).disconnected == Reversed(Path(net, t, a)[n..])
  {
    hide Linked, Path, BlocksOf, CommonLength, Reversed, SwitchBetween;
    var p, q := Path(net, t, a), Path(net, t, b);
    SwitchParts(net, t, a, b);
    forall i | 0 <= i <= n
      ensures p[i] == net.HashOf(BlocksOf(net, t, a)[i]) && q[i] == net.HashOf(BlocksOf(net, t, b)[i])
    {
      PathsAreHashes(net, t, a, i);
      PathsAreHashes(net, t, b, i);
    }
    forall i | 0 <= i < n
      ensures p[i] == q[i]
    {
      assert BlocksOf(net, t, a)[..n][i] == BlocksOf(net, t, b)[..n][i];
    }
    assert p[..n] == q[..n];
    Prefixes(p, q, n);
  }

  /** Bob's second block moves the tip to his branch and disconnects Alice's second block. */
  lemma BobsBranchWins(net: Network, s: Story, t: Tree)
    requires s.Fits(net) && ValidTree(net, t) && Holds(net, t, s.paid) && Holds(net, t, s.fork)
    requires t.tip == net.HashOf(s.paid[2]) && net.HashOf(s.longer[3]) !in t.entries
    requires net.HashOf(s.fork[2]) != net.HashOf(s.paid[2])
    ensures Insert(net, t, s.longer[3]).Ok?
    ensures var t', u := Insert(net, t, s.longer[3]).value.tree, Insert(net, t, s.longer[3]).value.update;
            && ValidTree(net, t') && UpdateIsKnown(t', u) && u.becameActive && u.reorganized
            && Holds(net, t', s.longer) && t'.tip == net.HashOf(s.longer[3])
            && TransactionsAt(t', Reversed(u.disconnected)) == [Payment(0)]
  {
    hide RunBranch, BlocksOf, ValidTree, Payment, WorkForTarget, NewEntry, TransactionsAt, Path;
    var t' := Grow(net, t, s.fork, s.longer[3]);
    var u := Insert(net, t, s.longer[3]).value.update;
    TipIsKnown(net, t');
    UpdatesAreKnown(net, t, s.longer[3]);
    HoldsStays(net, t, t', s.paid);
    LongerIsHeavier(net, s.paid, s.longer);
    HeldState(net, t, s.paid);
    HeldState(net, t', s.paid);
    assert s.paid[..2] == s.trunk == s.fork[..2] == s.longer[..2] && s.longer[2] == s.fork[2];
    PartedAt(net, t', t.tip, t'.tip, 2);
    assert Path(net, t', t.tip)[2..] == [t.tip];
    assert u.disconnected == [t.tip];
    OneDisconnected(t', t.tip);
  }

  lemma OneDisconnected(t: Tree, h: Hash)
    requires h in t.entries
    ensures Reversed([h]) == [h] && TransactionsAt(t, [h]) == t.entries[h].block.transactions
  {
    assert [h][..0] == [];
    assert TransactionsAt(t, [h]) == TransactionsAt(t, []) + t.entries[h].block.transactions;
  }

  /** A pool that loses its only transaction is empty when the disconnected one is offered. */
  lemma OfferedToTheEmptyPool(net: Network, p: Pool, id: Hash, t: Tree, u: Update, tx: Transaction)
    requires UpdateIsKnown(t, u) && Consistent(net, p) && p.txs.Keys == {id}
    requires TransactionsAt(t, Reversed(u.disconnected)) == [tx] && id !in Reconciled(net, p, t, u).txs
    ensures Reconciled(net, p, t, u) == Offer(net, EMPTY_POOL, tx, t.Tip().ledger, t.Tip().record.height + 1)
  {
    hide Survives, Admission, TransactionsAt, WithoutAll;
    var l, height := t.Tip().ledger, t.Tip().record.height + 1;
    var left := WithoutAll(net, p, TransactionsAt(t, u.connected));
    WithoutAllIsConsistent(net, p, TransactionsAt(t, u.connected));
    RemovalIsSmaller(net, p, TransactionsAt(t, u.connected));
    var kept := Revalidated(net, left, l, height);
    assert [tx][..0] == [];
    assert OfferAll(net, kept, [tx], l, height) == Offer(net, kept, tx, l, height);
    assert kept.txs.Keys <= {id};
    assert kept == EMPTY_POOL;
  }

  lemma {:induction false} RemovalIsSmaller(net: Network, p: Pool, txs: seq<Transaction>)
    ensures WithoutAll(net, p, txs).txs.Keys <= p.txs.Keys
  {
    if txs != [] {
      RemovalIsSmaller(net, p, txs[..|txs| - 1]);
    }
  }

  /** The pool held her second payment only; the block reorganizes, and the pool holds her first payment
      only: the second one was dropped before the first one was pending again. */
  ghost predicate DropsSuccessor(net: Network, ops: seq<Operation>, b: Block) {
    var state := RunNode(net, ops);
    && Insert(net, state.tree, b).Ok? && Insert(net, state.tree, b).value.update.reorganized
    && state.pool == With(net, EMPTY_POOL, Payment(1))
    && Operate(net, state, OfferBlock(b)).pool == With(net, EMPTY_POOL, Payment(0))
  }

  lemma TwoTips(net: Network, s: Story, t: Tree, t': Tree)
    requires s.Fits(net) && s.Settled(net) && ValidTree(net, t) && ValidTree(net, t')
    requires Holds(net, t, s.paid) && t.tip == net.HashOf(s.paid[2]) && t.tip in t.entries
    requires Holds(net, t', s.longer) && t'.tip == net.HashOf(s.longer[3]) && t'.tip in t'.entries
    ensures AccountAt(t.Tip().ledger, ALICE).nonce == 1
    ensures var account := AccountAt(t'.Tip().ledger, ALICE);
            account.nonce == 0 && account.balance > 0 && Numbered(0) !in t'.Tip().ledger.confirmed
    ensures t'.Tip().record.height == 3
  {
    hide RunBranch, BlocksOf, ValidTree, Linked, Payment;
    HeldState(net, t, s.paid);
    HeldState(net, t', s.longer);
  }

  lemma SecondPaymentIsDropped(net: Network, s: Story)
    requires IsOpen(net) && s.Fits(net) && s.Settled(net)
    ensures DropsSuccessor(net, Before(s), s.longer[3])
  {
    hide RunBranch, IsOpen, BlocksOf, RunNode, Before, Linked, ValidTree, Insert, Holds, Reconciled, Story.Settled,
      Admission, Survives, Backed, ValidAt, Executable, TransactionsAt;
    var state, b := RunNode(net, Before(s)), s.longer[3];
    BeforeReorganization(net, s);
    StoryHashesDiffer(net, s);
    TipIsKnown(net, state.tree);
    BobsBranchWins(net, s, state.tree);
    var g := Insert(net, state.tree, b).value;
    TipIsKnown(net, g.tree);
    TwoTips(net, s, state.tree, g.tree);
    PaymentIsValid(net, 1, 4);
    SuccessorsAreDropped(net, state, b, net.txid(Payment(1)));
    OfferedToTheEmptyPool(net, state.pool, net.txid(Payment(1)), g.tree, g.update, Payment(0));
    PaymentExecutes(net, g.tree.Tip().ledger, 0, 4);
  }

  /** A reorganization does not always keep the successors of what it disconnects. */
  lemma ReorganizationDropsSuccessor()
    ensures exists ops: seq<Operation>, b: Block :: DropsSuccessor(OPEN, ops, b)
  {
    hide DropsSuccessor, IsOpen, Story.Settled;
    OpenIsOpen();
    var s := StoryExists(OPEN);
    SecondPaymentIsDropped(OPEN, s);
  }

  // A heavier peer that is never reached

  function RungHash(miner: Text, i: nat): Hash {
    Numbered(2 * (GENESIS_TIMESTAMP + 60 * i) + if i > 0 && miner == BOB then 1 else 0)
  }

  lemma RungsDiffer(a: Text, i: nat, b: Text, j: nat)
    requires i <= 1_000_000 && j <= 1_000_000
    ensures RungHash(a, i) == RungHash(b, j) ==> i == j && (i > 0 ==> (a == BOB <==> b == BOB))
  {
    NumbersDiffer(2 * (GENESIS_TIMESTAMP + 60 * i) + (if i > 0 && a == BOB then 1 else 0),
                  2 * (GENESIS_TIMESTAMP + 60 * j) + (if j > 0 && b == BOB then 1 else 0));
  }

  lemma LadderHashes(net: Network, miner: Text, n: nat, i: nat)
    requires IsOpen(net) && i <= n <= 1_000_000
    ensures net.HashOf(Ladder(net, miner, n)[i]) == RungHash(miner, i)
  {
    hide Ladder, Numbered;
    assert ALICE[0] != BOB[0];
  }

  ghost predicate OnlyRungs(t: Tree, miner: Text, n: nat) {
    forall h :: h in t.entries ==> exists i :: 0 <= i <= n && h == RungHash(miner, i)
  }

  lemma LadderStep(net: Network, miner: Text, n: nat)
    requires Lenient(net) && 0 < n <= 1_000_000
    ensures var below, rungs := Ladder(net, miner, n - 1), Ladder(net, miner, n);
            && rungs == below + [rungs[n]] && rungs[1..] == below[1..] + [rungs[n]]
  {
    hide RunBranch, Next, OnTime;
  }

  lemma NewRung(t: Tree, t': Tree, miner: Text, n: nat)
    requires 0 < n <= 1_000_000 && OnlyRungs(t, miner, n - 1)
    ensures RungHash(miner, n) !in t.entries
    ensures t'.entries.Keys == t.entries.Keys + {RungHash(miner, n)} ==> OnlyRungs(t', miner, n)
  {
    hide RungHash;
    forall i: nat | i < n
      ensures RungHash(miner, i) != RungHash(miner, n)
    {
      RungsDiffer(miner, i, miner, n);
    }
    if t'.entries.Keys == t.entries.Keys + {RungHash(miner, n)} {
      forall h | h in t'.entries
        ensures exists i :: 0 <= i <= n && h == RungHash(miner, i)
      {
        assert h in t.entries || h == RungHash(miner, n);
      }
    }
  }

  lemma OneMoreAttempt(net: Network, attempts: seq<Block>, b: Block)
    requires Insert(net, Run(net, attempts), b).Ok?
    ensures Run(net, attempts + [b]) == Insert(net, Run(net, attempts), b).value.tree
  {
    hide NewEntry;
    assert (attempts + [b])[..|attempts|] == attempts;
  }

  /** The tree of a node that was offered one ladder. */
  lemma {:induction false} LadderTree(net: Network, miner: Text, n: nat) returns (t: Tree)
    requires IsOpen(net) && Lenient(net) && n <= 1_000_000
    ensures t == Run(net, Ladder(net, miner, n)[1..])
    ensures ValidTree(net, t) && Holds(net, t, Ladder(net, miner, n)) && t.tip == RungHash(miner, n)
    ensures OnlyRungs(t, miner, n)
  {
    hide RunBranch, BlocksOf, ValidTree, Linked, Holds, IsOpen, Insert, RungHash, OnTime, OnlyRungs, Extends, Run;
    LadderHashes(net, miner, n, n);
    if n == 0 {
      t := LowestRung(net, miner);
    } else {
      hide Ladder;
      var below, rungs := Ladder(net, miner, n - 1), Ladder(net, miner, n);
      t := LadderTree(net, miner, n - 1);
      LadderStep(net, miner, n);
      LadderHashes(net, miner, n - 1, n - 1);
      NewRung(t, t, miner, n);
      var t' := Grow(net, t, below, rungs[n]);
      NewRung(t, t', miner, n);
      OneMoreAttempt(net, below[1..], rungs[n]);
      LongerIsHeavier(net, below, rungs);
      HeldState(net, t, below);
      t := t';
    }
  }

  lemma LowestRung(net: Network, miner: Text) returns (t: Tree)
    requires IsOpen(net) && Lenient(net)
    ensures t == Run(net, Ladder(net, miner, 0)[1..])
    ensures ValidTree(net, t) && Holds(net, t, Ladder(net, miner, 0)) && t.tip == RungHash(miner, 0)
    ensures OnlyRungs(t, miner, 0)
  {
    hide RunBranch, IsOpen, RungHash, OnTime;
    HoldsGenesis(net);
    GenesisTreeIsValid(net);
    LadderHashes(net, miner, 0, 0);
    t := GenesisTree(net);
  }

  /** The two ladders share nothing but genesis. */
  lemma LaddersPart(net: Network, t: Tree, r: Tree, m: nat, n: nat)
    requires IsOpen(net) && Lenient(net) && 0 < m <= 1_000_000 && 0 < n <= 1_000_000
    requires ValidTree(net, t) && Holds(net, t, Ladder(net, ALICE, m)) && t.tip == RungHash(ALICE, m)
    requires ValidTree(net, r) && Holds(net, r, Ladder(net, BOB, n)) && r.tip == RungHash(BOB, n)
    requires OnlyRungs(t, ALICE, m) && OnlyRungs(r, BOB, n)
    ensures SharedHistory(net, t, r) && Fork(net, t, r) == 0
  {
    hide RunBranch, BlocksOf, Path, EntryLinked, EntryHoldsItsBranch, IsOpen, RungHash, OnTime, Ladder, CommonLength;
    LadderHashes(net, ALICE, m, m);
    LadderHashes(net, BOB, n, n);
    forall h | h in t.entries && h in r.entries
      ensures BlocksOf(net, t, h) == BlocksOf(net, r, h)
    {
      var i :| 0 <= i <= m && h == RungHash(ALICE, i);
      var j :| 0 <= j <= n && h == RungHash(BOB, j);
      RungsDiffer(ALICE, i, BOB, j);
      LadderFoot(net, t, ALICE, m);
      LadderFoot(net, r, BOB, n);
    }
    FirstRungs(net, t, r, m, n);
  }

  lemma LadderFoot(net: Network, t: Tree, miner: Text, n: nat)
    requires IsOpen(net) && Lenient(net) && n <= 1_000_000 && Linked(net, t)
    requires Holds(net, t, Ladder(net, miner, n)) && t.tip == RungHash(miner, n)
    ensures RungHash(miner, 0) in t.entries && BlocksOf(net, t, RungHash(miner, 0)) == [GenesisBlock(net)]
  {
    hide RunBranch, BlocksOf, Path, EntryLinked, IsOpen, RungHash, OnTime, Ladder;
    LadderHashes(net, miner, n, n);
    LadderHashes(net, miner, n, 0);
    PathPrefix(net, t, t.tip, 0);
    PathsAreHashes(net, t, t.tip, 0);
    assert BlocksOf(net, t, t.tip)[..1] == [BlocksOf(net, t, t.tip)[0]];
  }

  lemma FirstRungs(net: Network, t: Tree, r: Tree, m: nat, n: nat)
    requires IsOpen(net) && Lenient(net) && 0 < m <= 1_000_000 && 0 < n <= 1_000_000
    requires Holds(net, t, Ladder(net, ALICE, m)) && t.tip == RungHash(ALICE, m)
    requires Holds(net, r, Ladder(net, BOB, n)) && r.tip == RungHash(BOB, n)
    ensures Fork(net, t, r) == 0
  {
    hide RunBranch, BlocksOf, Path, EntryLinked, IsOpen, RungHash, OnTime, Ladder;
    LadderHashes(net, ALICE, m, m);
    LadderHashes(net, BOB, n, n);
    LadderHashes(net, ALICE, m, 1);
    LadderHashes(net, BOB, n, 1);
    PathsAreHashes(net, t, t.tip, 1);
    PathsAreHashes(net, r, r.tip, 1);
    RungsDiffer(ALICE, 1, BOB, 1);
    assert ALICE[0] != BOB[0];
  }

  /** A node with 128 blocks of its own and a peer with 129 others: the peer's first batch of 128 weighs
      as much as the node's chain, so no number of rounds moves the node to the heavier chain. */
  ghost predicate NeverCatchesUp(net: Network, mine: seq<Block>, theirs: seq<Block>) {
    var t, r := Run(net, mine), Run(net, theirs);
    && SharedHistory(net, t, r) && t.Tip().record.work < r.Tip().record.work
    && forall count :: Rounds(net, t, r, count).tip == t.tip != r.tip
  }

  lemma LaddersNeverMeet(net: Network) returns (mine: seq<Block>, theirs: seq<Block>)
    requires IsOpen(net) && Lenient(net)
    ensures NeverCatchesUp(net, mine, theirs)
  {
    hide RunBranch, BlocksOf, Path, Linked, ValidTree, IsOpen, RungHash, OnTime, Ladder, OnlyRungs, SharedHistory,
      Fork, Matched, Run, Rounds, BatchEnd;
    var left, right := Ladder(net, ALICE, 128), Ladder(net, BOB, 129);
    mine, theirs := left[1..], right[1..];
    var t := LadderTree(net, ALICE, 128);
    var r := LadderTree(net, BOB, 129);
    TipIsKnown(net, t);
    TipIsKnown(net, r);
    LadderHashes(net, ALICE, 128, 128);
    LadderHashes(net, BOB, 129, 129);
    HeldState(net, t, left);
    HeldState(net, r, right);
    LongerIsHeavier(net, left, right);
    LaddersPart(net, t, r, 128, 129);
    FirstBatchTies(net, t, r);
    forall count: nat
      ensures Rounds(net, t, r, count).tip == t.tip != r.tip
    {
      OtherwiseStalls(net, t, r, count);
      RungsDiffer(ALICE, 128, BOB, 129);
    }
  }

  lemma FirstBatchTies(net: Network, t: Tree, r: Tree)
    requires IsOpen(net) && Lenient(net) && ValidTree(net, t) && ValidTree(net, r) && Fork(net, t, r) == 0
    requires Holds(net, t, Ladder(net, ALICE, 128)) && t.tip == RungHash(ALICE, 128)
    requires Holds(net, r, Ladder(net, BOB, 129)) && r.tip == RungHash(BOB, 129)
    ensures WorkOf(r, BatchEnd(net, t, r)) == t.Tip().record.work
  {
    hide RunBranch, BlocksOf, Path, Linked, ValidTree, IsOpen, RungHash, OnTime, Ladder, Fork, Matched;
    var mine, theirs := Ladder(net, ALICE, 128), Ladder(net, BOB, 129);
    TipIsKnown(net, t);
    TipIsKnown(net, r);
    LadderHashes(net, ALICE, 128, 128);
    LadderHashes(net, BOB, 129, 129);
    HeldState(net, t, mine);
    PathPrefix(net, r, r.tip, 128);
    var end := Path(net, r, r.tip)[128];
    assert BlocksOf(net, r, end) == theirs[..129];
    BatchState(net, r, end, theirs);
    LongerIsHeavier(net, mine, theirs[..129]);
    LongerIsHeavier(net, theirs[..129], mine);
  }

  lemma BatchState(net: Network, r: Tree, end: Hash, theirs: seq<Block>)
    requires ValidTree(net, r) && end in r.entries && |theirs| > 129 && OnTime(theirs)
    requires BlocksOf(net, r, end) == theirs[..129]
    ensures ValidBranch(net, theirs[..129]) && OnTime(theirs[..129])
    ensures RunBranch(net, theirs[..129]).value.work == WorkOf(r, end)
  {
    hide RunBranch, BlocksOf;
    assert EntryHoldsItsBranch(net, r, end);
  }

  /** Synchronizing with a heavier peer does not always converge. */
  lemma HeavierPeerIsNeverReached()
    ensures exists mine: seq<Block>, theirs: seq<Block> :: NeverCatchesUp(OPEN, mine, theirs)
  {
    hide IsOpen, Lenient, NeverCatchesUp;
    OpenIsOpen();
    OpenIsLenient(OPEN);
    var _, _ := LaddersNeverMeet(OPEN);
  }
}
