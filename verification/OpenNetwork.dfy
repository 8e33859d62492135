/** A network that accepts every signature, address and proof of work, and trees built on it.

    Its hashes number the blocks by timestamp and miner and the transactions by nonce, so no two objects
    used here share one. It serves to exhibit concrete runs. */
module OpenNetwork {
  import opened Types
  import opened State
  import opened Emission
  import opened Consensus
  import opened Branches
  import opened BlockTree
  import opened Accounting
  import opened Encoding
  import opened Node

  const ALICE: Text := [0]
  const BOB: Text := [1]

  function Numbered(n: int): Hash {
    if 0 <= n < Pow256(32) then BigEndian(n, 32) else BigEndian(0, 32)
  }

  function HeaderNumber(h: Header): int {
    2 * h.timestamp + if h.miner == BOB then 1 else 0
  }

  const OPEN: Network := Network(
    [],
    (tx: Transaction) => Numbered(tx.nonce),
    (h: Header) => Numbered(HeaderNumber(h)),
    (reward: Reward, txs: seq<Transaction>) => Numbered(0),
    (accounts: map<Text, Account>) => Numbered(0),
    (h: Hash) => 0,
    (a: Text) => true,
    (key: Bytes) => ALICE,
    (tx: Transaction) => true,
    ALICE)

  lemma NumbersDiffer(m: int, n: int)
    requires 0 <= m <= 2 * U64_MAX + 1 && 0 <= n <= 2 * U64_MAX + 1
    ensures Numbered(m) == Numbered(n) <==> m == n
  {
    Widths();
    NumberSurvives(m, 32);
    NumberSurvives(n, 32);
  }

  /** Any proof of work and any address will do. */
  ghost predicate Lenient(net: Network) {
    (forall h :: net.hashValue(h) == 0) && (forall a :: net.validAddress(a))
  }

  /** All that the lemmas below need to know of the network. */
  ghost predicate IsOpen(net: Network) {
    && Lenient(net) && net.chainId == [] && net.genesisMiner == ALICE
    && (forall tx :: net.txid(tx) == Numbered(tx.nonce))
    && (forall h :: net.blockHash(h) == Numbered(HeaderNumber(h)))
    && (forall key :: net.addressOf(key) == ALICE)
    && (forall tx :: net.verifies(tx))
  }

  lemma OpenIsOpen()
    ensures IsOpen(OPEN)
  {
  }

  // Every branch can be continued

  /** Blocks one minute apart, genesis first. */
  predicate OnTime(blocks: seq<Block>) {
    forall i :: 0 <= i < |blocks| ==> blocks[i].header.timestamp == GENESIS_TIMESTAMP + 60 * i
  }

  ghost predicate CanContinue(net: Network, blocks: seq<Block>, txs: seq<Transaction>) {
    && Lenient(net)
    && ValidBranch(net, blocks) && OnTime(blocks) && 0 < |blocks| <= 1_000_000
    && |txs| <= MAX_BLOCK_TRANSACTIONS
    && Batch(net, RunBranch(net, blocks).value.ledger, txs, |blocks|).Ok?
  }

  /** The next block of a branch: what the node would build on it one minute later. */
  ghost function Continuation(net: Network, blocks: seq<Block>, miner: Text, txs: seq<Transaction>): Result<Block>
    requires CanContinue(net, blocks, txs)
  {
    var s, parent := RunBranch(net, blocks).value, blocks[|blocks| - 1];
    Candidate(net, parent, s.ledger, s.supply, miner, txs, parent.header.timestamp + 60, Some(TargetAfter(blocks)))
  }

  /** A branch and the next block of it. */
  ghost function Next(net: Network, blocks: seq<Block>, miner: Text, txs: seq<Transaction>): (longer: seq<Block>)
    requires CanContinue(net, blocks, txs)
    ensures ValidBranch(net, longer) && OnTime(longer)
    ensures |longer| == |blocks| + 1 && longer[..|blocks|] == blocks && longer == blocks + [longer[|blocks|]]
    ensures longer[|blocks|].transactions == txs
    ensures longer[|blocks|].header.miner == longer[|blocks|].reward.miner == miner
  {
    ContinuationIsValid(net, blocks, miner, txs);
    blocks + [Continuation(net, blocks, miner, txs).value]
  }

  lemma ContinuationIsValid(net: Network, blocks: seq<Block>, miner: Text, txs: seq<Transaction>)
    requires CanContinue(net, blocks, txs)
    ensures Continuation(net, blocks, miner, txs).Ok?
    ensures var b := Continuation(net, blocks, miner, txs).value;
            && ValidBranch(net, blocks + [b]) && b.transactions == txs
            && b.header.miner == b.reward.miner == miner
            && b.header.timestamp == blocks[|blocks| - 1].header.timestamp + 60
  {
    hide RunBranch, TargetAfter, Settle, Credit, Execute, Candidate, ApplyAll, WorkForTarget, Mined;
    var s, parent := RunBranch(net, blocks).value, blocks[|blocks| - 1];
    HeightIsPosition(net, blocks);
    HeightIsNeverExhausted(net, blocks);
    BranchConserves(net, blocks);
    RequiredTargetIsLegal(net, blocks);
    BranchNeverOverflows(net, blocks, txs, miner);
    CandidateSucceeds(net, parent, s.ledger, s.supply, miner, txs, parent.header.timestamp + 60,
                      Some(TargetAfter(blocks)));
    BuiltBlock(net, parent, s.ledger, s.supply, miner, txs, parent.header.timestamp + 60, Some(TargetAfter(blocks)));
    var b := Continuation(net, blocks, miner, txs).value;
    MinedCandidateIsValid(net, b, parent, s.ledger, s.supply, Some(TargetAfter(blocks)));
    RunBranchExtends(net, blocks, b);
  }

  lemma BuiltBlock(net: Network, parent: Block, l: Ledger, supply: int, miner: Text, txs: seq<Transaction>, time: int,
                   target: Option<int>)
    requires Lenient(net) && Candidate(net, parent, l, supply, miner, txs, time, target).Ok?
    ensures var b := Candidate(net, parent, l, supply, miner, txs, time, target).value;
            && b.WithNonce(0) == b && b.header.nonce == 0 && Mined(net, b) && b.transactions == txs
            && b.header.miner == b.reward.miner == miner && b.header.timestamp == time
  {
    hide Settle, Credit;
  }

  lemma GenesisContinues(net: Network)
    requires Lenient(net)
    ensures CanContinue(net, [GenesisBlock(net)], [])
  {
  }

  lemma EmptyContinues(net: Network, blocks: seq<Block>)
    requires Lenient(net) && ValidBranch(net, blocks) && OnTime(blocks) && 0 < |blocks| <= 1_000_000
    ensures CanContinue(net, blocks, [])
  {
    hide RunBranch;
  }

  /** `n` empty blocks of one miner on top of genesis. */
  ghost function Ladder(net: Network, miner: Text, n: nat): (blocks: seq<Block>)
    requires Lenient(net) && n <= 1_000_000
    ensures ValidBranch(net, blocks) && OnTime(blocks) && |blocks| == n + 1 && blocks[0] == GenesisBlock(net)
    ensures forall i :: 0 < i <= n ==> blocks[i].header.miner == miner
    decreases n
  {
    if n == 0 then GenesisContinues(net); [GenesisBlock(net)]
    else
      var below := Ladder(net, miner, n - 1);
      EmptyContinues(net, below);
      NextRung(net, below, miner);
      Next(net, below, miner, [])
  }

  lemma NextRung(net: Network, below: seq<Block>, miner: Text)
    requires |below| > 0 && CanContinue(net, below, [])
    requires forall i :: 0 < i < |below| ==> below[i].header.miner == miner
    ensures var blocks := Next(net, below, miner, []);
            blocks[0] == below[0] && forall i :: 0 < i < |blocks| ==> blocks[i].header.miner == miner
  {
    hide Next, CanContinue;
    var blocks := Next(net, below, miner, []);
    assert forall i :: 0 <= i < |below| ==> blocks[i] == below[i];
  }

  lemma {:induction false} TargetOnTime(blocks: seq<Block>)
    requires |blocks| > 0 && OnTime(blocks) && blocks[|blocks| - 1].header.target == GENESIS_TARGET
    ensures TargetAfter(blocks) == GENESIS_TARGET
  {
    hide Retarget;
    RetargetFollowsTheClock(GENESIS_TARGET, 0, 0);
  }

  /** Time on schedule leaves the target alone, so work is proportional to length. */
  lemma {:induction false} WorkOnTime(net: Network, blocks: seq<Block>)
    requires ValidBranch(net, blocks) && OnTime(blocks) && |blocks| > 0
    ensures blocks[|blocks| - 1].header.target == GENESIS_TARGET
    ensures RunBranch(net, blocks).value.work == |blocks| * WorkForTarget(GENESIS_TARGET)
  {
    if |blocks| > 1 {
      hide RunBranch, WorkForTarget, TargetAfter;
      var front := blocks[..|blocks| - 1];
      var _, _ := LastStep(net, blocks);
      WorkOnTime(net, front);
      TargetOnTime(front);
    } else {
      assert blocks[0] == GenesisBlock(net);
    }
  }

  lemma LongerIsHeavier(net: Network, a: seq<Block>, b: seq<Block>)
    requires ValidBranch(net, a) && OnTime(a) && ValidBranch(net, b) && OnTime(b) && 0 < |a| && 0 < |b|
    ensures |a| < |b| <==> RunBranch(net, a).value.work < RunBranch(net, b).value.work
  {
    hide RunBranch, WorkForTarget;
    WorkOnTime(net, a);
    WorkOnTime(net, b);
    WorkIsBounded(GENESIS_TARGET);
    ProductsCompare(WorkForTarget(GENESIS_TARGET), |a|, |b|);
  }

  lemma ProductsCompare(w: int, m: int, n: int)
    requires w > 0
    ensures m < n <==> m * w < n * w
  {
    if m < n {
      ProductRises(w, m, n - 1);
    } else {
      ProductRises(w, n, m);
    }
  }

  /** An empty block pays its miner the scheduled subsidy and changes no other account. */
  lemma EmptyBlockPays(net: Network, blocks: seq<Block>, miner: Text, a: Text)
    requires CanContinue(net, blocks, [])
    ensures var before := AccountAt(RunBranch(net, blocks).value.ledger, a);
            var after := AccountAt(RunBranch(net, Next(net, blocks, miner, [])).value.ledger, a);
            && after.nonce == before.nonce
            && after.balance == before.balance + if a == miner then Scheduled(|blocks|) else 0
    ensures RunBranch(net, Next(net, blocks, miner, [])).value.ledger.confirmed
         == RunBranch(net, blocks).value.ledger.confirmed
  {
    hide RunBranch, Next, Scheduled, ApplyAll, Credit, TargetAfter;
    var longer := Next(net, blocks, miner, []);
    var s, paid := LastStep(net, longer);
    HeightIsPosition(net, longer);
    BranchConserves(net, blocks);
    CapNeverBinds(|blocks|);
    NothingApplied(net, s.ledger, longer[|blocks|].header.height);
    CreditedBalance(net, s.ledger, miner, Scheduled(|blocks|), a);
  }

  lemma NothingApplied(net: Network, l: Ledger, height: int)
    ensures ApplyAll(net, l, [], height) == Ok(Applied(l, 0))
  {
  }

  // Trees that hold given branches

  ghost predicate Holds(net: Network, t: Tree, branch: seq<Block>) {
    && Linked(net, t) && |branch| > 0
    && net.HashOf(branch[|branch| - 1]) in t.entries
    && BlocksOf(net, t, net.HashOf(branch[|branch| - 1])) == branch
  }

  lemma HoldsStays(net: Network, t: Tree, t': Tree, branch: seq<Block>)
    requires Holds(net, t, branch) && Linked(net, t') && Extends(t, t')
    ensures Holds(net, t', branch)
  {
    PathsAreStable(net, t, t', net.HashOf(branch[|branch| - 1]));
  }

  /** What the entry at the end of a held branch says. */
  lemma HeldState(net: Network, t: Tree, branch: seq<Block>)
    requires ValidTree(net, t) && Holds(net, t, branch)
    ensures var e := t.entries[net.HashOf(branch[|branch| - 1])];
            && RunBranch(net, branch) == Ok(BranchState(e.ledger, e.record.supply, e.record.work))
            && e.record.height == |branch| - 1 && e.block == branch[|branch| - 1]
  {
    hide RunBranch, BlocksOf;
    assert EntryHoldsItsBranch(net, t, net.HashOf(branch[|branch| - 1]));
  }

  /** A new block that continues a held branch is accepted, and becomes the tip if its branch has more
      work than the active one. */
  lemma Grow(net: Network, t: Tree, branch: seq<Block>, b: Block) returns (t': Tree)
    requires ValidTree(net, t) && Holds(net, t, branch) && ValidBranch(net, branch + [b])
    requires net.HashOf(b) !in t.entries
    ensures Insert(net, t, b).Ok? && t' == Insert(net, t, b).value.tree
    ensures ValidTree(net, t') && Extends(t, t') && Holds(net, t', branch + [b])
    ensures t'.entries.Keys == t.entries.Keys + {net.HashOf(b)}
    ensures t.tip in t.entries
    ensures t'.tip == if RunBranch(net, branch + [b]).value.work > t.Tip().record.work then net.HashOf(b)
                      else t.tip
    ensures Insert(net, t, b).value.update.becameActive <==> t'.tip != t.tip
  {
    hide RunBranch, BlocksOf, Path, NewEntry, ValidTree, EntryLinked, SwitchBetween;
    TipIsKnown(net, t);
    PreviousInBranch(net, branch, b);
    AcceptedIffBranchValid(net, t, b);
    NewBlocks(net, t, b);
    NewEntryIsLinked(net, t, b);
    InsertKeepsValid(net, t, b);
    t' := Insert(net, t, b).value.tree;
    NewEntryIsNamed(net, t, b);
    HeldState(net, t', branch + [b]);
  }

  lemma PreviousInBranch(net: Network, branch: seq<Block>, b: Block)
    requires |branch| > 0 && ValidBranch(net, branch + [b])
    ensures b.header.previous == net.HashOf(branch[|branch| - 1])
  {
    hide RunBranch;
    BranchHeaders(net, branch + [b]);
    assert (branch + [b])[|branch|] == b && (branch + [b])[|branch| - 1] == branch[|branch| - 1];
  }
}
