/** The block tree as a value: validated blocks on all known branches and one active tip. */
module BlockTree {
  import opened Types
  import opened State
  import opened Consensus
  import opened Branches

  datatype Record = Record(hash: Hash, parent: Option<Hash>, height: int, work: int, supply: int)

  /** An immutable validated block with the state of its own branch. */
  datatype Entry = Entry(block: Block, record: Record, ledger: Ledger)

  datatype Tree = Tree(entries: map<Hash, Entry>, tip: Hash) {
    function Tip(): Entry
      requires tip in entries
    {
      entries[tip]
    }
  }

  /** What adding a block did to the active chain. */
  datatype Update = Update(
    added: Hash,
    activeTip: Hash,
    becameActive: bool,
    reorganized: bool,
    commonAncestor: Option<Hash>,
    disconnected: seq<Hash>,
    connected: seq<Hash>)

  datatype Grown = Grown(tree: Tree, update: Update)

  function GenesisHash(net: Network): Hash {
    net.HashOf(GenesisBlock(net))
  }

  function GenesisEntry(net: Network): Entry {
    Entry(GenesisBlock(net),
          Record(GenesisHash(net), None, 0, GENESIS_STATE.work, GENESIS_STATE.supply),
          GENESIS_STATE.ledger)
  }

  function GenesisTree(net: Network): Tree {
    Tree(map[GenesisHash(net) := GenesisEntry(net)], GenesisHash(net))
  }

  // ---------------------------------------------------------------------------------------------
  // Structure: every entry hangs on a parent one lower
  // ---------------------------------------------------------------------------------------------

  predicate EntryLinked(net: Network, entries: map<Hash, Entry>, h: Hash)
    requires h in entries
  {
    var e := entries[h];
    && e.record.hash == h == net.HashOf(e.block)
    && e.record.height == e.block.header.height >= 0
    && match e.record.parent
       case None => e.record.height == 0 && e.block == GenesisBlock(net)
       case Some(p) =>
         && p == e.block.header.previous && p in entries
         && entries[p].record.height + 1 == e.record.height
  }

  /** Heights, not hashes, make the parent links well-founded. */
  ghost predicate Linked(net: Network, t: Tree) {
    && t.tip in t.entries
    && GenesisHash(net) in t.entries
    && forall h {:trigger EntryLinked(net, t.entries, h)} ::
         h in t.entries ==> EntryLinked(net, t.entries, h)
  }

  /** The hashes of a branch, genesis first. */
  ghost function Path(net: Network, t: Tree, h: Hash): (path: seq<Hash>)
    requires Linked(net, t) && h in t.entries
    ensures |path| == t.entries[h].record.height + 1 > 0 && path[|path| - 1] == h
    ensures forall i :: 0 <= i < |path| ==> path[i] in t.entries
    decreases t.entries[h].record.height
  {
    assert EntryLinked(net, t.entries, h);
    match t.entries[h].record.parent
    case None => [h]
    case Some(p) => assert EntryLinked(net, t.entries, p); Path(net, t, p) + [h]
  }

  /** The blocks of a branch, genesis first. */
  ghost function BlocksOf(net: Network, t: Tree, h: Hash): (blocks: seq<Block>)
    requires Linked(net, t) && h in t.entries
    ensures |blocks| == t.entries[h].record.height + 1 > 0
    ensures blocks[|blocks| - 1] == t.entries[h].block
    decreases t.entries[h].record.height
  {
    assert EntryLinked(net, t.entries, h);
    match t.entries[h].record.parent
    case None => [t.entries[h].block]
    case Some(p) => assert EntryLinked(net, t.entries, p); BlocksOf(net, t, p) + [t.entries[h].block]
  }

  /** Everything below a hash on a path is that hash's own path. */
  lemma {:induction false} PathPrefix(net: Network, t: Tree, h: Hash, i: nat)
    requires Linked(net, t) && h in t.entries && i <= t.entries[h].record.height
    ensures var path := Path(net, t, h);
            && t.entries[path[i]].record.height == i
            && Path(net, t, path[i]) == path[..i + 1]
            && BlocksOf(net, t, path[i]) == BlocksOf(net, t, h)[..i + 1]
            && BlocksOf(net, t, h)[i] == t.entries[path[i]].block
    decreases t.entries[h].record.height
  {
    assert EntryLinked(net, t.entries, h);
    if i < t.entries[h].record.height {
      PathPrefix(net, t, t.entries[h].record.parent.value, i);
    }
  }

  /** Growing a tree never changes the branches it already has. */
  ghost predicate Extends(t: Tree, t': Tree) {
    forall h :: h in t.entries ==> h in t'.entries && t'.entries[h] == t.entries[h]
  }

  lemma {:induction false} PathsAreStable(net: Network, t: Tree, t': Tree, h: Hash)
    requires Linked(net, t) && Linked(net, t') && Extends(t, t') && h in t.entries
    ensures Path(net, t', h) == Path(net, t, h) && BlocksOf(net, t', h) == BlocksOf(net, t, h)
    decreases t.entries[h].record.height
  {
    assert EntryLinked(net, t.entries, h);
    if t.entries[h].record.parent.Some? {
      assert EntryLinked(net, t.entries, t.entries[h].record.parent.value);
      PathsAreStable(net, t, t', t.entries[h].record.parent.value);
    }
  }

  // ---------------------------------------------------------------------------------------------
  // Reorganization paths
  // ---------------------------------------------------------------------------------------------

  /** How far two sequences agree from the start. */
  function CommonLength(a: seq<Hash>, b: seq<Hash>): (n: nat)
    ensures n <= |a| && n <= |b|
    ensures a[..n] == b[..n]
    ensures n < |a| && n < |b| ==> a[n] != b[n]
  {
    if |a| == 0 || |b| == 0 || a[0] != b[0] then 0
    else
      var n := 1 + CommonLength(a[1..], b[1..]);
      assert a[..n] == [a[0]] + a[1..][..n - 1] && b[..n] == [b[0]] + b[1..][..n - 1];
      n
  }

  function Reversed(s: seq<Hash>): (r: seq<Hash>)
    ensures |r| == |s|
    ensures forall i :: 0 <= i < |s| ==> r[i] == s[|s| - 1 - i]
  {
    if s == [] then [] else Reversed(s[1..]) + [s[0]]
  }

  /** The common ancestor of two branches, the blocks left (tip first) and the blocks entered
      (ancestor first). */
  datatype Switch = Switch(ancestor: Hash, disconnected: seq<Hash>, connected: seq<Hash>)

  lemma GenesisIsFirst(net: Network, t: Tree, h: Hash)
    requires Linked(net, t) && h in t.entries
    ensures Path(net, t, h)[0] == GenesisHash(net)
  {
    assert EntryLinked(net, t.entries, h);
    PathPrefix(net, t, h, 0);
    assert EntryLinked(net, t.entries, Path(net, t, h)[0]);
  }

  ghost function SwitchBetween(net: Network, t: Tree, oldTip: Hash, newTip: Hash): (s: Switch)
    requires Linked(net, t) && oldTip in t.entries && newTip in t.entries
  {
    GenesisIsFirst(net, t, oldTip);
    GenesisIsFirst(net, t, newTip);
    var a, b := Path(net, t, oldTip), Path(net, t, newTip);
    var n := CommonLength(a, b);
    Switch(a[n - 1], Reversed(a[n..]), b[n..])
  }

  /** The ancestor lies on both branches, and every hash on both branches lies on the ancestor's
      own path: it is the lowest common ancestor. Leaving and entering along the two lists leads
      from one branch to the other. */
  lemma SwitchIsLowestCommonAncestor(net: Network, t: Tree, oldTip: Hash, newTip: Hash)
    requires Linked(net, t) && oldTip in t.entries && newTip in t.entries
    ensures var s := SwitchBetween(net, t, oldTip, newTip);
            && s.ancestor in t.entries
            && Path(net, t, oldTip) == Path(net, t, s.ancestor) + Reversed(s.disconnected)
            && Path(net, t, newTip) == Path(net, t, s.ancestor) + s.connected
            && forall h :: h in Path(net, t, oldTip) && h in Path(net, t, newTip)
                       ==> h in Path(net, t, s.ancestor)
  {
    hide Linked, EntryLinked, CommonLength, Reversed;
    var s := SwitchBetween(net, t, oldTip, newTip);
    var n := CommonPathLength(net, t, oldTip, newTip);
    forall h | h in Path(net, t, oldTip) && h in Path(net, t, newTip)
      ensures h in Path(net, t, s.ancestor)
    {
      SamePosition(net, t, oldTip, newTip, h);
    }
  }

  lemma CommonPathLength(net: Network, t: Tree, oldTip: Hash, newTip: Hash) returns (n: nat)
    requires Linked(net, t) && oldTip in t.entries && newTip in t.entries
    ensures var s, a, b := SwitchBetween(net, t, oldTip, newTip), Path(net, t, oldTip), Path(net, t, newTip);
            && n == CommonLength(a, b) && 0 < n
            && s.ancestor in t.entries && Path(net, t, s.ancestor) == a[..n] == b[..n]
            && a == a[..n] + Reversed(s.disconnected) && b == b[..n] + s.connected
  {
    hide Linked, EntryLinked, CommonLength, Path, BlocksOf, Reversed, SwitchBetween;
    var a, b := Path(net, t, oldTip), Path(net, t, newTip);
    n := CommonLength(a, b);
    SwitchParts(net, t, oldTip, newTip);
    PathPrefix(net, t, oldTip, n - 1);
    SplitAt(a, n);
    SplitPlain(b, n);
  }

  lemma SwitchParts(net: Network, t: Tree, oldTip: Hash, newTip: Hash)
    requires Linked(net, t) && oldTip in t.entries && newTip in t.entries
    ensures var s, a, b := SwitchBetween(net, t, oldTip, newTip), Path(net, t, oldTip), Path(net, t, newTip);
            var n := CommonLength(a, b);
            n > 0 && s == Switch(a[n - 1], Reversed(a[n..]), b[n..])
  {
    hide Linked, EntryLinked, Path, BlocksOf, Reversed, CommonLength;
    GenesisIsFirst(net, t, oldTip);
    GenesisIsFirst(net, t, newTip);
  }

  lemma SplitPlain(b: seq<Hash>, n: nat)
    requires n <= |b|
    ensures b == b[..n] + b[n..]
  {
  }

  lemma ReversedTwice(s: seq<Hash>)
    ensures Reversed(Reversed(s)) == s
  {
    hide Reversed;
  }

  lemma SplitAt(a: seq<Hash>, n: nat)
    requires n <= |a|
    ensures a == a[..n] + Reversed(Reversed(a[n..]))
  {
    hide Reversed;
    ReversedTwice(a[n..]);
  }

  lemma Prefixes(a: seq<Hash>, b: seq<Hash>, k: nat)
    requires k <= |a| && k <= |b| && a[..k] == b[..k]
    ensures k <= CommonLength(a, b)
  {
    if k > 0 {
      assert a[0] == a[..k][0] == b[..k][0] == b[0];
      assert a[1..][..k - 1] == a[..k][1..] == b[..k][1..] == b[1..][..k - 1];
      Prefixes(a[1..], b[1..], k - 1);
    }
  }

  /** A hash on two paths sits at the same place on both, with the same hashes below it. */
  lemma SamePosition(net: Network, t: Tree, oldTip: Hash, newTip: Hash, h: Hash)
    requires Linked(net, t) && oldTip in t.entries && newTip in t.entries
    requires h in Path(net, t, oldTip) && h in Path(net, t, newTip)
    ensures h in Path(net, t, oldTip)[..CommonLength(Path(net, t, oldTip), Path(net, t, newTip))]
  {
    hide Linked, EntryLinked, Path, BlocksOf;
    var a, b := Path(net, t, oldTip), Path(net, t, newTip);
    var i :| 0 <= i < |a| && a[i] == h;
    var j :| 0 <= j < |b| && b[j] == h;
    PathPrefix(net, t, oldTip, i);
    PathPrefix(net, t, newTip, j);
    var n := CommonLength(a, b);
    Prefixes(a, b, i + 1);
  }

  // ---------------------------------------------------------------------------------------------
  // Adding a block
  // ---------------------------------------------------------------------------------------------

  /** The invariant of every reachable tree: each entry holds exactly the result of executing its
      branch from genesis, and no entry has more work than the tip. */
  ghost predicate ValidTree(net: Network, t: Tree) {
    && Linked(net, t)
    && (forall h {:trigger EntryHoldsItsBranch(net, t, h)} ::
          h in t.entries ==> EntryHoldsItsBranch(net, t, h))
    && (forall h :: h in t.entries ==> t.entries[h].record.work <= t.Tip().record.work)
  }

  ghost predicate EntryHoldsItsBranch(net: Network, t: Tree, h: Hash)
    requires Linked(net, t) && h in t.entries
  {
    var e := t.entries[h];
    RunBranch(net, BlocksOf(net, t, h)) == Ok(BranchState(e.ledger, e.record.supply, e.record.work))
  }

  lemma TipIsKnown(net: Network, t: Tree)
    requires ValidTree(net, t)
    ensures Linked(net, t) && t.tip in t.entries
  {
  }

  function EntryFor(net: Network, parent: Entry, b: Block, e: Execution): Entry
    requires TargetInRange(b.header.target)
  {
    Entry(b, Record(net.HashOf(b), Some(b.header.previous), b.header.height,
                    parent.record.work + WorkForTarget(b.header.target), e.supply), e.ledger)
  }

  /** Checks a block against its own parent's branch and gives the entry it would get. */
  ghost function NewEntry(net: Network, t: Tree, b: Block): Result<Entry>
    requires Linked(net, t)
  {
    var h := b.header;
    if !HeaderEncodable(h) then Err(NotEncodable)
    else if net.HashOf(b) in t.entries then Err(AlreadyKnown)
    else if h.previous !in t.entries then Err(UnknownParent)
    else
      var parent := t.entries[h.previous];
      if parent.record.height == U64_MAX then Err(HeightExhausted)
      else
        match Execute(net, b, Some(parent.block), parent.ledger, parent.record.supply,
                      Some(TargetAfter(BlocksOf(net, t, h.previous))))
        case Err(fault) => Err(fault)
        case Ok(e) => Ok(EntryFor(net, parent, b, e))
  }

  lemma NewEntryIsNamed(net: Network, t: Tree, b: Block)
    requires Linked(net, t) && NewEntry(net, t, b).Ok?
    ensures NewEntry(net, t, b).value.record.hash == net.HashOf(b)
  {
    hide Execute, BlocksOf, TargetAfter;
  }

  /** What is accepted carries its proof of work. */
  lemma NewEntryIsMined(net: Network, t: Tree, b: Block)
    requires Linked(net, t) && NewEntry(net, t, b).Ok?
    ensures net.hashValue(net.blockHash(b.header)) <= b.header.target
  {
    hide ExecuteBody, BlocksOf, TargetAfter;
  }

  function WithEntry(t: Tree, e: Entry): Tree
    requires t.tip in t.entries
  {
    Tree(t.entries[e.record.hash := e],
         if e.record.work > t.Tip().record.work then e.record.hash else t.tip)
  }

  /** Adds a block, moving the tip only if its branch has strictly more work. */
  ghost function Insert(net: Network, t: Tree, b: Block): Result<Grown>
    requires Linked(net, t)
  {
    match NewEntry(net, t, b)
    case Err(fault) => Err(fault)
    case Ok(e) =>
      NewEntryIsLinked(net, t, b);
      var t' := WithEntry(t, e);
      if t'.tip == t.tip then
        Ok(Grown(t', Update(e.record.hash, t'.tip, false, false, None, [], [])))
      else
        var s := SwitchBetween(net, t', t.tip, e.record.hash);
        Ok(Grown(t', Update(e.record.hash, t'.tip, true, s.disconnected != [], Some(s.ancestor),
                            s.disconnected, s.connected)))
  }

  lemma NewEntryIsLinked(net: Network, t: Tree, b: Block)
    requires Linked(net, t) && NewEntry(net, t, b).Ok?
    ensures var t' := WithEntry(t, NewEntry(net, t, b).value);
            Linked(net, t') && Extends(t, t')
  {
    hide TargetAfter, ExecuteBody, GenesisBlock, Mined, WorkForTarget;
    var e := NewEntry(net, t, b).value;
    var entries := t.entries[e.record.hash := e];
    assert EntryLinked(net, t.entries, b.header.previous);
    forall h | h in entries ensures EntryLinked(net, entries, h) {
      assert h in t.entries ==> EntryLinked(net, t.entries, h);
    }
  }

  lemma NewEntryHoldsItsBranch(net: Network, t: Tree, b: Block)
    requires ValidTree(net, t) && NewEntry(net, t, b).Ok?
    ensures var e := NewEntry(net, t, b).value;
            && RunBranch(net, BlocksOf(net, t, b.header.previous) + [b])
                 == Ok(BranchState(e.ledger, e.record.supply, e.record.work))
  {
    hide Execute, TargetAfter, GenesisBlock, HeaderEncodable, WorkForTarget, RunBranch;
    var p := b.header.previous;
    assert EntryHoldsItsBranch(net, t, p);
    RunBranchExtends(net, BlocksOf(net, t, p), b);
  }

  /** The new entry holds its branch, and so do all the ones before it. */
  lemma InsertKeepsValid(net: Network, t: Tree, b: Block)
    requires ValidTree(net, t) && NewEntry(net, t, b).Ok?
    ensures ValidTree(net, WithEntry(t, NewEntry(net, t, b).value))
  {
    var e := NewEntry(net, t, b).value;
    var t' := WithEntry(t, e);
    assert e.record.hash == net.HashOf(b);
    hide NewEntry, RunBranch, BlocksOf;
    NewEntryIsLinked(net, t, b);
    forall h | h in t'.entries ensures EntryHoldsItsBranch(net, t', h) {
      if h in t.entries {
        assert EntryHoldsItsBranch(net, t, h);
        PathsAreStable(net, t, t', h);
      } else {
        NewBlocks(net, t, b);
        NewEntryHoldsItsBranch(net, t, b);
      }
    }
  }

  /** The branch of the new entry is its parent's branch and the block. */
  lemma NewBlocks(net: Network, t: Tree, b: Block)
    requires Linked(net, t) && NewEntry(net, t, b).Ok?
    ensures var t', h := WithEntry(t, NewEntry(net, t, b).value), net.HashOf(b);
            && Linked(net, t') && h in t'.entries && b.header.previous in t.entries
            && BlocksOf(net, t', h) == BlocksOf(net, t, b.header.previous) + [b]
            && Path(net, t', h) == Path(net, t, b.header.previous) + [h]
  {
    hide Execute, TargetAfter, GenesisBlock, HeaderEncodable, WorkForTarget;
    var t' := WithEntry(t, NewEntry(net, t, b).value);
    NewEntryIsLinked(net, t, b);
    assert EntryLinked(net, t'.entries, net.HashOf(b));
    PathsAreStable(net, t, t', b.header.previous);
  }

  lemma GenesisTreeIsValid(net: Network)
    ensures ValidTree(net, GenesisTree(net))
  {
    var t := GenesisTree(net);
    var g := GenesisHash(net);
    assert EntryLinked(net, t.entries, g);
    assert BlocksOf(net, t, g) == [GenesisBlock(net)];
  }

  /** A block is accepted exactly when it is new, its parent is known, and its branch one block
      longer is valid: nothing else in the tree matters. */
  lemma AcceptedIffBranchValid(net: Network, t: Tree, b: Block)
    requires ValidTree(net, t)
    ensures Insert(net, t, b).Ok? <==>
              && net.HashOf(b) !in t.entries && b.header.previous in t.entries
              && ValidBranch(net, BlocksOf(net, t, b.header.previous) + [b])
  {
    hide TargetAfter, ExecuteBody, GenesisBlock, WorkForTarget, Mined, BodyEncodable;
    var p := b.header.previous;
    if p in t.entries {
      assert EntryHoldsItsBranch(net, t, p);
      var blocks := BlocksOf(net, t, p);
      RunBranchExtends(net, blocks, b);
      HeightIsNeverExhausted(net, blocks);
    }
  }
}
