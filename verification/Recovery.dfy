/** Crash safety and reindexing: what survives any interleaving of writes, failures and restarts. */
module Recovery {
  import opened Types
  import opened Consensus
  import opened BlockTree
  import opened ChainRuns
  import opened Persistence

  // ---------------------------------------------------------------------------------------------
  // Reindex
  // ---------------------------------------------------------------------------------------------

  /** The columns reindexing trusts. */
  predicate SameRawRow(a: BlockRow, b: BlockRow) {
    a.hash == b.hash && a.parent == b.parent && a.height == b.height && a.block == b.block && a.txids == b.txids
  }

  predicate SameRaw(a: seq<BlockRow>, b: seq<BlockRow>) {
    |a| == |b| && forall i :: 0 <= i < |a| ==> SameRawRow(a[i], b[i])
  }

  /** Replay without record checks sees only the raw columns. */
  lemma {:induction false} ReplayIgnoresDerivedColumns(net: Network, rows: seq<BlockRow>, rows0: seq<BlockRow>)
    requires SameRaw(rows, rows0) && Replay(net, rows0, true).Ok?
    ensures Replay(net, rows, false) == Replay(net, rows0, true)
  {
    hide Execute, BlocksOf, Linked, WithEntry, GenesisBlock;
    if |rows| > 1 {
      ReplayIgnoresDerivedColumns(net, rows[..|rows| - 1], rows0[..|rows| - 1]);
    }
  }

  /** Rows refreshed from a tree that contains the replayed one pass the record checks. */
  lemma {:induction false} RefreshedRowsReplay(net: Network, rows: seq<BlockRow>, t: Tree, last: Tree)
    requires Replay(net, rows, false) == Ok(t) && Extends(t, last)
    ensures Replay(net, RefreshAll(last, rows), true) == Ok(t)
  {
    hide Execute, BlocksOf, ReplayRow, ReplayGenesis;
    var all := RefreshAll(last, rows);
    if |rows| == 1 {
      RefreshedGenesisReplays(net, rows[0], last);
    } else {
      var front, row := rows[..|rows| - 1], rows[|rows| - 1];
      var t0 := Replay(net, front, false).value;
      assert ReplayRow(net, t0, row, false) == Ok(t);
      RefreshedRowReplays(net, t0, row, last);
      GrownFrom(net, t0, row, t, last);
      RefreshedRowsReplay(net, front, t0, last);
      assert all[..|all| - 1] == RefreshAll(last, front);
    }
  }

  lemma RefreshedGenesisReplays(net: Network, row: BlockRow, last: Tree)
    requires ReplayGenesis(net, row, false).Ok? && Extends(ReplayGenesis(net, row, false).value, last)
    ensures ReplayGenesis(net, Refreshed(last, row), true) == ReplayGenesis(net, row, false)
  {
    assert GenesisHash(net) in GenesisTree(net).entries;
  }

  lemma RefreshedRowReplays(net: Network, t: Tree, row: BlockRow, last: Tree)
    requires ValidTree(net, t) && ReplayRow(net, t, row, false).Ok?
    requires Extends(ReplayRow(net, t, row, false).value, last)
    ensures ReplayRow(net, t, Refreshed(last, row), true) == ReplayRow(net, t, row, false)
    ensures NewEntry(net, t, row.block).Ok?
  {
    hide Execute, BlocksOf;
    var e := NewEntry(net, t, row.block).value;
    assert e.record.hash in WithEntry(t, e).entries;
  }

  lemma GrownFrom(net: Network, t0: Tree, row: BlockRow, t: Tree, last: Tree)
    requires ValidTree(net, t0) && ReplayRow(net, t0, row, false) == Ok(t) && Extends(t, last)
    ensures Extends(t0, last)
  {
    hide NewEntry;
    NewEntryIsLinked(net, t0, row.block);
  }

  /** Reindexing succeeds exactly when the raw log replays on this network, and what it writes
      loads as the replayed tree: its own final validation never fails. */
  lemma ReindexSucceedsIffLogReplays(net: Network, db: Database)
    ensures Reindexed(net, db).Ok? <==> db.identity == IdentityOf(net) && Replay(net, db.rows, false).Ok?
    ensures Reindexed(net, db).Ok? ==>
              Load(net, Reindexed(net, db).value) == Replay(net, db.rows, false)
  {
    hide Replay, DerivedMatches, Rederived;
    if Replay(net, db.rows, false).Ok? {
      var t := Replay(net, db.rows, false).value;
      var refreshed := db.(rows := RefreshAll(t, db.rows));
      RefreshedRowsReplay(net, db.rows, t, t);
      RederivedMatches(net, refreshed, t);
      RederivedKeepsLog(net, refreshed, t);
    }
  }

  /** From arbitrary contents of every derived table and column, reindexing restores the database
      that loads. Applied to that database itself, it changes nothing. */
  lemma ReindexRestores(net: Network, db: Database, good: Database)
    requires Load(net, good).Ok? && db.identity == good.identity && SameRaw(db.rows, good.rows)
    ensures Reindexed(net, db) == Ok(good)
  {
    hide Replay, DerivedMatches, Rederived, LogIsExact, Load;
    LoadReplays(net, good);
    ReplayIgnoresDerivedColumns(net, db.rows, good.rows);
    ReindexSucceedsIffLogReplays(net, db);
    var restored := Reindexed(net, db).value;
    LoadableIsExact(net, good);
    LoadableIsExact(net, restored);
    var t := Load(net, good).value;
    assert restored.rows == RefreshAll(t, db.rows) by {
      RederivedKeepsLog(net, db.(rows := RefreshAll(t, db.rows)), t);
    }
    RefreshedIsExact(net, db.rows, good.rows, t);
    SameLogSameDatabase(net, restored, good, t);
  }

  lemma LoadReplays(net: Network, db: Database)
    requires Load(net, db).Ok?
    ensures Load(net, db) == Replay(net, db.rows, true) && db.identity == IdentityOf(net)
  {
    hide Replay;
  }

  lemma RefreshedIsExact(net: Network, rows: seq<BlockRow>, exact: seq<BlockRow>, t: Tree)
    requires SameRaw(rows, exact) && LogIsExact(net, exact, t)
    ensures RefreshAll(t, rows) == exact
  {
  }

  lemma SameLogSameDatabase(net: Network, a: Database, b: Database, t: Tree)
    requires Linked(net, t) && a == Rederived(net, a, t) && b == Rederived(net, b, t)
    requires a.rows == b.rows && a.identity == b.identity
    ensures a == b
  {
  }

  // ---------------------------------------------------------------------------------------------
  // Crashes
  // ---------------------------------------------------------------------------------------------

  /** How a write ends. */
  datatype WriteOutcome = Committed | RolledBack | CrashedBeforeCommit | CrashedAfterCommit

  datatype Event = Submit(block: Block, outcome: WriteOutcome) | Crash | Reopen

  /** A persistent node: its disk, and its memory while the process is alive. */
  datatype Machine = Machine(disk: Database, memory: Option<Tree>)

  ghost predicate MemoryIsValid(net: Network, m: Machine) {
    m.memory.Some? ==> ValidTree(net, m.memory.value)
  }

  /** One event: a block is validated on a copy, written, and only then becomes the node's tree. */
  ghost function Step(net: Network, m: Machine, e: Event): (m': Machine)
    requires MemoryIsValid(net, m)
    ensures MemoryIsValid(net, m')
  {
    match e
    case Crash => m.(memory := None)
    case Reopen =>
      (match Load(net, m.disk)
       case Ok(t) => m.(memory := Some(t))
       case Err(_) => m.(memory := None))
    case Submit(b, outcome) =>
      if m.memory.None? then m
      else
        match Insert(net, m.memory.value, b)
        case Err(_) => m
        case Ok(g) =>
          InsertKeepsValid(net, m.memory.value, b);
          assert Linked(net, g.tree);
          match Persisted(net, m.disk, g.tree, g.update)
          case Err(_) => m
          case Ok(disk) =>
            match outcome
            case Committed => Machine(disk, Some(g.tree))
            case RolledBack => m
            case CrashedBeforeCommit => m.(memory := None)
            case CrashedAfterCommit => Machine(disk, None)
  }

  ghost function Start(net: Network): (m: Machine)
    ensures MemoryIsValid(net, m)
  {
    GenesisTreeIsValid(net);
    Machine(InitialDatabase(net), Some(GenesisTree(net)))
  }

  ghost function Exec(net: Network, events: seq<Event>): (m: Machine)
    ensures MemoryIsValid(net, m)
  {
    if events == [] then Start(net)
    else Step(net, Exec(net, events[..|events| - 1]), events[|events| - 1])
  }

  /** The submitted blocks whose write, if any, reached the disk. */
  ghost function Durable(net: Network, events: seq<Event>): seq<Block> {
    if events == [] then []
    else
      var before, e := events[..|events| - 1], events[|events| - 1];
      if e.Submit? && Exec(net, before).memory.Some? && (e.outcome.Committed? || e.outcome.CrashedAfterCommit?)
      then Durable(net, before) + [e.block]
      else Durable(net, before)
  }

  /** The disk always opens, as the tree of an in-memory node that never crashed and was offered
      exactly the durable blocks in the same order: same entries, same tip, ties included. A live
      node's memory is that tree. */
  ghost predicate InStep(net: Network, m: Machine, t: Tree) {
    Load(net, m.disk) == Ok(t) && (m.memory.Some? ==> m.memory.value == t)
  }

  lemma StepStaysInStep(net: Network, m: Machine, t: Tree, e: Event)
    requires ValidTree(net, t) && MemoryIsValid(net, m) && InStep(net, m, t)
    ensures InStep(net, Step(net, m, e),
                   if e.Submit? && m.memory.Some? && (e.outcome.Committed? || e.outcome.CrashedAfterCommit?)
                   then Attempt(net, t, e.block) else t)
  {
    hide Load, Persisted, SwitchBetween, NewEntry;
    if e.Submit? && m.memory.Some? && Insert(net, t, e.block).Ok? {
      PersistingRefines(net, m.disk, t, e.block);
    }
  }

  /** Crash safety over every interleaving of accepted and rejected blocks, failed writes, crashes
      before and after commit, and reopenings. */
  lemma {:induction false} EveryRunIsCrashSafe(net: Network, events: seq<Event>)
    ensures InStep(net, Exec(net, events), Run(net, Durable(net, events)))
  {
    hide Load, Insert, Step, Attempt;
    if events == [] {
      InitialDatabaseLoads(net);
    } else {
      var before, e := events[..|events| - 1], events[|events| - 1];
      EveryRunIsCrashSafe(net, before);
      StepStaysInStep(net, Exec(net, before), Run(net, Durable(net, before)), e);
    }
  }

  /** So reopening after any history gives the tree back. */
  lemma ReopeningRecovers(net: Network, events: seq<Event>)
    ensures Exec(net, events + [Reopen]).memory == Some(Run(net, Durable(net, events)))
  {
    hide Load, Run, Durable, Persisted, Insert;
    EveryRunIsCrashSafe(net, events);
    assert (events + [Reopen])[..|events|] == events;
  }

  /** And so does reindexing: whatever has overwritten the derived tables and columns after any history,
      it restores the very disk of that history, which opens as the tree over the durable blocks. */
  lemma ReindexingRecovers(net: Network, events: seq<Event>, damaged: Database)
    requires damaged.identity == Exec(net, events).disk.identity && SameRaw(damaged.rows, Exec(net, events).disk.rows)
    ensures Reindexed(net, damaged) == Ok(Exec(net, events).disk)
    ensures Load(net, Exec(net, events).disk) == Ok(Run(net, Durable(net, events)))
  {
    hide Load, Run, Durable, Exec, Reindexed, SameRaw;
    EveryRunIsCrashSafe(net, events);
    ReindexRestores(net, damaged, Exec(net, events).disk);
  }
}
