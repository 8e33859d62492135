/** Persistence as a value: an acceptance-ordered log of blocks and the tables derived from it.

    A database is one value, replaced as a whole when a transaction commits. */
module Persistence {
  import opened Types
  import opened State
  import opened Emission
  import opened Consensus
  import opened Branches
  import opened BlockTree
  import opened ChainRuns

  const SCHEMA_VERSION := 1

  /** One row of the block table with its transaction rows. */
  datatype BlockRow = BlockRow(
    hash: Hash,
    parent: Option<Hash>,
    height: int,
    work: int,
    supply: int,
    block: Block,
    txids: seq<Hash>)

  datatype Identity = Identity(schemaVersion: int, chainId: Text, genesis: Hash)

  datatype Database = Database(
    rows: seq<BlockRow>,           // in acceptance order
    canonical: map<int, Hash>,     // height to hash on the active chain
    accounts: map<Text, Account>,
    confirmed: map<Hash, Hash>,    // transaction to block on the active chain
    identity: Identity,
    tip: Hash,
    supply: int)

  function IdentityOf(net: Network): Identity {
    Identity(SCHEMA_VERSION, net.chainId, GenesisHash(net))
  }

  function TxidList(net: Network, txs: seq<Transaction>): seq<Hash> {
    seq<Hash>(|txs|, i requires 0 <= i < |txs| => net.txid(txs[i]))
  }

  function RowFor(net: Network, e: Entry): BlockRow {
    BlockRow(e.record.hash, e.record.parent, e.record.height, e.record.work, e.record.supply, e.block,
             TxidList(net, e.block.transactions))
  }

  function RecordOf(row: BlockRow): Record {
    Record(row.hash, row.parent, row.height, row.work, row.supply)
  }

  // ---------------------------------------------------------------------------------------------
  // Derived tables
  // ---------------------------------------------------------------------------------------------

  function HeightIndex(net: Network, blocks: seq<Block>): map<int, Hash> {
    map i | 0 <= i < |blocks| :: net.HashOf(blocks[i])
  }

  function TransactionIndex(net: Network, blocks: seq<Block>): map<Hash, Hash> {
    if blocks == [] then map[]
    else
      var b := blocks[|blocks| - 1];
      TransactionIndex(net, blocks[..|blocks| - 1])
      + map tx | tx in b.transactions :: net.txid(tx) := net.HashOf(b)
  }

  /** The database with every derived table rebuilt from the active branch. */
  ghost function Rederived(net: Network, db: Database, t: Tree): Database
    requires Linked(net, t)
  {
    var blocks := BlocksOf(net, t, t.tip);
    db.(canonical := HeightIndex(net, blocks), accounts := t.Tip().ledger.accounts,
        confirmed := TransactionIndex(net, blocks), tip := t.tip, supply := t.Tip().record.supply)
  }

  ghost predicate DerivedMatches(net: Network, db: Database, t: Tree)
    requires Linked(net, t)
  {
    var blocks := BlocksOf(net, t, t.tip);
    && db.tip == t.tip
    && db.supply == t.Tip().record.supply
    && db.canonical == HeightIndex(net, blocks)
    && db.accounts == t.Tip().ledger.accounts && db.confirmed.Keys == t.Tip().ledger.confirmed
    && db.confirmed == TransactionIndex(net, blocks)
  }

  /** The index lists exactly the confirmed identifiers of the branch. */
  lemma {:induction false} IndexKeys(net: Network, blocks: seq<Block>)
    ensures TransactionIndex(net, blocks).Keys == Txids(net, TransactionsOf(blocks))
  {
    if blocks != [] {
      var front, b := blocks[..|blocks| - 1], blocks[|blocks| - 1];
      IndexKeys(net, front);
      TxidsConcat(net, TransactionsOf(front), b.transactions);
    } else {
      assert TransactionIndex(net, blocks).Keys == {} == Txids(net, []);
    }
  }

  lemma RederivedMatches(net: Network, db: Database, t: Tree)
    requires ValidTree(net, t)
    ensures DerivedMatches(net, Rederived(net, db, t), t)
    ensures forall db' :: DerivedMatches(net, db', t) ==> Rederived(net, db', t) == db'
  {
    hide RunBranch, TransactionIndex, HeightIndex;
    assert EntryHoldsItsBranch(net, t, t.tip);
    BranchCounts(net, BlocksOf(net, t, t.tip));
    IndexKeys(net, BlocksOf(net, t, t.tip));
  }

  // ---------------------------------------------------------------------------------------------
  // Replay, load and reindex
  // ---------------------------------------------------------------------------------------------

  /** A row's own bytes are consistent: hash, transaction identifiers and body root. */
  predicate RowDecodes(net: Network, row: BlockRow) {
    && net.HashOf(row.block) == row.hash
    && row.txids == TxidList(net, row.block.transactions)
    && net.transactionsRoot(row.block.reward, row.block.transactions) == row.block.header.transactionsRoot
  }

  /** Replays one more row onto a tree. */
  ghost function ReplayRow(net: Network, t: Tree, row: BlockRow, checkRecords: bool): Result<Tree>
    requires Linked(net, t)
  {
    if !RowDecodes(net, row) then Err(IntegrityError)
    else if row.parent != Some(row.block.header.previous) then Err(IntegrityError)
    else if row.height != row.block.header.height then Err(IntegrityError)
    else
      match NewEntry(net, t, row.block)
      case Err(_) => Err(IntegrityError)
      case Ok(e) =>
        if checkRecords && RecordOf(row) != e.record then Err(IntegrityError)
        else Ok(WithEntry(t, e))
  }

  ghost function ReplayGenesis(net: Network, row: BlockRow, checkRecords: bool): Result<Tree> {
    if !RowDecodes(net, row) || row.parent != None || row.height != row.block.header.height
       || row.block != GenesisBlock(net)
       || (checkRecords && RecordOf(row) != GenesisEntry(net).record)
    then Err(IntegrityError)
    else Ok(GenesisTree(net))
  }

  /** Rebuilds the tree by adding the logged blocks again, in acceptance order. */
  ghost function Replay(net: Network, rows: seq<BlockRow>, checkRecords: bool): (r: Result<Tree>)
    ensures r.Ok? ==> ValidTree(net, r.value)
  {
    if rows == [] then Err(IntegrityError)
    else if |rows| == 1 then GenesisTreeIsValid(net); ReplayGenesis(net, rows[0], checkRecords)
    else
      match Replay(net, rows[..|rows| - 1], checkRecords)
      case Err(fault) => Err(fault)
      case Ok(t) =>
        var row := rows[|rows| - 1];
        if NewEntry(net, t, row.block).Ok? then
          InsertKeepsValid(net, t, row.block);
          ReplayRow(net, t, row, checkRecords)
        else ReplayRow(net, t, row, checkRecords)
  }

  /** Opens a database: identity, replay with record checks, then the derived tables. */
  ghost function Load(net: Network, db: Database): (r: Result<Tree>)
    ensures r.Ok? ==> ValidTree(net, r.value)
  {
    if db.identity != IdentityOf(net) then Err(IntegrityError)
    else
      match Replay(net, db.rows, true)
      case Err(fault) => Err(fault)
      case Ok(t) => if DerivedMatches(net, db, t) then Ok(t) else Err(IntegrityError)
  }

  /** What a database that loads holds beside the log, said of the branch it makes active: the height index
      is the branch, the accounts are those of executing it, the supply is what the schedule has issued,
      and every transaction on it is indexed under its block, and nothing else is. */
  lemma LoadedTables(net: Network, db: Database)
    requires Load(net, db).Ok?
    ensures var t := Load(net, db).value;
            var blocks := BlocksOf(net, t, t.tip);
            && ValidBranch(net, blocks) && db.tip == t.tip == net.HashOf(blocks[|blocks| - 1])
            && db.accounts == RunBranch(net, blocks).value.ledger.accounts
            && db.supply == Issued(|blocks| - 1) == Total(db.accounts)
            && (forall i :: i in db.canonical <==> 0 <= i < |blocks|)
            && (forall i :: 0 <= i < |blocks| ==> db.canonical[i] == net.HashOf(blocks[i]) == Path(net, t, t.tip)[i])
            && (forall id :: id in db.confirmed <==> id in Txids(net, TransactionsOf(blocks)))
            && (forall i, tx :: 0 <= i < |blocks| && tx in blocks[i].transactions ==>
                  net.txid(tx) in db.confirmed && db.confirmed[net.txid(tx)] == net.HashOf(blocks[i]))
  {
    hide Replay, RunBranch, BlocksOf, Path, TransactionIndex;
    var t := Load(net, db).value;
    var blocks := BlocksOf(net, t, t.tip);
    assert EntryHoldsItsBranch(net, t, t.tip) && EntryLinked(net, t.entries, t.tip);
    BranchConserves(net, blocks);
    IndexKeys(net, blocks);
    forall i | 0 <= i < |blocks|
      ensures net.HashOf(blocks[i]) == Path(net, t, t.tip)[i]
    {
      PathPrefix(net, t, t.tip, i);
      assert EntryLinked(net, t.entries, Path(net, t, t.tip)[i]);
    }
    forall i, tx | 0 <= i < |blocks| && tx in blocks[i].transactions
      ensures net.txid(tx) in db.confirmed && db.confirmed[net.txid(tx)] == net.HashOf(blocks[i])
    {
      IndexedUnderItsBlock(net, blocks, i, tx);
    }
  }

  /** And what the log of such a database holds: the rows are the entries, each with the work and the supply
      of executing its own branch and the identifiers of its transactions, in order. */
  lemma LoadedRows(net: Network, db: Database, i: nat)
    requires Load(net, db).Ok? && i < |db.rows|
    ensures var t, row := Load(net, db).value, db.rows[i];
            && row.hash in t.entries && row.hash == net.HashOf(row.block)
            && var blocks := BlocksOf(net, t, row.hash);
               && ValidBranch(net, blocks) && row.block == blocks[|blocks| - 1] && row.height == |blocks| - 1
               && row.parent == (if row.height == 0 then None else Some(net.HashOf(blocks[|blocks| - 2])))
               && row.work == RunBranch(net, blocks).value.work && row.supply == Issued(row.height)
               && |row.txids| == |row.block.transactions|
               && forall k :: 0 <= k < |row.txids| ==> row.txids[k] == net.txid(row.block.transactions[k])
  {
    hide Load, RunBranch, BlocksOf, HasRow, Rederived;
    LoadableIsExact(net, db);
    var t, h := Load(net, db).value, db.rows[i].hash;
    var blocks := BlocksOf(net, t, h);
    assert EntryHoldsItsBranch(net, t, h) && EntryLinked(net, t.entries, h);
    BranchConserves(net, blocks);
    ParentOnBranch(net, t, h);
  }

  lemma ParentOnBranch(net: Network, t: Tree, h: Hash)
    requires ValidTree(net, t) && h in t.entries
    ensures var blocks := BlocksOf(net, t, h);
            t.entries[h].record.parent == if |blocks| == 1 then None else Some(net.HashOf(blocks[|blocks| - 2]))
  {
    hide RunBranch, BlocksOf, TargetsFollow, GenesisBlock;
    var blocks := BlocksOf(net, t, h);
    assert EntryHoldsItsBranch(net, t, h) && EntryLinked(net, t.entries, h);
    BranchHeaders(net, blocks);
    if t.entries[h].record.parent.Some? {
      assert EntryLinked(net, t.entries, t.entries[h].record.parent.value);
    }
  }

  /** No identifier occurs twice on a branch, so each is indexed under the block that holds it. */
  lemma {:induction false} IndexedUnderItsBlock(net: Network, blocks: seq<Block>, i: nat, tx: Transaction)
    requires ValidBranch(net, blocks) && i < |blocks| && tx in blocks[i].transactions
    ensures net.txid(tx) in TransactionIndex(net, blocks)
    ensures TransactionIndex(net, blocks)[net.txid(tx)] == net.HashOf(blocks[i])
    decreases |blocks|
  {
    hide RunBranch;
    var n := |blocks| - 1;
    if i < n {
      PrefixIsValid(net, blocks, n);
      IndexedUnderItsBlock(net, blocks[..n], i, tx);
      assert blocks[..n][i] == blocks[i];
      NotAgainInLast(net, blocks, net.txid(tx));
    }
  }

  lemma NotAgainInLast(net: Network, blocks: seq<Block>, id: Hash)
    requires ValidBranch(net, blocks) && |blocks| > 1
    requires id in TransactionIndex(net, blocks[..|blocks| - 1])
    ensures forall tx :: tx in blocks[|blocks| - 1].transactions ==> net.txid(tx) != id
  {
    hide RunBranch, TransactionIndex;
    var front, last := blocks[..|blocks| - 1], blocks[|blocks| - 1].transactions;
    IndexKeys(net, front);
    BranchIsFresh(net, blocks);
    var all := TransactionsOf(front);
    assert TransactionsOf(blocks) == all + last;
    var j :| 0 <= j < |all| && net.txid(all[j]) == id;
    forall k | 0 <= k < |last|
      ensures net.txid(last[k]) != id
    {
      assert (all + last)[j] == all[j] && (all + last)[|all| + k] == last[k];
    }
  }

  /** Rewrites a row's derived columns from the tree. */
  function Refreshed(t: Tree, row: BlockRow): BlockRow {
    if row.hash in t.entries then
      row.(work := t.entries[row.hash].record.work, supply := t.entries[row.hash].record.supply)
    else row
  }

  function RefreshAll(t: Tree, rows: seq<BlockRow>): seq<BlockRow> {
    seq(|rows|, i requires 0 <= i < |rows| => Refreshed(t, rows[i]))
  }

  /** What reindexing writes once the raw log has replayed as `t`. */
  ghost function Rebuilt(net: Network, db: Database, t: Tree): Database
    requires Linked(net, t)
  {
    Rederived(net, db.(rows := RefreshAll(t, db.rows)), t)
  }

  ghost function Reindexed(net: Network, db: Database): Result<Database> {
    match Replay(net, db.rows, false)
    case Err(fault) => Err(fault)
    case Ok(t) =>
      var rebuilt := Rebuilt(net, db, t);
      match Load(net, rebuilt)
      case Err(fault) => Err(fault)
      case Ok(_) => Ok(rebuilt)
  }

  // ---------------------------------------------------------------------------------------------
  // Writing
  // ---------------------------------------------------------------------------------------------

  /** The tip the database must still hold when an update is written. */
  function ExpectedPreviousTip(u: Update): Result<Hash> {
    if !u.becameActive then Ok(u.activeTip)
    else if |u.disconnected| > 0 then Ok(u.disconnected[0])
    else if u.commonAncestor.None? then Err(IntegrityError)
    else Ok(u.commonAncestor.value)
  }

  predicate HasRow(rows: seq<BlockRow>, hash: Hash) {
    exists i :: 0 <= i < |rows| && rows[i].hash == hash
  }

  /** Writes one validated update: one log row, and the derived tables if the tip moved. */
  ghost function Persisted(net: Network, db: Database, t: Tree, u: Update): Result<Database>
    requires Linked(net, t)
  {
    if u.added !in t.entries || t.tip != u.activeTip then Err(IntegrityError)
    else if HasRow(db.rows, u.added) then
      if RowFor(net, t.entries[u.added]) in db.rows then Ok(db) else Err(IntegrityError)
    else if ExpectedPreviousTip(u) != Ok(db.tip) then Err(IntegrityError)
    else if !(0 < t.entries[u.added].record.work < WORK_LIMIT) then Err(IntegrityError)
    else
      var logged := db.(rows := db.rows + [RowFor(net, t.entries[u.added])]);
      if u.becameActive then Ok(Rederived(net, logged, t)) else Ok(logged)
  }

  ghost function InitialDatabase(net: Network): Database {
    GenesisTreeIsValid(net);
    Rederived(net, Database([RowFor(net, GenesisEntry(net))], map[], map[], map[], IdentityOf(net),
                            GenesisHash(net), 0),
              GenesisTree(net))
  }

  // ---------------------------------------------------------------------------------------------
  // What a loadable database is
  // ---------------------------------------------------------------------------------------------

  /** The log lists each entry of the tree once, each row being exactly that entry's row. */
  ghost predicate LogIsExact(net: Network, rows: seq<BlockRow>, t: Tree) {
    && (forall i :: 0 <= i < |rows| ==>
          rows[i].hash in t.entries && rows[i] == RowFor(net, t.entries[rows[i].hash]))
    && (forall h :: h in t.entries ==> HasRow(rows, h))
    && (forall i, j :: 0 <= i < j < |rows| ==> rows[i].hash != rows[j].hash)
  }

  lemma GenesisRowIsExact(net: Network, row: BlockRow)
    requires ReplayGenesis(net, row, true).Ok?
    ensures row == RowFor(net, GenesisEntry(net)) && row.hash == GenesisHash(net)
  {
  }

  lemma ReplayedRowIsExact(net: Network, t: Tree, row: BlockRow)
    requires ValidTree(net, t) && ReplayRow(net, t, row, true).Ok?
    ensures var e := NewEntry(net, t, row.block).value;
            row == RowFor(net, e) && e.record.hash == row.hash && row.hash !in t.entries
  {
    hide Execute, BlocksOf, Linked;
  }

  lemma LogGrowsExactly(net: Network, rows: seq<BlockRow>, t: Tree, e: Entry)
    requires t.tip in t.entries && LogIsExact(net, rows, t) && e.record.hash !in t.entries
    ensures LogIsExact(net, rows + [RowFor(net, e)], WithEntry(t, e))
  {
    var rows', t' := rows + [RowFor(net, e)], WithEntry(t, e);
    assert rows'[|rows|].hash == e.record.hash;
    forall h | h in t'.entries ensures HasRow(rows', h) {
      if h != e.record.hash {
        assert HasRow(rows, h);
        var i :| 0 <= i < |rows| && rows[i].hash == h;
        assert rows'[i].hash == h;
      }
    }
  }

  /** Replay with record checks accepts only the exact log of the tree it builds. */
  lemma {:induction false} ReplayedLogIsExact(net: Network, rows: seq<BlockRow>)
    requires Replay(net, rows, true).Ok?
    ensures LogIsExact(net, rows, Replay(net, rows, true).value)
  {
    hide LogIsExact, NewEntry, ReplayRow, ReplayGenesis;
    if |rows| == 1 {
      OnlyGenesisIsExact(net, rows);
    } else {
      hide Replay;
      var front, row := rows[..|rows| - 1], rows[|rows| - 1];
      var t, e := ReplayedLast(net, rows);
      ReplayedLogIsExact(net, front);
      LogGrowsExactly(net, front, t, e);
      assert rows == front + [row];
    }
  }

  lemma OnlyGenesisIsExact(net: Network, rows: seq<BlockRow>)
    requires |rows| == 1 && Replay(net, rows, true).Ok?
    ensures LogIsExact(net, rows, Replay(net, rows, true).value)
  {
    hide RowDecodes, GenesisBlock;
    GenesisRowIsExact(net, rows[0]);
    assert rows[0].hash == GenesisHash(net);
    assert HasRow(rows, GenesisHash(net));
  }

  lemma ReplayedLast(net: Network, rows: seq<BlockRow>) returns (t: Tree, e: Entry)
    requires |rows| > 1 && Replay(net, rows, true).Ok?
    ensures var front, row := rows[..|rows| - 1], rows[|rows| - 1];
            && Replay(net, front, true) == Ok(t) && row == RowFor(net, e)
            && e.record.hash !in t.entries && Replay(net, rows, true) == Ok(WithEntry(t, e))
  {
    hide NewEntry, RowDecodes;
    t := Replay(net, rows[..|rows| - 1], true).value;
    e := NewEntry(net, t, rows[|rows| - 1].block).value;
    ReplayedRowIsExact(net, t, rows[|rows| - 1]);
  }

  /** Validation on opening is complete: nothing in a loadable database can differ from what the
      replayed tree dictates, so every corrupted derived field is detected. */
  lemma LoadableIsExact(net: Network, db: Database)
    requires Load(net, db).Ok?
    ensures var t := Load(net, db).value;
            LogIsExact(net, db.rows, t) && db == Rederived(net, db, t) && db.identity == IdentityOf(net)
  {
    ReplayedLogIsExact(net, db.rows);
    RederivedMatches(net, db, Load(net, db).value);
  }

  lemma InitialDatabaseLoads(net: Network)
    ensures Load(net, InitialDatabase(net)) == Ok(GenesisTree(net))
  {
    var db := InitialDatabase(net);
    GenesisTreeIsValid(net);
    var bare := Database([RowFor(net, GenesisEntry(net))], map[], map[], map[], IdentityOf(net), GenesisHash(net), 0);
    RederivedMatches(net, bare, GenesisTree(net));
  }

  // ---------------------------------------------------------------------------------------------
  // Writing an update keeps the database loadable, as the new tree
  // ---------------------------------------------------------------------------------------------

  lemma NewRowReplays(net: Network, t: Tree, b: Block)
    requires ValidTree(net, t) && NewEntry(net, t, b).Ok?
    ensures var e := NewEntry(net, t, b).value;
            ReplayRow(net, t, RowFor(net, e), true) == Ok(WithEntry(t, e))
  {
    hide ExecuteBody, BlocksOf, TargetAfter, WorkForTarget, Mined;
  }

  lemma ReplayGrows(net: Network, rows: seq<BlockRow>, t: Tree, row: BlockRow, check: bool)
    requires Replay(net, rows, check) == Ok(t)
    ensures Replay(net, rows + [row], check) == ReplayRow(net, t, row, check)
  {
    hide ReplayRow, ReplayGenesis;
    assert (rows + [row])[..|rows|] == rows;
  }

  /** If the database loads as the node's tree, then writing what adding a block did succeeds and
      leaves a database that loads as the new tree. */
  lemma PersistingRefines(net: Network, db: Database, t: Tree, b: Block)
    requires Load(net, db) == Ok(t) && Insert(net, t, b).Ok?
    ensures var g := Insert(net, t, b).value;
            && Linked(net, g.tree)
            && Persisted(net, db, g.tree, g.update).Ok?
            && Load(net, Persisted(net, db, g.tree, g.update).value) == Ok(g.tree)
  {
    hide Replay, ReplayRow, NewEntry, DerivedMatches, LogIsExact, Rederived;
    var g := Insert(net, t, b).value;
    var e := NewEntry(net, t, b).value;
    var row := RowFor(net, e);
    var logged := db.(rows := db.rows + [row]);
    assert Replay(net, db.rows, true) == Ok(t);
    InsertKeepsValid(net, t, b);
    NewRowReplays(net, t, b);
    ReplayGrows(net, db.rows, t, row, true);
    NewHashIsNotLogged(net, db, t, b);
    UpdateNamesPreviousTip(net, t, b);
    NewWorkFits(net, t, b);
    if g.update.becameActive {
      RederivedMatches(net, logged, g.tree);
      RederivedKeepsLog(net, logged, g.tree);
    } else {
      SideBranchKeepsDerived(net, db, logged, t, b);
    }
  }

  lemma RederivedKeepsLog(net: Network, db: Database, t: Tree)
    requires Linked(net, t)
    ensures Rederived(net, db, t).rows == db.rows && Rederived(net, db, t).identity == db.identity
  {
  }

  lemma NewHashIsNotLogged(net: Network, db: Database, t: Tree, b: Block)
    requires Load(net, db) == Ok(t) && NewEntry(net, t, b).Ok?
    ensures !HasRow(db.rows, net.HashOf(b)) && NewEntry(net, t, b).value.record.hash == net.HashOf(b)
    ensures db.tip == t.tip
  {
    hide Execute, BlocksOf, Replay;
    LoadableIsExact(net, db);
  }

  lemma NewWorkFits(net: Network, t: Tree, b: Block)
    requires ValidTree(net, t) && NewEntry(net, t, b).Ok?
    ensures 0 < NewEntry(net, t, b).value.record.work < WORK_LIMIT
  {
    assert b.header.previous in t.entries;
    hide NewEntry, RunBranch;
    NewEntryHoldsItsBranch(net, t, b);
    WorkFitsFortyBytes(net, BlocksOf(net, t, b.header.previous) + [b]);
  }

  /** A side branch leaves the active chain, and so the derived tables, as they were. */
  lemma SideBranchKeepsDerived(net: Network, db: Database, logged: Database, t: Tree, b: Block)
    requires ValidTree(net, t) && DerivedMatches(net, db, t) && logged == db.(rows := logged.rows)
    requires NewEntry(net, t, b).Ok? && WithEntry(t, NewEntry(net, t, b).value).tip == t.tip
    ensures var t' := WithEntry(t, NewEntry(net, t, b).value);
            Linked(net, t') && DerivedMatches(net, logged, t')
  {
    hide NewEntry;
    NewEntryIsLinked(net, t, b);
    PathsAreStable(net, t, WithEntry(t, NewEntry(net, t, b).value), t.tip);
  }
}
