/** The chain database: transactional writes, replay on opening, and reindexing. */
module Storage {
  import opened Types
  import opened State
  import opened Consensus
  import opened Branches
  import opened BlockTree
  import C = Chain
  import opened Persistence

  class ChainStorage {
    const net: Network
    var db: Database

    constructor Initialize(net: Network)
      requires GenesisMined(net)
      ensures this.net == net && db == InitialDatabase(net)
    {
      var chain := new C.Chain(net);
      var genesis := chain.entries[chain.tip];
      var row := RowFor(net, genesis);
      var working := Database([row], map[], map[], map[], IdentityOf(net), chain.tip, 0);
      var derived := ReplaceDerivedState(net, working, chain);
      this.net := net;
      db := derived;
    }

    /** Deletes and rebuilds the derived tables. Each insertion is shown to use a key that is still
        free, so the primary keys of the tables are never violated. */
    static method ReplaceDerivedState(net: Network, working: Database, chain: C.Chain) returns (r: Database)
      requires chain.Valid() && chain.net == net
      ensures r == Rederived(net, working, chain.Tree())
    {
      hide ValidTree;
      var canonical: map<int, Hash> := map[];
      var confirmed: map<Hash, Hash> := map[];
      var blocks := chain.ActiveChain();
      ActiveBranchIsValid(net, chain.Tree());
      for i := 0 to |blocks|
        invariant canonical == HeightIndex(net, blocks[..i])
        invariant confirmed == TransactionIndex(net, blocks[..i])
      {
        HeightIsFree(net, blocks, i);
        var b := blocks[i];
        assert b.header.height !in canonical;
        canonical := canonical[b.header.height := net.HashOf(b)];
        for j := 0 to |b.transactions|
          invariant confirmed == PartialIndex(net, blocks, i, j)
        {
          IdentifierIsFree(net, blocks, i, j);
          var id := net.txid(b.transactions[j]);
          assert id !in confirmed;
          confirmed := confirmed[id := net.HashOf(b)];
        }
        IndexIsComplete(net, blocks, i);
      }
      assert blocks[..|blocks|] == blocks;
      assert chain.tip in chain.entries by { TipIsKnown(net, chain.Tree()); }
      var tip := chain.entries[chain.tip];
      r := working.(canonical := canonical, accounts := tip.ledger.accounts, confirmed := confirmed,
                    tip := chain.tip, supply := tip.record.supply);
    }

    /** Writes one validated update in a transaction. `commits` says whether the database engine
        carries the transaction through; if not, it is rolled back. */
    method PersistChainUpdate(chain: C.Chain, u: Update, commits: bool) returns (r: Result<bool>)
      requires chain.Valid() && chain.net == net
      modifies this
      ensures !commits ==> db == old(db) && r.Err? && r.fault in {IntegrityError, WriteFailed}
      ensures commits ==>
                match Persisted(net, old(db), chain.Tree(), u)
                case Ok(written) => r == Ok(!HasRow(old(db).rows, u.added)) && db == written
                case Err(fault) => r == Err(fault) && db == old(db)
    {
      if u.added !in chain.entries || chain.tip != u.activeTip {
        return Err(IntegrityError);
      }
      if !commits { return Err(WriteFailed); }
      var entry := chain.entries[u.added];
      var row := RowFor(net, entry);
      var known := FindRow(db.rows, u.added);
      if known {
        if row in db.rows { return Ok(false); }
        return Err(IntegrityError);
      }
      if ExpectedPreviousTip(u) != Ok(db.tip) { return Err(IntegrityError); }
      if !(0 < entry.record.work < WORK_LIMIT) { return Err(IntegrityError); }
      var working := db.(rows := db.rows + [row]);
      if u.becameActive {
        working := ReplaceDerivedState(net, working, chain);
      }
      db := working;
      r := Ok(true);
    }

    static method FindRow(rows: seq<BlockRow>, hash: Hash) returns (found: bool)
      ensures found == HasRow(rows, hash)
    {
      for i := 0 to |rows|
        invariant forall j :: 0 <= j < i ==> rows[j].hash != hash
      {
        if rows[i].hash == hash { return true; }
      }
      found := false;
    }

    /** Rebuilds the chain by adding every logged block again. */
    method ReplayBlocks(checkRecords: bool) returns (r: Result<C.Chain>)
      requires GenesisMined(net)
      ensures match Replay(net, db.rows, checkRecords)
              case Ok(t) => r.Ok? && fresh(r.value) && r.value.Valid() && r.value.net == net && r.value.Tree() == t
              case Err(fault) => r == Err(fault)
    {
      hide ReplayGenesis, ReplayRow, NewEntry, Linked, ValidTree, SwitchBetween, RowDecodes;
      var rows := db.rows;
      if |rows| == 0 { return Err(IntegrityError); }
      var chain := new C.Chain(net);
      FirstRowReplays(net, rows, checkRecords);
      var genesisOk := GenesisRowIsGood(chain, rows[0], checkRecords);
      if !genesisOk { return Err(IntegrityError); }
      for i := 1 to |rows|
        invariant fresh(chain) && chain.Valid() && chain.net == net
        invariant Replay(net, rows[..i], checkRecords) == Ok(chain.Tree())
      {
        NextRowReplays(net, rows, i, chain.Tree(), checkRecords);
        var added := ReplayOne(chain, rows[i], checkRecords);
        if added.Fail? { return Err(IntegrityError); }
      }
      assert rows[..|rows|] == rows;
      r := Ok(chain);
    }

    method GenesisRowIsGood(chain: C.Chain, row: BlockRow, checkRecords: bool) returns (ok: bool)
      requires chain.Tree() == GenesisTree(net)
      ensures ok == ReplayGenesis(net, row, checkRecords).Ok?
    {
      if !RowDecodes(net, row) { return false; }
      if row.parent != None { return false; }
      if row.height != row.block.header.height { return false; }
      if row.block != chain.entries[chain.tip].block { return false; }
      ok := !checkRecords || RecordOf(row) == chain.entries[chain.tip].record;
    }

    static method ReplayOne(chain: C.Chain, row: BlockRow, checkRecords: bool) returns (o: Outcome)
      requires chain.Valid()
      modifies chain
      ensures chain.Valid()
      ensures match ReplayRow(chain.net, old(chain.Tree()), row, checkRecords)
              case Ok(t) => o == Pass && chain.Tree() == t
              case Err(fault) => o == Fail(fault)
    {
      hide Execute, SwitchBetween;
      if !RowDecodes(chain.net, row) { return Fail(IntegrityError); }
      if row.parent != Some(row.block.header.previous) { return Fail(IntegrityError); }
      if row.height != row.block.header.height { return Fail(IntegrityError); }
      var update := chain.AddBlock(row.block);
      if update.Err? { return Fail(IntegrityError); }
      if checkRecords && RecordOf(row) != chain.entries[chain.net.HashOf(row.block)].record {
        return Fail(IntegrityError);
      }
      o := Pass;
    }

    method ValidateDerivedState(chain: C.Chain) returns (o: Outcome)
      requires chain.Valid() && chain.net == net
      ensures o == if DerivedMatches(net, db, chain.Tree()) then Pass else Fail(IntegrityError)
    {
      var tip := chain.entries[chain.tip];
      if db.tip != chain.tip { return Fail(IntegrityError); }
      if db.supply != tip.record.supply { return Fail(IntegrityError); }
      var blocks := chain.ActiveChain();
      if db.canonical != HeightIndex(net, blocks) { return Fail(IntegrityError); }
      if db.accounts != tip.ledger.accounts || db.confirmed.Keys != tip.ledger.confirmed {
        return Fail(IntegrityError);
      }
      if db.confirmed != TransactionIndex(net, blocks) { return Fail(IntegrityError); }
      o := Pass;
    }

    /** Opens the database. */
    method LoadChain() returns (r: Result<C.Chain>)
      requires GenesisMined(net)
      ensures match Load(net, db)
              case Ok(t) => r.Ok? && fresh(r.value) && r.value.Valid() && r.value.net == net && r.value.Tree() == t
              case Err(fault) => r == Err(fault)
    {
      hide Replay, DerivedMatches;
      if db.identity != IdentityOf(net) { return Err(IntegrityError); }
      var chain := ReplayBlocks(true);
      if chain.Err? { return chain; }
      var derived := ValidateDerivedState(chain.value);
      if derived.Fail? { return Err(derived.fault); }
      r := chain;
    }

    /** Rebuilds the work and supply columns and the derived tables in one transaction, then opens
        the result. */
    method Reindex(commits: bool) returns (o: Outcome)
      requires GenesisMined(net)
      modifies this
      ensures db == if commits && Replay(net, old(db).rows, false).Ok?
                    then Rebuilt(net, old(db), Replay(net, old(db).rows, false).value) else old(db)
      ensures !commits ==> o.Fail?
      ensures commits && Reindexed(net, old(db)).Ok? ==> o == Pass && db == Reindexed(net, old(db)).value
      ensures commits && Reindexed(net, old(db)).Err? ==> o == Fail(Reindexed(net, old(db)).fault)
    {
      hide Replay, Load;
      var chain := ReplayBlocks(false);
      if chain.Err? { return Fail(chain.fault); }
      if !commits { return Fail(WriteFailed); }
      ghost var t := chain.value.Tree();
      var rows := db.rows;
      for i := 0 to |rows|
        invariant |rows| == |db.rows|
        invariant forall k :: 0 <= k < |rows| ==> rows[k] == if k < i then Refreshed(t, db.rows[k]) else db.rows[k]
      {
        if rows[i].hash in chain.value.entries {
          var record := chain.value.entries[rows[i].hash].record;
          rows := rows[i := rows[i].(work := record.work, supply := record.supply)];
        }
      }
      assert rows == RefreshAll(t, db.rows);
      var derived := ReplaceDerivedState(net, db.(rows := rows), chain.value);
      db := derived;
      var reloaded := LoadChain();
      o := if reloaded.Ok? then Pass else Fail(reloaded.fault);
    }
  }

  // ---------------------------------------------------------------------------------------------
  // Insertions into the derived tables never repeat a key
  // ---------------------------------------------------------------------------------------------

  /** The transaction index after `i` blocks and `j` transactions of the next one. */
  function PartialIndex(net: Network, blocks: seq<Block>, i: nat, j: nat): map<Hash, Hash>
    requires i < |blocks| && j <= |blocks[i].transactions|
  {
    TransactionIndex(net, blocks[..i])
    + map tx | tx in blocks[i].transactions[..j] :: net.txid(tx) := net.HashOf(blocks[i])
  }

  lemma ActiveBranchIsValid(net: Network, t: Tree)
    requires ValidTree(net, t)
    ensures ValidBranch(net, BlocksOf(net, t, t.tip))
  {
    hide RunBranch;
    assert EntryHoldsItsBranch(net, t, t.tip);
  }

  lemma HeightIsFree(net: Network, blocks: seq<Block>, i: nat)
    requires ValidBranch(net, blocks) && i < |blocks|
    ensures blocks[i].header.height == i && i !in HeightIndex(net, blocks[..i])
    ensures HeightIndex(net, blocks[..i + 1]) == HeightIndex(net, blocks[..i])[i := net.HashOf(blocks[i])]
    ensures TransactionIndex(net, blocks[..i]) == PartialIndex(net, blocks, i, 0)
  {
    hide RunBranch, TransactionIndex, TargetsFollow;
    BranchHeaders(net, blocks);
  }

  lemma IndexIsComplete(net: Network, blocks: seq<Block>, i: nat)
    requires i < |blocks|
    ensures PartialIndex(net, blocks, i, |blocks[i].transactions|) == TransactionIndex(net, blocks[..i + 1])
  {
    assert blocks[..i + 1][..i] == blocks[..i];
    assert blocks[i].transactions[..|blocks[i].transactions|] == blocks[i].transactions;
  }

  /** No transaction identifier occurs twice on a branch, so none is in the index before its turn. */
  lemma IdentifierIsFree(net: Network, blocks: seq<Block>, i: nat, j: nat)
    requires ValidBranch(net, blocks) && i < |blocks| && j < |blocks[i].transactions|
    ensures var id := net.txid(blocks[i].transactions[j]);
            && id !in PartialIndex(net, blocks, i, j)
            && PartialIndex(net, blocks, i, j + 1)
               == PartialIndex(net, blocks, i, j)[id := net.HashOf(blocks[i])]
  {
    hide RunBranch, TransactionIndex, TransactionsOf;
    NotBefore(net, blocks, i, j);
    IndexKeys(net, blocks[..i]);
    OneMoreKey(net, TransactionIndex(net, blocks[..i]), blocks[i].transactions, j, net.HashOf(blocks[i]));
  }

  lemma OneMoreKey(net: Network, index: map<Hash, Hash>, txs: seq<Transaction>, j: nat, hash: Hash)
    requires j < |txs|
    ensures index + (map tx | tx in txs[..j + 1] :: net.txid(tx) := hash)
         == (index + map tx | tx in txs[..j] :: net.txid(tx) := hash)[net.txid(txs[j]) := hash]
  {
    assert txs[..j + 1] == txs[..j] + [txs[j]];
  }

  lemma NotBefore(net: Network, blocks: seq<Block>, i: nat, j: nat)
    requires ValidBranch(net, blocks) && i < |blocks| && j < |blocks[i].transactions|
    ensures net.txid(blocks[i].transactions[j]) !in Txids(net, TransactionsOf(blocks[..i]))
    ensures net.txid(blocks[i].transactions[j]) !in Txids(net, blocks[i].transactions[..j])
  {
    hide RunBranch;
    PrefixIsValid(net, blocks, i + 1);
    BranchIsFresh(net, blocks[..i + 1]);
    assert blocks[..i + 1][..i] == blocks[..i];
    NotRepeated(net, TransactionsOf(blocks[..i]), blocks[i].transactions, j);
  }

  lemma NotRepeated(net: Network, before: seq<Transaction>, txs: seq<Transaction>, j: nat)
    requires DistinctTxids(net, before + txs) && j < |txs|
    ensures net.txid(txs[j]) !in Txids(net, before)
    ensures net.txid(txs[j]) !in Txids(net, txs[..j])
  {
    var all := before + txs;
    assert all[|before| + j] == txs[j];
    forall tx | tx in before ensures net.txid(tx) != net.txid(txs[j]) {
      var k :| 0 <= k < |before| && before[k] == tx;
      assert all[k] == tx;
    }
    forall tx | tx in txs[..j] ensures net.txid(tx) != net.txid(txs[j]) {
      var k :| 0 <= k < j && txs[..j][k] == tx;
      assert all[|before| + k] == tx;
    }
  }

  // ---------------------------------------------------------------------------------------------
  // Replay, row by row
  // ---------------------------------------------------------------------------------------------

  lemma FirstRowReplays(net: Network, rows: seq<BlockRow>, check: bool)
    requires |rows| > 0
    ensures ReplayGenesis(net, rows[0], check).Ok? ==> Replay(net, rows[..1], check) == Ok(GenesisTree(net))
    ensures ReplayGenesis(net, rows[0], check).Err? ==> Replay(net, rows, check) == Err(IntegrityError)
  {
    assert rows[..1] == [rows[0]];
    if ReplayGenesis(net, rows[0], check).Err? {
      ReplayStops(net, rows, 1, check);
    }
  }

  lemma NextRowReplays(net: Network, rows: seq<BlockRow>, i: nat, t: Tree, check: bool)
    requires i < |rows| && Replay(net, rows[..i], check) == Ok(t)
    ensures match ReplayRow(net, t, rows[i], check)
            case Ok(t') => Replay(net, rows[..i + 1], check) == Ok(t')
            case Err(_) => Replay(net, rows, check) == Err(IntegrityError)
  {
    hide Replay, ReplayRow;
    assert rows[..i + 1] == rows[..i] + [rows[i]];
    ReplayGrows(net, rows[..i], t, rows[i], check);
    if ReplayRow(net, t, rows[i], check).Err? {
      RowFailsForIntegrity(net, t, rows[i], check);
      ReplayStops(net, rows, i + 1, check);
    }
  }

  lemma RowFailsForIntegrity(net: Network, t: Tree, row: BlockRow, check: bool)
    requires Linked(net, t) && ReplayRow(net, t, row, check).Err?
    ensures ReplayRow(net, t, row, check) == Err(IntegrityError)
  {
  }

  /** A log whose prefix does not replay does not replay. */
  lemma {:induction false} ReplayStops(net: Network, rows: seq<BlockRow>, i: nat, check: bool)
    requires 0 < i <= |rows| && Replay(net, rows[..i], check) == Err(IntegrityError)
    ensures Replay(net, rows, check) == Err(IntegrityError)
    decreases |rows|
  {
    hide ReplayRow, ReplayGenesis;
    if i < |rows| {
      assert rows[..|rows| - 1][..i] == rows[..i];
      ReplayStops(net, rows[..|rows| - 1], i, check);
    } else {
      assert rows[..i] == rows;
    }
  }
}
