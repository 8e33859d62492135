/** The wire messages: handshake, locator, summary and block body.

    As for the consensus objects, decoding is proved inverse to encoding in both directions, and
    every block that execution accepts is proved to fit all the limits of the wire. */
module Protocol {
  import opened Types
  import opened Transactions
  import opened State
  import opened Consensus
  import opened Branches
  import opened Encoding
  import opened Codecs
  import opened Frames

  const MAX_BLOCK_TRANSACTIONS_WIRE := 10_000
  const MAX_TRANSACTION_BYTES := 4_096
  const MAX_HEADER_BYTES := 4_096
  const MAX_REWARD_BYTES := 2_048
  const MAX_BLOCK_LOCATOR_HASHES := 64
  const NODE_ID_LENGTH := 16
  const WORK_LENGTH := 40

  const HELLO_DOMAIN: Bytes := Ascii("OURCOIN:P2P:HELLO:V1")
  const LOCATOR_DOMAIN: Bytes := Ascii("OURCOIN:P2P:LOCATOR:V1")
  const SUMMARY_DOMAIN: Bytes := Ascii("OURCOIN:P2P:SUMMARY:V1")
  const BLOCK_BODY_DOMAIN: Bytes := Ascii("OURCOIN:P2P:BLOCK:V1")

  datatype Hello = Hello(nodeId: Bytes, chainId: Text, genesisHash: Bytes, tipHash: Bytes, height: int,
                         work: int, listenPort: int)
  datatype BlockLocator = BlockLocator(hashes: seq<Bytes>)
  datatype ChainSummary = ChainSummary(tipHash: Bytes, height: int, work: int)

  // Cumulative work

  function EncodeWork(work: int): Option<Bytes> {
    if work <= 0 || work >= Pow256(WORK_LENGTH) then None else Some(BigEndian(work, WORK_LENGTH))
  }

  function DecodeWork(raw: Bytes): Option<int> {
    if |raw| != WORK_LENGTH then None
    else if FromBigEndian(raw) <= 0 then None
    else Some(FromBigEndian(raw))
  }

  lemma WorkCodec(raw: Bytes, work: int)
    ensures DecodeWork(raw) == Some(work) <==> EncodeWork(work) == Some(raw)
    ensures EncodeWork(work) == Some(raw) ==> |raw| == WORK_LENGTH
  {
    BytesSurvive(raw);
    if 0 < work < Pow256(WORK_LENGTH) {
      NumberSurvives(work, WORK_LENGTH);
    }
  }

  function ExactBytes(value: Bytes, length: nat): Option<Bytes> {
    if |value| == length then Some(value) else None
  }

  // HELLO

  function EncodeHello(u: Unicode, m: Hello): Option<Bytes> {
    if |m.chainId| > MAX_CHAIN_ID_BYTES then None
    else
      var domain :- EncodeBytes(HELLO_DOMAIN);
      var rawId :- ExactBytes(m.nodeId, NODE_ID_LENGTH);
      var nodeId :- EncodeBytes(rawId);
      var chainId :- EncodeText(u, m.chainId);
      var rawGenesis :- ExactBytes(m.genesisHash, HASH_LENGTH);
      var genesis :- EncodeBytes(rawGenesis);
      var rawTip :- ExactBytes(m.tipHash, HASH_LENGTH);
      var tip :- EncodeBytes(rawTip);
      var height :- EncodeU64(m.height);
      var rawWork :- EncodeWork(m.work);
      var work :- EncodeBytes(rawWork);
      var port :- EncodeU16(m.listenPort);
      Some(domain + (nodeId + (chainId + (genesis + (tip + (height + (work + port)))))))
  }

  function DecodeHello(u: Unicode, encoded: Bytes): Option<Hello> {
    var domain :- ParseBytes(Some(|HELLO_DOMAIN|), encoded);
    if domain.value != HELLO_DOMAIN then None
    else
      var nodeId :- ParseBytes(Some(NODE_ID_LENGTH), domain.rest);
      var chainId :- ParseText(u, Some(MAX_CHAIN_ID_BYTES), nodeId.rest);
      var genesis :- ParseBytes(Some(HASH_LENGTH), chainId.rest);
      var tip :- ParseBytes(Some(HASH_LENGTH), genesis.rest);
      var height :- ParseUnsigned(8, tip.rest);
      var rawWork :- ParseBytes(Some(WORK_LENGTH), height.rest);
      var work :- DecodeWork(rawWork.value);
      var port :- ParseUnsigned(2, rawWork.rest);
      if port.rest != [] then None
      else if |nodeId.value| != NODE_ID_LENGTH then None
      else if |genesis.value| != HASH_LENGTH || |tip.value| != HASH_LENGTH then None
      else Some(Hello(nodeId.value, chainId.value, genesis.value, tip.value, height.value, work, port.value))
  }

  /** Decoding returns a handshake exactly on the one byte string that encodes it. */
  lemma HelloCodec(u: Unicode, encoded: Bytes, m: Hello)
    ensures DecodeHello(u, encoded) == Some(m)
       <==> u.Canonical(m.chainId) && EncodeHello(u, m) == Some(encoded)
  {
    hide EncodeBytes, EncodeText, EncodeUnsigned, EncodeWork, ParseBytes, ParseText, ParseUnsigned, DecodeWork;
    if DecodeHello(u, encoded) == Some(m) {
      var domain := GetBytes(Some(|HELLO_DOMAIN|), encoded);
      var nodeId := GetBytes(Some(NODE_ID_LENGTH), domain.rest);
      var chainId := GetText(u, Some(MAX_CHAIN_ID_BYTES), nodeId.rest);
      var genesis := GetBytes(Some(HASH_LENGTH), chainId.rest);
      var tip := GetBytes(Some(HASH_LENGTH), genesis.rest);
      var height := GetUnsigned(8, tip.rest);
      var rawWork := GetBytes(Some(WORK_LENGTH), height.rest);
      WorkCodec(rawWork.value, m.work);
      var port := GetUnsigned(2, rawWork.rest);
      assert EncodeU16(port.value).value + [] == EncodeU16(port.value).value;
    }
    if u.Canonical(m.chainId) && EncodeHello(u, m) == Some(encoded) {
      var rawWork := EncodeWork(m.work).value;
      WorkCodec(rawWork, m.work);
      assert EncodeU16(m.listenPort).value + [] == EncodeU16(m.listenPort).value;
      var rest := PutUnsigned(2, m.listenPort, []);
      rest := PutBytes(Some(WORK_LENGTH), rawWork, rest);
      rest := PutUnsigned(8, m.height, rest);
      rest := PutBytes(Some(HASH_LENGTH), m.tipHash, rest);
      rest := PutBytes(Some(HASH_LENGTH), m.genesisHash, rest);
      rest := PutText(u, Some(MAX_CHAIN_ID_BYTES), m.chainId, rest);
      rest := PutBytes(Some(NODE_ID_LENGTH), m.nodeId, rest);
      rest := PutBytes(Some(|HELLO_DOMAIN|), HELLO_DOMAIN, rest);
    }
  }

  method HelloFromBytes(u: Unicode, encoded: Bytes) returns (r: Option<Hello>)
    ensures r == DecodeHello(u, encoded)
  {
    hide ParseBytes, ParseText, ParseUnsigned, DecodeWork;
    var reader := new CanonicalReader(encoded);
    var domain :- reader.ReadBytes(Some(|HELLO_DOMAIN|));
    if domain != HELLO_DOMAIN {
      return None;
    }
    var nodeId :- reader.ReadBytes(Some(NODE_ID_LENGTH));
    var chainId :- reader.ReadText(u, Some(MAX_CHAIN_ID_BYTES));
    var genesis :- reader.ReadBytes(Some(HASH_LENGTH));
    var tip :- reader.ReadBytes(Some(HASH_LENGTH));
    var height :- reader.ReadUnsigned(8);
    var rawWork :- reader.ReadBytes(Some(WORK_LENGTH));
    var work :- DecodeWork(rawWork);
    var port :- reader.ReadUnsigned(2);
    var finished := reader.IsFinished();
    if !finished || |nodeId| != NODE_ID_LENGTH || |genesis| != HASH_LENGTH || |tip| != HASH_LENGTH {
      return None;
    }
    r := Some(Hello(nodeId, chainId, genesis, tip, height, work, port));
  }

  // Block locators

  predicate AllHashes(values: seq<Bytes>) {
    forall i :: 0 <= i < |values| ==> |values[i]| == HASH_LENGTH
  }

  function EncodeLocator(m: BlockLocator): Option<Bytes> {
    if !(0 < |m.hashes| <= MAX_BLOCK_LOCATOR_HASHES) || !AllHashes(m.hashes) then None
    else
      var domain :- EncodeBytes(LOCATOR_DOMAIN);
      var hashes :- EncodeSequence(m.hashes);
      Some(domain + hashes)
  }

  function DecodeLocator(encoded: Bytes): Option<BlockLocator> {
    var domain :- ParseBytes(Some(|LOCATOR_DOMAIN|), encoded);
    if domain.value != LOCATOR_DOMAIN then None
    else
      var hashes :- ParseSequence(Some(MAX_BLOCK_LOCATOR_HASHES), Some(HASH_LENGTH), domain.rest);
      if hashes.rest != [] || |hashes.value| == 0 || !AllHashes(hashes.value) then None
      else Some(BlockLocator(hashes.value))
  }

  /** Decoding returns a locator exactly on the one byte string that encodes it. */
  lemma LocatorCodec(encoded: Bytes, m: BlockLocator)
    ensures DecodeLocator(encoded) == Some(m) <==> EncodeLocator(m) == Some(encoded)
  {
    hide EncodeBytes, EncodeSequence, ParseBytes, ParseSequence;
    if DecodeLocator(encoded) == Some(m) {
      var domain := GetBytes(Some(|LOCATOR_DOMAIN|), encoded);
      SequenceLaw(Some(MAX_BLOCK_LOCATOR_HASHES), Some(HASH_LENGTH), domain.rest, m.hashes, []);
      assert EncodeSequence(m.hashes).value + [] == EncodeSequence(m.hashes).value;
    }
    if EncodeLocator(m) == Some(encoded) {
      var hashes := EncodeSequence(m.hashes).value;
      assert hashes + [] == hashes;
      SequenceLaw(Some(MAX_BLOCK_LOCATOR_HASHES), Some(HASH_LENGTH), hashes, m.hashes, []);
      var rest := PutBytes(Some(|LOCATOR_DOMAIN|), LOCATOR_DOMAIN, hashes);
    }
  }

  method LocatorFromBytes(encoded: Bytes) returns (r: Option<BlockLocator>)
    ensures r == DecodeLocator(encoded)
  {
    hide ParseBytes, ParseSequence;
    var reader := new CanonicalReader(encoded);
    var domain :- reader.ReadBytes(Some(|LOCATOR_DOMAIN|));
    if domain != LOCATOR_DOMAIN {
      return None;
    }
    var hashes :- reader.ReadSequence(Some(MAX_BLOCK_LOCATOR_HASHES), Some(HASH_LENGTH));
    var finished := reader.IsFinished();
    if !finished || |hashes| == 0 {
      return None;
    }
    for i := 0 to |hashes|
      invariant forall k :: 0 <= k < i ==> |hashes[k]| == HASH_LENGTH
    {
      if |hashes[i]| != HASH_LENGTH {
        return None;
      }
    }
    r := Some(BlockLocator(hashes));
  }

  // Chain summaries

  function EncodeSummary(m: ChainSummary): Option<Bytes> {
    var domain :- EncodeBytes(SUMMARY_DOMAIN);
    var rawTip :- ExactBytes(m.tipHash, HASH_LENGTH);
    var tip :- EncodeBytes(rawTip);
    var height :- EncodeU64(m.height);
    var rawWork :- EncodeWork(m.work);
    var work :- EncodeBytes(rawWork);
    Some(domain + (tip + (height + work)))
  }

  function DecodeSummary(encoded: Bytes): Option<ChainSummary> {
    var domain :- ParseBytes(Some(|SUMMARY_DOMAIN|), encoded);
    if domain.value != SUMMARY_DOMAIN then None
    else
      var tip :- ParseBytes(Some(HASH_LENGTH), domain.rest);
      var height :- ParseUnsigned(8, tip.rest);
      var rawWork :- ParseBytes(Some(WORK_LENGTH), height.rest);
      var work :- DecodeWork(rawWork.value);
      if rawWork.rest != [] || |tip.value| != HASH_LENGTH then None
      else Some(ChainSummary(tip.value, height.value, work))
  }

  /** Decoding returns a summary exactly on the one byte string that encodes it. */
  lemma SummaryCodec(encoded: Bytes, m: ChainSummary)
    ensures DecodeSummary(encoded) == Some(m) <==> EncodeSummary(m) == Some(encoded)
  {
    hide EncodeBytes, EncodeUnsigned, EncodeWork, ParseBytes, ParseUnsigned, DecodeWork;
    if DecodeSummary(encoded) == Some(m) {
      var domain := GetBytes(Some(|SUMMARY_DOMAIN|), encoded);
      var tip := GetBytes(Some(HASH_LENGTH), domain.rest);
      var height := GetUnsigned(8, tip.rest);
      var rawWork := GetBytes(Some(WORK_LENGTH), height.rest);
      WorkCodec(rawWork.value, m.work);
      assert EncodeBytes(rawWork.value).value + [] == EncodeBytes(rawWork.value).value;
    }
    if EncodeSummary(m) == Some(encoded) {
      var rawWork := EncodeWork(m.work).value;
      WorkCodec(rawWork, m.work);
      assert EncodeBytes(rawWork).value + [] == EncodeBytes(rawWork).value;
      var rest := PutBytes(Some(WORK_LENGTH), rawWork, []);
      rest := PutUnsigned(8, m.height, rest);
      rest := PutBytes(Some(HASH_LENGTH), m.tipHash, rest);
      rest := PutBytes(Some(|SUMMARY_DOMAIN|), SUMMARY_DOMAIN, rest);
    }
  }

  method SummaryFromBytes(encoded: Bytes) returns (r: Option<ChainSummary>)
    ensures r == DecodeSummary(encoded)
  {
    hide ParseBytes, ParseUnsigned, DecodeWork;
    var reader := new CanonicalReader(encoded);
    var domain :- reader.ReadBytes(Some(|SUMMARY_DOMAIN|));
    if domain != SUMMARY_DOMAIN {
      return None;
    }
    var tip :- reader.ReadBytes(Some(HASH_LENGTH));
    var height :- reader.ReadUnsigned(8);
    var rawWork :- reader.ReadBytes(Some(WORK_LENGTH));
    var work :- DecodeWork(rawWork);
    var finished := reader.IsFinished();
    if !finished || |tip| != HASH_LENGTH {
      return None;
    }
    r := Some(ChainSummary(tip, height, work));
  }

  // Block bodies

  function EncodeTransactions(u: Unicode, txs: seq<Transaction>): (items: Option<seq<Bytes>>)
    ensures items.Some? ==> |items.value| == |txs|
  {
    if txs == [] then Some([])
    else
      var first :- EncodeTransaction(u, txs[0]);
      var others :- EncodeTransactions(u, txs[1..]);
      Some([first] + others)
  }

  function DecodeTransactions(u: Unicode, items: seq<Bytes>): (txs: Option<seq<Transaction>>)
    ensures txs.Some? ==> |txs.value| == |items|
  {
    if items == [] then Some([])
    else
      var first :- DecodeTransaction(u, items[0]);
      var others :- DecodeTransactions(u, items[1..]);
      Some([first] + others)
  }

  predicate WellFormedTransactions(u: Unicode, txs: seq<Transaction>) {
    forall i :: 0 <= i < |txs| ==> WellFormedTransaction(u, txs[i])
  }

  lemma {:induction false} TransactionsCodec(u: Unicode, items: seq<Bytes>, txs: seq<Transaction>)
    ensures DecodeTransactions(u, items) == Some(txs)
       <==> WellFormedTransactions(u, txs) && EncodeTransactions(u, txs) == Some(items)
    decreases |items| + |txs|
  {
    hide EncodeTransaction, DecodeTransaction, WellFormedTransaction;
    if items != [] && txs != [] {
      TransactionCodec(u, items[0], txs[0]);
      TransactionsCodec(u, items[1..], txs[1..]);
      if DecodeTransactions(u, items) == Some(txs) {
        assert DecodeTransactions(u, items[1..]).value == txs[1..];
        assert items == [items[0]] + items[1..];
      }
      if WellFormedTransactions(u, txs) && EncodeTransactions(u, txs) == Some(items) {
        assert EncodeTransactions(u, txs[1..]).value == items[1..];
        assert txs == [txs[0]] + txs[1..];
      }
    }
  }

  function EncodeBlock(u: Unicode, b: Block): Option<Bytes> {
    var domain :- EncodeBytes(BLOCK_BODY_DOMAIN);
    var rawHeader :- EncodeHeader(u, b.header);
    var header :- EncodeBytes(rawHeader);
    var rawReward :- EncodeReward(u, b.reward);
    var reward :- EncodeBytes(rawReward);
    var items :- EncodeTransactions(u, b.transactions);
    var transactions :- EncodeSequence(items);
    Some(domain + (header + (reward + transactions)))
  }

  function DecodeBlock(u: Unicode, encoded: Bytes): Option<Block> {
    var domain :- ParseBytes(Some(|BLOCK_BODY_DOMAIN|), encoded);
    if domain.value != BLOCK_BODY_DOMAIN then None
    else
      var rawHeader :- ParseBytes(Some(MAX_HEADER_BYTES), domain.rest);
      var header :- DecodeHeader(u, rawHeader.value);
      var rawReward :- ParseBytes(Some(MAX_REWARD_BYTES), rawHeader.rest);
      var reward :- DecodeReward(u, rawReward.value);
      var items :- ParseSequence(Some(MAX_BLOCK_TRANSACTIONS_WIRE), Some(MAX_TRANSACTION_BYTES), rawReward.rest);
      if items.rest != [] then None
      else
        var transactions :- DecodeTransactions(u, items.value);
        Some(Block(header, reward, transactions))
  }

  /** The blocks that decoding can return. */
  predicate WellFormedBlock(u: Unicode, b: Block) {
    && WellFormedHeader(u, b.header) && WellFormedReward(u, b.reward)
    && WellFormedTransactions(u, b.transactions) && |b.transactions| <= MAX_BLOCK_TRANSACTIONS_WIRE
  }

  // How long the encodings get

  lemma TransactionLength(u: Unicode, tx: Transaction)
    requires WellFormedTransaction(u, tx) && EncodeTransaction(u, tx).Some?
    ensures |EncodeTransaction(u, tx).value| <= 496
  {
    hide EncodeUnsigned, EncodeBytes;
    EncodedLengths(TRANSACTION_DOMAIN, tx.version);
    EncodedLengths(tx.chainId, tx.amount);
    EncodedLengths(tx.sender, tx.fee);
    EncodedLengths(tx.recipient, tx.nonce);
    EncodedLengths(tx.senderPublicKey, tx.validUntil);
    EncodedLengths(tx.signature, 0);
  }

  lemma RewardLength(u: Unicode, reward: Reward)
    requires WellFormedReward(u, reward) && EncodeReward(u, reward).Some?
    ensures |EncodeReward(u, reward).value| <= 239
  {
    hide EncodeUnsigned, EncodeBytes;
    EncodedLengths(REWARD_TRANSACTION_DOMAIN, reward.version);
    EncodedLengths(reward.chainId, reward.height);
    EncodedLengths(reward.miner, reward.amount);
  }

  lemma HeaderLength(u: Unicode, h: Header)
    requires WellFormedHeader(u, h) && EncodeHeader(u, h).Some?
    ensures |EncodeHeader(u, h).value| <= 397
  {
    hide EncodeUnsigned, EncodeBytes, BigEndian;
    EncodedLengths(BLOCK_HEADER_DOMAIN, h.version);
    EncodedLengths(h.chainId, h.height);
    EncodedLengths(h.previous, h.timestamp);
    EncodedLengths(h.transactionsRoot, h.nonce);
    EncodedLengths(h.stateRoot, 0);
    EncodedLengths(h.miner, 0);
    EncodedLengths(EncodeTarget(h.target).value, 0);
  }

  lemma {:induction false} TransactionsLength(u: Unicode, txs: seq<Transaction>)
    requires WellFormedTransactions(u, txs) && EncodeTransactions(u, txs).Some?
    ensures var items := EncodeTransactions(u, txs).value;
            && AllWithin(items, Some(496)) && EncodeItems(items).Some?
            && |EncodeItems(items).value| <= 500 * |txs|
  {
    hide EncodeTransaction, EncodeBytes, WellFormedTransaction;
    if txs != [] {
      var items := EncodeTransactions(u, txs).value;
      TransactionLength(u, txs[0]);
      EncodedLengths(items[0], 0);
      TransactionsLength(u, txs[1..]);
      assert items[1..] == EncodeTransactions(u, txs[1..]).value;
    }
  }

  /** A well-formed block whose parts can be encoded stays within every limit of the wire. */
  lemma BlockLength(u: Unicode, b: Block)
    requires WellFormedBlock(u, b)
    requires EncodeHeader(u, b.header).Some? && EncodeReward(u, b.reward).Some?
    requires EncodeTransactions(u, b.transactions).Some?
    ensures |EncodeHeader(u, b.header).value| <= MAX_HEADER_BYTES
    ensures |EncodeReward(u, b.reward).value| <= MAX_REWARD_BYTES
    ensures AllWithin(EncodeTransactions(u, b.transactions).value, Some(MAX_TRANSACTION_BYTES))
    ensures EncodeBlock(u, b).Some? && |EncodeBlock(u, b).value| <= MAX_FRAME_PAYLOAD
  {
    hide EncodeUnsigned, EncodeBytes, EncodeHeader, EncodeReward, EncodeTransactions, EncodeItems;
    hide WellFormedTransactions, WellFormedHeader, WellFormedReward;
    HeaderLength(u, b.header);
    RewardLength(u, b.reward);
    TransactionsLength(u, b.transactions);
    EncodedLengths(BLOCK_BODY_DOMAIN, 0);
    EncodedLengths(EncodeHeader(u, b.header).value, 0);
    EncodedLengths(EncodeReward(u, b.reward).value, 0);
    EncodableRanges(|b.transactions|);
    CountLength(|b.transactions|);
  }

  lemma CountLength(n: nat)
    ensures EncodeU32(n).Some? ==> |EncodeU32(n).value| == 4
  {
  }

  /** Decoding returns a block exactly on the one byte string that encodes it. */
  lemma BlockCodec(u: Unicode, encoded: Bytes, b: Block)
    ensures DecodeBlock(u, encoded) == Some(b)
       <==> WellFormedBlock(u, b) && EncodeBlock(u, b) == Some(encoded)
  {
    hide EncodeBytes, EncodeSequence, ParseBytes, ParseSequence, Within;
    hide EncodeHeader, EncodeReward, EncodeTransactions, DecodeHeader, DecodeReward, DecodeTransactions;
    hide WellFormedTransactions, WellFormedHeader, WellFormedReward;
    if DecodeBlock(u, encoded) == Some(b) {
      DecodedBlockEncodes(u, encoded, b);
    }
    if WellFormedBlock(u, b) && EncodeBlock(u, b) == Some(encoded) {
      EncodedBlockDecodes(u, b, encoded);
    }
  }

  lemma DecodedBlockEncodes(u: Unicode, encoded: Bytes, b: Block)
    requires DecodeBlock(u, encoded) == Some(b)
    ensures WellFormedBlock(u, b) && EncodeBlock(u, b) == Some(encoded)
  {
    hide EncodeBytes, EncodeSequence, ParseBytes, ParseSequence;
    hide EncodeHeader, EncodeReward, EncodeTransactions, DecodeHeader, DecodeReward, DecodeTransactions;
    hide WellFormedTransactions, WellFormedHeader, WellFormedReward;
    var domain := GetBytes(Some(|BLOCK_BODY_DOMAIN|), encoded);
    var rawHeader := GetBytes(Some(MAX_HEADER_BYTES), domain.rest);
    HeaderCodec(u, rawHeader.value, b.header);
    var rawReward := GetBytes(Some(MAX_REWARD_BYTES), rawHeader.rest);
    RewardCodec(u, rawReward.value, b.reward);
    var items := ParseSequence(Some(MAX_BLOCK_TRANSACTIONS_WIRE), Some(MAX_TRANSACTION_BYTES), rawReward.rest).value;
    SequenceLaw(Some(MAX_BLOCK_TRANSACTIONS_WIRE), Some(MAX_TRANSACTION_BYTES), rawReward.rest, items.value, []);
    TransactionsCodec(u, items.value, b.transactions);
    assert EncodeSequence(items.value).value + [] == EncodeSequence(items.value).value;
  }

  lemma EncodedBlockDecodes(u: Unicode, b: Block, encoded: Bytes)
    requires WellFormedBlock(u, b) && EncodeBlock(u, b) == Some(encoded)
    ensures DecodeBlock(u, encoded) == Some(b)
  {
    hide EncodeBytes, EncodeSequence, ParseBytes, ParseSequence;
    hide EncodeHeader, EncodeReward, EncodeTransactions, DecodeHeader, DecodeReward, DecodeTransactions;
    hide WellFormedTransactions, WellFormedHeader, WellFormedReward;
    BlockLength(u, b);
    var rawHeader, rawReward := EncodeHeader(u, b.header).value, EncodeReward(u, b.reward).value;
    var items := EncodeTransactions(u, b.transactions).value;
    HeaderCodec(u, rawHeader, b.header);
    RewardCodec(u, rawReward, b.reward);
    TransactionsCodec(u, items, b.transactions);
    var rest := EncodeSequence(items).value;
    assert rest + [] == rest;
    SequenceLaw(Some(MAX_BLOCK_TRANSACTIONS_WIRE), Some(MAX_TRANSACTION_BYTES), rest, items, []);
    rest := PutBytes(Some(MAX_REWARD_BYTES), rawReward, rest);
    rest := PutBytes(Some(MAX_HEADER_BYTES), rawHeader, rest);
    rest := PutBytes(Some(|BLOCK_BODY_DOMAIN|), BLOCK_BODY_DOMAIN, rest);
  }

  method BlockFromBytes(u: Unicode, encoded: Bytes) returns (r: Option<Block>)
    ensures r == DecodeBlock(u, encoded)
  {
    hide ParseBytes, ParseSequence, DecodeHeader, DecodeReward, DecodeTransaction;
    var reader := new CanonicalReader(encoded);
    var domain :- reader.ReadBytes(Some(|BLOCK_BODY_DOMAIN|));
    if domain != BLOCK_BODY_DOMAIN {
      return None;
    }
    var rawHeader :- reader.ReadBytes(Some(MAX_HEADER_BYTES));
    var header :- HeaderFromBytes(u, rawHeader);
    var rawReward :- reader.ReadBytes(Some(MAX_REWARD_BYTES));
    var reward :- RewardFromBytes(u, rawReward);
    var items :- reader.ReadSequence(Some(MAX_BLOCK_TRANSACTIONS_WIRE), Some(MAX_TRANSACTION_BYTES));
    var finished := reader.IsFinished();
    if !finished {
      return None;
    }
    var transactions :- TransactionsFromBytes(u, items);
    r := Some(Block(header, reward, transactions));
  }

  method TransactionsFromBytes(u: Unicode, items: seq<Bytes>) returns (r: Option<seq<Transaction>>)
    ensures r == DecodeTransactions(u, items)
  {
    hide DecodeTransaction;
    var transactions: seq<Transaction> := [];
    assert items[0..] == items;
    AfterNothing(DecodeTransactions(u, items));
    for i := 0 to |items|
      invariant |transactions| == i
      invariant DecodeTransactions(u, items) == After(transactions, DecodeTransactions(u, items[i..]))
    {
      assert items[i..][0] == items[i] && items[i..][1..] == items[i + 1..];
      var tx :- TransactionFromBytes(u, items[i]);
      AfterTwice(transactions, [tx], DecodeTransactions(u, items[i + 1..]));
      transactions := transactions + [tx];
    }
    assert items[|items|..] == [] && transactions + [] == transactions;
    r := Some(transactions);
  }

  function After(front: seq<Transaction>, parsed: Option<seq<Transaction>>): Option<seq<Transaction>> {
    var others :- parsed;
    Some(front + others)
  }

  lemma AfterNothing(parsed: Option<seq<Transaction>>)
    ensures After([], parsed) == parsed
  {
    if parsed.Some? {
      assert [] + parsed.value == parsed.value;
    }
  }

  lemma AfterTwice(a: seq<Transaction>, b: seq<Transaction>, parsed: Option<seq<Transaction>>)
    ensures After(a, After(b, parsed)) == After(a + b, parsed)
  {
    if parsed.Some? {
      assert a + (b + parsed.value) == a + b + parsed.value;
    }
  }

  // What execution accepts, the wire carries

  /** The network's identifier and addresses are short canonical texts. */
  ghost predicate WireNetwork(net: Network, u: Unicode) {
    && ShortText(u, net.chainId, MAX_CHAIN_ID_BYTES)
    && ShortText(u, net.genesisMiner, MAX_ADDRESS_BYTES)
    && forall a: Text :: net.validAddress(a) ==> ShortText(u, a, MAX_ADDRESS_BYTES)
  }

  lemma ShortTextEncodes(u: Unicode, text: Bytes, limit: nat)
    requires ShortText(u, text, limit) && limit <= U32_MAX
    ensures EncodeText(u, text).Some?
  {
    EncodedLengths(text, 0);
  }

  /** A transaction that passes validation can be sent and is received unchanged. */
  lemma ValidTransactionTravels(net: Network, u: Unicode, tx: Transaction, height: int)
    requires WireNetwork(net, u) && ValidAt(net, tx, height)
    ensures WellFormedTransaction(u, tx) && EncodeTransaction(u, tx).Some?
    ensures |EncodeTransaction(u, tx).value| <= MAX_TRANSACTION_BYTES
    ensures DecodeTransaction(u, EncodeTransaction(u, tx).value) == Some(tx)
  {
    hide EncodeUnsigned, EncodeText, EncodeBytes, DecodeTransaction;
    ShortTextEncodes(u, tx.chainId, MAX_CHAIN_ID_BYTES);
    ShortTextEncodes(u, tx.sender, MAX_ADDRESS_BYTES);
    ShortTextEncodes(u, tx.recipient, MAX_ADDRESS_BYTES);
    EncodedLengths(TRANSACTION_DOMAIN, 0);
    EncodedLengths(tx.senderPublicKey, 0);
    EncodedLengths(tx.signature, 0);
    EncodableRanges(tx.version);
    EncodableRanges(tx.amount);
    EncodableRanges(tx.fee);
    EncodableRanges(tx.nonce);
    EncodableRanges(tx.validUntil);
    TransactionLength(u, tx);
    TransactionCodec(u, EncodeTransaction(u, tx).value, tx);
  }

  lemma {:induction false} ValidTransactionsTravel(net: Network, u: Unicode, txs: seq<Transaction>, height: int)
    requires WireNetwork(net, u) && forall i :: 0 <= i < |txs| ==> ValidAt(net, txs[i], height)
    ensures WellFormedTransactions(u, txs) && EncodeTransactions(u, txs).Some?
  {
    hide WireNetwork, ValidAt, WellFormedTransaction, EncodeTransaction;
    if txs != [] {
      ValidTransactionTravels(net, u, txs[0], height);
      ValidTransactionsTravel(net, u, txs[1..], height);
      assert txs == [txs[0]] + txs[1..];
    }
  }

  lemma BatchIsValid(net: Network, l: Ledger, txs: seq<Transaction>, height: int)
    requires ApplyAll(net, l, txs, height).Ok?
    ensures forall i :: 0 <= i < |txs| ==> ValidAt(net, txs[i], height)
  {
    forall i | 0 <= i < |txs|
      ensures ValidAt(net, txs[i], height)
    {
      RunsOnPrefix(net, l, txs, i, height);
    }
  }

  lemma HeaderAndRewardEncode(net: Network, u: Unicode, b: Block)
    requires WellFormedHeader(u, b.header) && WellFormedReward(u, b.reward)
    requires HeaderEncodable(b.header) && RewardEncodable(b.reward)
    ensures EncodeHeader(u, b.header).Some? && EncodeReward(u, b.reward).Some?
  {
    hide EncodeUnsigned, EncodeText, EncodeBytes, BigEndian;
    var h, r := b.header, b.reward;
    ShortTextEncodes(u, h.chainId, MAX_CHAIN_ID_BYTES);
    ShortTextEncodes(u, h.miner, MAX_ADDRESS_BYTES);
    ShortTextEncodes(u, r.chainId, MAX_CHAIN_ID_BYTES);
    ShortTextEncodes(u, r.miner, MAX_ADDRESS_BYTES);
    EncodedLengths(BLOCK_HEADER_DOMAIN, 0);
    EncodedLengths(REWARD_TRANSACTION_DOMAIN, 0);
    EncodedLengths(h.previous, 0);
    EncodedLengths(h.transactionsRoot, 0);
    EncodedLengths(h.stateRoot, 0);
    EncodedLengths(EncodeTarget(h.target).value, 0);
    EncodableRanges(h.version);
    EncodableRanges(h.height);
    EncodableRanges(h.timestamp);
    EncodableRanges(h.nonce);
    EncodableRanges(r.version);
    EncodableRanges(r.height);
    EncodableRanges(r.amount);
  }

  /** Every block that execution accepts, genesis included, fits one frame and is received
      unchanged. */
  lemma AcceptedBlockTravels(net: Network, u: Unicode, b: Block, parent: Option<Block>, l: Ledger, supply: int,
                             expected: Option<int>)
    requires WireNetwork(net, u) && Execute(net, b, parent, l, supply, expected).Ok?
    ensures EncodeBlock(u, b).Some? && |EncodeBlock(u, b).value| <= MAX_FRAME_PAYLOAD
    ensures DecodeBlock(u, EncodeBlock(u, b).value) == Some(b)
    ensures forall sha :: EncodeFrame(sha, Frame(BLOCK, EncodeBlock(u, b).value), PROTOCOL_VERSION).Some?
  {
    hide EncodeHeader, EncodeReward, EncodeTransactions, EncodeBlock, DecodeBlock;
    if parent.Some? {
      BatchIsValid(net, l, b.transactions, b.header.height);
      ValidTransactionsTravel(net, u, b.transactions, b.header.height);
    } else {
      assert b.transactions == [];
      ValidTransactionsTravel(net, u, b.transactions, 0);
    }
    HeaderAndRewardEncode(net, u, b);
    BlockLength(u, b);
    BlockCodec(u, EncodeBlock(u, b).value, b);
    forall sha: Bytes -> Hash
      ensures EncodeFrame(sha, Frame(BLOCK, EncodeBlock(u, b).value), PROTOCOL_VERSION).Some?
    {
      EncodableRanges(PROTOCOL_VERSION);
      EncodableRanges(BLOCK.Code());
      EncodableRanges(|EncodeBlock(u, b).value|);
    }
  }

  /** Every block of every valid branch travels. */
  lemma BranchBlockTravels(net: Network, u: Unicode, blocks: seq<Block>, k: nat)
    requires WireNetwork(net, u) && GenesisMined(net) && ValidBranch(net, blocks) && k < |blocks|
    ensures EncodeBlock(u, blocks[k]).Some? && |EncodeBlock(u, blocks[k]).value| <= MAX_FRAME_PAYLOAD
    ensures DecodeBlock(u, EncodeBlock(u, blocks[k]).value) == Some(blocks[k])
  {
    hide WireNetwork, EncodeBlock, DecodeBlock, Execute, RunBranch;
    if k > 0 {
      var s := StepOfBranch(net, blocks, k);
      AcceptedBlockTravels(net, u, blocks[k], Some(blocks[k - 1]), s.ledger, s.supply, Some(TargetAfter(blocks[..k])));
    } else {
      BranchHeaders(net, blocks);
      GenesisExecutes(net);
      AcceptedBlockTravels(net, u, blocks[0], None, EMPTY_LEDGER, 0, None);
    }
  }

  lemma GenesisExecutes(net: Network)
    requires GenesisMined(net)
    ensures Execute(net, GenesisBlock(net), None, EMPTY_LEDGER, 0, None).Ok?
  {
  }

  /** The tip, height and work of every valid branch fit a summary, however long the branch. */
  lemma BranchSummaryTravels(net: Network, blocks: seq<Block>)
    requires ValidBranch(net, blocks) && |blocks| > 0
    ensures var m := ChainSummary(net.HashOf(blocks[|blocks| - 1]), |blocks| - 1, RunBranch(net, blocks).value.work);
            EncodeSummary(m).Some? && DecodeSummary(EncodeSummary(m).value) == Some(m)
  {
    hide EncodeBytes, EncodeUnsigned, BigEndian, DecodeSummary, RunBranch;
    var work := RunBranch(net, blocks).value.work;
    HeightIsNeverExhausted(net, blocks);
    WorkGrows(net, blocks);
    WorkFitsFortyBytes(net, blocks);
    Widths();
    EncodedLengths(SUMMARY_DOMAIN, 0);
    EncodedLengths(net.HashOf(blocks[|blocks| - 1]), 0);
    EncodedLengths(BigEndian(work, WORK_LENGTH), 0);
    EncodableRanges(|blocks| - 1);
    var m := ChainSummary(net.HashOf(blocks[|blocks| - 1]), |blocks| - 1, work);
    SummaryCodec(EncodeSummary(m).value, m);
  }
}
