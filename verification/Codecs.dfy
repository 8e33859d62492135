/** Transactions, rewards and headers as canonical bytes.

    For each of them one theorem says that encoding and decoding are inverse in both directions:
    decoding returns a value exactly on the one byte string that encodes it. */
module Codecs {
  import opened Types
  import opened Encoding

  const TRANSACTION_DOMAIN: Bytes := Ascii("OURCOIN:TRANSACTION:V1")
  const REWARD_TRANSACTION_DOMAIN: Bytes := Ascii("OURCOIN:REWARD:V1")
  const BLOCK_HEADER_DOMAIN: Bytes := Ascii("OURCOIN:BLOCK:HEADER:V1")
  const MAX_CHAIN_ID_BYTES := 64
  const MAX_ADDRESS_BYTES := 128
  const TARGET_LENGTH := 32

  /** A text that decoding can return. */
  predicate ShortText(u: Unicode, text: Bytes, limit: nat) {
    u.Canonical(text) && |text| <= limit
  }

  // Transactions

  function EncodeTransaction(u: Unicode, tx: Transaction): Option<Bytes> {
    var domain :- EncodeBytes(TRANSACTION_DOMAIN);
    var version :- EncodeU16(tx.version);
    var chainId :- EncodeText(u, tx.chainId);
    var publicKey :- EncodeBytes(tx.senderPublicKey);
    var sender :- EncodeText(u, tx.sender);
    var recipient :- EncodeText(u, tx.recipient);
    var amount :- EncodeU64(tx.amount);
    var fee :- EncodeU64(tx.fee);
    var nonce :- EncodeU64(tx.nonce);
    var validUntil :- EncodeU64(tx.validUntil);
    var signature :- EncodeBytes(tx.signature);
    Some(domain + (version + (chainId + (publicKey + (sender + (recipient + (amount + (fee + (nonce +
         (validUntil + signature))))))))))
  }

  function DecodeTransaction(u: Unicode, encoded: Bytes): Option<Transaction> {
    var domain :- ParseBytes(Some(|TRANSACTION_DOMAIN|), encoded);
    if domain.value != TRANSACTION_DOMAIN then None
    else
      var version :- ParseUnsigned(2, domain.rest);
      var chainId :- ParseText(u, Some(MAX_CHAIN_ID_BYTES), version.rest);
      var publicKey :- ParseBytes(Some(PUBLIC_KEY_LENGTH), chainId.rest);
      var sender :- ParseText(u, Some(MAX_ADDRESS_BYTES), publicKey.rest);
      var recipient :- ParseText(u, Some(MAX_ADDRESS_BYTES), sender.rest);
      var amount :- ParseUnsigned(8, recipient.rest);
      var fee :- ParseUnsigned(8, amount.rest);
      var nonce :- ParseUnsigned(8, fee.rest);
      var validUntil :- ParseUnsigned(8, nonce.rest);
      var signature :- ParseBytes(Some(SIGNATURE_LENGTH), validUntil.rest);
      if signature.rest != [] then None
      else Some(Transaction(version.value, chainId.value, publicKey.value, sender.value, recipient.value,
                            amount.value, fee.value, nonce.value, validUntil.value, signature.value))
  }

  /** The transactions that decoding can return. */
  predicate WellFormedTransaction(u: Unicode, tx: Transaction) {
    && ShortText(u, tx.chainId, MAX_CHAIN_ID_BYTES)
    && ShortText(u, tx.sender, MAX_ADDRESS_BYTES) && ShortText(u, tx.recipient, MAX_ADDRESS_BYTES)
    && |tx.senderPublicKey| <= PUBLIC_KEY_LENGTH && |tx.signature| <= SIGNATURE_LENGTH
  }

  lemma DecodedTransactionEncodes(u: Unicode, encoded: Bytes, tx: Transaction)
    requires DecodeTransaction(u, encoded) == Some(tx)
    ensures WellFormedTransaction(u, tx) && EncodeTransaction(u, tx) == Some(encoded)
  {
    hide EncodeBytes, EncodeText, EncodeUnsigned, ParseBytes, ParseText, ParseUnsigned;
    var domain := GetBytes(Some(|TRANSACTION_DOMAIN|), encoded);
    var version := GetUnsigned(2, domain.rest);
    var chainId := GetText(u, Some(MAX_CHAIN_ID_BYTES), version.rest);
    var publicKey := GetBytes(Some(PUBLIC_KEY_LENGTH), chainId.rest);
    var sender := GetText(u, Some(MAX_ADDRESS_BYTES), publicKey.rest);
    var recipient := GetText(u, Some(MAX_ADDRESS_BYTES), sender.rest);
    var amount := GetUnsigned(8, recipient.rest);
    var fee := GetUnsigned(8, amount.rest);
    var nonce := GetUnsigned(8, fee.rest);
    var validUntil := GetUnsigned(8, nonce.rest);
    var signature := GetBytes(Some(SIGNATURE_LENGTH), validUntil.rest);
    assert EncodeBytes(signature.value).value + [] == EncodeBytes(signature.value).value;
  }

  lemma EncodedTransactionDecodes(u: Unicode, tx: Transaction, encoded: Bytes)
    requires WellFormedTransaction(u, tx) && EncodeTransaction(u, tx) == Some(encoded)
    ensures DecodeTransaction(u, encoded) == Some(tx)
  {
    hide EncodeBytes, EncodeText, EncodeUnsigned, ParseBytes, ParseText, ParseUnsigned;
    assert EncodeBytes(tx.signature).value + [] == EncodeBytes(tx.signature).value;
    var rest := PutBytes(Some(SIGNATURE_LENGTH), tx.signature, []);
    rest := PutUnsigned(8, tx.validUntil, rest);
    rest := PutUnsigned(8, tx.nonce, rest);
    rest := PutUnsigned(8, tx.fee, rest);
    rest := PutUnsigned(8, tx.amount, rest);
    rest := PutText(u, Some(MAX_ADDRESS_BYTES), tx.recipient, rest);
    rest := PutText(u, Some(MAX_ADDRESS_BYTES), tx.sender, rest);
    rest := PutBytes(Some(PUBLIC_KEY_LENGTH), tx.senderPublicKey, rest);
    rest := PutText(u, Some(MAX_CHAIN_ID_BYTES), tx.chainId, rest);
    rest := PutUnsigned(2, tx.version, rest);
    rest := PutBytes(Some(|TRANSACTION_DOMAIN|), TRANSACTION_DOMAIN, rest);
  }

  /** Decoding returns a transaction exactly on the one byte string that encodes it. */
  lemma TransactionCodec(u: Unicode, encoded: Bytes, tx: Transaction)
    ensures DecodeTransaction(u, encoded) == Some(tx)
       <==> WellFormedTransaction(u, tx) && EncodeTransaction(u, tx) == Some(encoded)
  {
    if DecodeTransaction(u, encoded) == Some(tx) {
      DecodedTransactionEncodes(u, encoded, tx);
    }
    if WellFormedTransaction(u, tx) && EncodeTransaction(u, tx) == Some(encoded) {
      EncodedTransactionDecodes(u, tx, encoded);
    }
  }

  /** The bytes a transaction's signature covers. */
  function SigningBytes(u: Unicode, tx: Transaction): Option<Bytes> {
    var domain :- EncodeBytes(TRANSACTION_DOMAIN);
    var version :- EncodeU16(tx.version);
    var chainId :- EncodeText(u, tx.chainId);
    var publicKey :- EncodeBytes(tx.senderPublicKey);
    var sender :- EncodeText(u, tx.sender);
    var recipient :- EncodeText(u, tx.recipient);
    var amount :- EncodeU64(tx.amount);
    var fee :- EncodeU64(tx.fee);
    var nonce :- EncodeU64(tx.nonce);
    var validUntil :- EncodeU64(tx.validUntil);
    Some(domain + (version + (chainId + (publicKey + (sender + (recipient + (amount + (fee + (nonce +
         validUntil)))))))))
  }

  lemma SignatureComesLast(u: Unicode, tx: Transaction)
    requires SigningBytes(u, tx).Some? && EncodeBytes(tx.signature).Some?
    ensures EncodeTransaction(u, tx) == Some(SigningBytes(u, tx).value + EncodeBytes(tx.signature).value)
  {
    hide EncodeBytes, EncodeText, EncodeUnsigned;
    assert EncodeTransaction(u, tx).value == SigningBytes(u, tx).value + EncodeBytes(tx.signature).value;
  }

  /** A signature covers every other field: transactions with the same signing bytes differ at most
      in their signatures. */
  lemma SigningBytesCoverTheRest(u: Unicode, a: Transaction, b: Transaction)
    requires WellFormedTransaction(u, a) && WellFormedTransaction(u, b)
    requires SigningBytes(u, a).Some? && SigningBytes(u, a) == SigningBytes(u, b)
    ensures a.(signature := []) == b.(signature := [])
  {
    hide EncodeText, EncodeUnsigned, DecodeTransaction, EncodeTransaction;
    var x, y := a.(signature := []), b.(signature := []);
    EncodedLengths([], 0);
    assert SigningBytes(u, x) == SigningBytes(u, a) && SigningBytes(u, y) == SigningBytes(u, b);
    SignatureComesLast(u, x);
    SignatureComesLast(u, y);
    TransactionCodec(u, EncodeTransaction(u, x).value, x);
    TransactionCodec(u, EncodeTransaction(u, x).value, y);
  }

  method TransactionFromBytes(u: Unicode, encoded: Bytes) returns (r: Option<Transaction>)
    ensures r == DecodeTransaction(u, encoded)
  {
    hide ParseBytes, ParseText, ParseUnsigned;
    var reader := new CanonicalReader(encoded);
    var domain :- reader.ReadBytes(Some(|TRANSACTION_DOMAIN|));
    if domain != TRANSACTION_DOMAIN {
      return None;
    }
    var version :- reader.ReadUnsigned(2);
    var chainId :- reader.ReadText(u, Some(MAX_CHAIN_ID_BYTES));
    var publicKey :- reader.ReadBytes(Some(PUBLIC_KEY_LENGTH));
    var sender :- reader.ReadText(u, Some(MAX_ADDRESS_BYTES));
    var recipient :- reader.ReadText(u, Some(MAX_ADDRESS_BYTES));
    var amount :- reader.ReadUnsigned(8);
    var fee :- reader.ReadUnsigned(8);
    var nonce :- reader.ReadUnsigned(8);
    var validUntil :- reader.ReadUnsigned(8);
    var signature :- reader.ReadBytes(Some(SIGNATURE_LENGTH));
    var finished := reader.IsFinished();
    if !finished {
      return None;
    }
    r := Some(Transaction(version, chainId, publicKey, sender, recipient, amount, fee, nonce, validUntil,
                          signature));
  }

  // Rewards

  function EncodeReward(u: Unicode, reward: Reward): Option<Bytes> {
    var domain :- EncodeBytes(REWARD_TRANSACTION_DOMAIN);
    var version :- EncodeU16(reward.version);
    var chainId :- EncodeText(u, reward.chainId);
    var height :- EncodeU64(reward.height);
    var miner :- EncodeText(u, reward.miner);
    var amount :- EncodeU64(reward.amount);
    Some(domain + (version + (chainId + (height + (miner + amount)))))
  }

  function DecodeReward(u: Unicode, encoded: Bytes): Option<Reward> {
    var domain :- ParseBytes(Some(|REWARD_TRANSACTION_DOMAIN|), encoded);
    if domain.value != REWARD_TRANSACTION_DOMAIN then None
    else
      var version :- ParseUnsigned(2, domain.rest);
      var chainId :- ParseText(u, Some(MAX_CHAIN_ID_BYTES), version.rest);
      var height :- ParseUnsigned(8, chainId.rest);
      var miner :- ParseText(u, Some(MAX_ADDRESS_BYTES), height.rest);
      var amount :- ParseUnsigned(8, miner.rest);
      if amount.rest != [] then None
      else Some(Reward(version.value, chainId.value, height.value, miner.value, amount.value))
  }

  /** The rewards that decoding can return. */
  predicate WellFormedReward(u: Unicode, reward: Reward) {
    ShortText(u, reward.chainId, MAX_CHAIN_ID_BYTES) && ShortText(u, reward.miner, MAX_ADDRESS_BYTES)
  }

  /** Decoding returns a reward exactly on the one byte string that encodes it. */
  lemma RewardCodec(u: Unicode, encoded: Bytes, reward: Reward)
    ensures DecodeReward(u, encoded) == Some(reward)
       <==> WellFormedReward(u, reward) && EncodeReward(u, reward) == Some(encoded)
  {
    hide EncodeBytes, EncodeText, EncodeUnsigned, ParseBytes, ParseText, ParseUnsigned;
    if DecodeReward(u, encoded) == Some(reward) {
      var domain := GetBytes(Some(|REWARD_TRANSACTION_DOMAIN|), encoded);
      var version := GetUnsigned(2, domain.rest);
      var chainId := GetText(u, Some(MAX_CHAIN_ID_BYTES), version.rest);
      var height := GetUnsigned(8, chainId.rest);
      var miner := GetText(u, Some(MAX_ADDRESS_BYTES), height.rest);
      var amount := GetUnsigned(8, miner.rest);
      assert EncodeU64(amount.value).value + [] == EncodeU64(amount.value).value;
    }
    if WellFormedReward(u, reward) && EncodeReward(u, reward) == Some(encoded) {
      assert EncodeU64(reward.amount).value + [] == EncodeU64(reward.amount).value;
      var rest := PutUnsigned(8, reward.amount, []);
      rest := PutText(u, Some(MAX_ADDRESS_BYTES), reward.miner, rest);
      rest := PutUnsigned(8, reward.height, rest);
      rest := PutText(u, Some(MAX_CHAIN_ID_BYTES), reward.chainId, rest);
      rest := PutUnsigned(2, reward.version, rest);
      rest := PutBytes(Some(|REWARD_TRANSACTION_DOMAIN|), REWARD_TRANSACTION_DOMAIN, rest);
    }
  }

  method RewardFromBytes(u: Unicode, encoded: Bytes) returns (r: Option<Reward>)
    ensures r == DecodeReward(u, encoded)
  {
    hide ParseBytes, ParseText, ParseUnsigned;
    var reader := new CanonicalReader(encoded);
    var domain :- reader.ReadBytes(Some(|REWARD_TRANSACTION_DOMAIN|));
    if domain != REWARD_TRANSACTION_DOMAIN {
      return None;
    }
    var version :- reader.ReadUnsigned(2);
    var chainId :- reader.ReadText(u, Some(MAX_CHAIN_ID_BYTES));
    var height :- reader.ReadUnsigned(8);
    var miner :- reader.ReadText(u, Some(MAX_ADDRESS_BYTES));
    var amount :- reader.ReadUnsigned(8);
    var finished := reader.IsFinished();
    if !finished {
      return None;
    }
    r := Some(Reward(version, chainId, height, miner, amount));
  }

  // Headers

  function EncodeTarget(target: int): Option<Bytes> {
    if 0 < target <= MAX_TARGET then Some(BigEndian(target, TARGET_LENGTH)) else None
  }

  lemma TargetLaw(raw: Bytes, target: int)
    ensures EncodeTarget(target) == Some(raw)
       <==> |raw| == TARGET_LENGTH && FromBigEndian(raw) == target && 0 < target <= MAX_TARGET
  {
    Widths();
    BytesSurvive(raw);
    if 0 < target <= MAX_TARGET {
      NumberSurvives(target, 32);
    }
  }

  function EncodeHeader(u: Unicode, h: Header): Option<Bytes> {
    var domain :- EncodeBytes(BLOCK_HEADER_DOMAIN);
    var version :- EncodeU16(h.version);
    var chainId :- EncodeText(u, h.chainId);
    var height :- EncodeU64(h.height);
    var previous :- EncodeBytes(h.previous);
    var transactionsRoot :- EncodeBytes(h.transactionsRoot);
    var stateRoot :- EncodeBytes(h.stateRoot);
    var timestamp :- EncodeU64(h.timestamp);
    var rawTarget :- EncodeTarget(h.target);
    var target :- EncodeBytes(rawTarget);
    var nonce :- EncodeU64(h.nonce);
    var miner :- EncodeText(u, h.miner);
    Some(domain + (version + (chainId + (height + (previous + (transactionsRoot + (stateRoot + (timestamp +
         (target + (nonce + miner))))))))))
  }

  function DecodeHeader(u: Unicode, encoded: Bytes): Option<Header> {
    var domain :- ParseBytes(Some(|BLOCK_HEADER_DOMAIN|), encoded);
    if domain.value != BLOCK_HEADER_DOMAIN then None
    else
      var version :- ParseUnsigned(2, domain.rest);
      var chainId :- ParseText(u, Some(MAX_CHAIN_ID_BYTES), version.rest);
      var height :- ParseUnsigned(8, chainId.rest);
      var previous :- ParseBytes(Some(HASH_LENGTH), height.rest);
      var transactionsRoot :- ParseBytes(Some(HASH_LENGTH), previous.rest);
      var stateRoot :- ParseBytes(Some(HASH_LENGTH), transactionsRoot.rest);
      var timestamp :- ParseUnsigned(8, stateRoot.rest);
      var target :- ParseBytes(Some(TARGET_LENGTH), timestamp.rest);
      var nonce :- ParseUnsigned(8, target.rest);
      var miner :- ParseText(u, Some(MAX_ADDRESS_BYTES), nonce.rest);
      if miner.rest != [] then None
      else if |previous.value| != HASH_LENGTH || |transactionsRoot.value| != HASH_LENGTH then None
      else if |stateRoot.value| != HASH_LENGTH || |target.value| != TARGET_LENGTH then None
      else if EncodeTarget(FromBigEndian(target.value)).None? then None
      else Some(Header(version.value, chainId.value, height.value, previous.value, transactionsRoot.value,
                       stateRoot.value, timestamp.value, FromBigEndian(target.value), nonce.value,
                       miner.value))
  }

  /** The headers that decoding can return. */
  predicate WellFormedHeader(u: Unicode, h: Header) {
    ShortText(u, h.chainId, MAX_CHAIN_ID_BYTES) && ShortText(u, h.miner, MAX_ADDRESS_BYTES)
  }

  lemma DecodedHeaderEncodes(u: Unicode, encoded: Bytes, h: Header)
    requires DecodeHeader(u, encoded) == Some(h)
    ensures WellFormedHeader(u, h) && EncodeHeader(u, h) == Some(encoded)
  {
    hide EncodeBytes, EncodeText, EncodeUnsigned, EncodeTarget, ParseBytes, ParseText, ParseUnsigned;
    hide FromBigEndian;
    var domain := GetBytes(Some(|BLOCK_HEADER_DOMAIN|), encoded);
    var version := GetUnsigned(2, domain.rest);
    var chainId := GetText(u, Some(MAX_CHAIN_ID_BYTES), version.rest);
    var height := GetUnsigned(8, chainId.rest);
    var previous := GetBytes(Some(HASH_LENGTH), height.rest);
    var transactionsRoot := GetBytes(Some(HASH_LENGTH), previous.rest);
    var stateRoot := GetBytes(Some(HASH_LENGTH), transactionsRoot.rest);
    var timestamp := GetUnsigned(8, stateRoot.rest);
    var target := GetBytes(Some(TARGET_LENGTH), timestamp.rest);
    var nonce := GetUnsigned(8, target.rest);
    var miner := GetText(u, Some(MAX_ADDRESS_BYTES), nonce.rest);
    TargetLaw(EncodeTarget(h.target).value, h.target);
    TargetLaw(target.value, h.target);
    assert EncodeText(u, miner.value).value + [] == EncodeText(u, miner.value).value;
  }

  lemma EncodedHeaderDecodes(u: Unicode, h: Header, encoded: Bytes)
    requires WellFormedHeader(u, h) && EncodeHeader(u, h) == Some(encoded)
    ensures DecodeHeader(u, encoded) == Some(h)
  {
    hide EncodeBytes, EncodeText, EncodeUnsigned, EncodeTarget, ParseBytes, ParseText, ParseUnsigned;
    hide FromBigEndian;
    var rawTarget := EncodeTarget(h.target).value;
    TargetLaw(rawTarget, h.target);
    assert EncodeText(u, h.miner).value + [] == EncodeText(u, h.miner).value;
    var rest := PutText(u, Some(MAX_ADDRESS_BYTES), h.miner, []);
    rest := PutUnsigned(8, h.nonce, rest);
    rest := PutBytes(Some(TARGET_LENGTH), rawTarget, rest);
    rest := PutUnsigned(8, h.timestamp, rest);
    rest := PutBytes(Some(HASH_LENGTH), h.stateRoot, rest);
    rest := PutBytes(Some(HASH_LENGTH), h.transactionsRoot, rest);
    rest := PutBytes(Some(HASH_LENGTH), h.previous, rest);
    rest := PutUnsigned(8, h.height, rest);
    rest := PutText(u, Some(MAX_CHAIN_ID_BYTES), h.chainId, rest);
    rest := PutUnsigned(2, h.version, rest);
    rest := PutBytes(Some(|BLOCK_HEADER_DOMAIN|), BLOCK_HEADER_DOMAIN, rest);
  }

  /** Decoding returns a header exactly on the one byte string that encodes it. */
  lemma HeaderCodec(u: Unicode, encoded: Bytes, h: Header)
    ensures DecodeHeader(u, encoded) == Some(h)
       <==> WellFormedHeader(u, h) && EncodeHeader(u, h) == Some(encoded)
  {
    if DecodeHeader(u, encoded) == Some(h) {
      DecodedHeaderEncodes(u, encoded, h);
    }
    if WellFormedHeader(u, h) && EncodeHeader(u, h) == Some(encoded) {
      EncodedHeaderDecodes(u, h, encoded);
    }
  }

  method HeaderFromBytes(u: Unicode, encoded: Bytes) returns (r: Option<Header>)
    ensures r == DecodeHeader(u, encoded)
  {
    hide ParseBytes, ParseText, ParseUnsigned, FromBigEndian, EncodeTarget;
    var reader := new CanonicalReader(encoded);
    var domain :- reader.ReadBytes(Some(|BLOCK_HEADER_DOMAIN|));
    if domain != BLOCK_HEADER_DOMAIN {
      return None;
    }
    var version :- reader.ReadUnsigned(2);
    var chainId :- reader.ReadText(u, Some(MAX_CHAIN_ID_BYTES));
    var height :- reader.ReadUnsigned(8);
    var previous :- reader.ReadBytes(Some(HASH_LENGTH));
    var transactionsRoot :- reader.ReadBytes(Some(HASH_LENGTH));
    var stateRoot :- reader.ReadBytes(Some(HASH_LENGTH));
    var timestamp :- reader.ReadUnsigned(8);
    var rawTarget :- reader.ReadBytes(Some(TARGET_LENGTH));
    var target := FromBigEndian(rawTarget);
    var nonce :- reader.ReadUnsigned(8);
    var miner :- reader.ReadText(u, Some(MAX_ADDRESS_BYTES));
    var finished := reader.IsFinished();
    if !finished {
      return None;
    }
    if |previous| != HASH_LENGTH || |transactionsRoot| != HASH_LENGTH || |stateRoot| != HASH_LENGTH {
      return None;
    }
    if |rawTarget| != TARGET_LENGTH || EncodeTarget(target).None? {
      return None;
    }
    r := Some(Header(version, chainId, height, previous, transactionsRoot, stateRoot, timestamp, target,
                     nonce, miner));
  }
}
