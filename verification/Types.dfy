/** The ledger's values: accounts, transactions, blocks, and the network they belong to.

    Hashing, signature checking and address decoding are fields of `Network`, so that every
    statement of the project holds for all choices of them. Module `Commitments` gives the
    concrete choice made by the node and proves what the roots commit to. */
module Types {

  type byte = b: int | 0 <= b < 256
  type Bytes = seq<byte>
  /** A text field as bytes, short enough for its 32-bit length prefix. */
  type Text = t: Bytes | |t| <= 0xFFFF_FFFF
  /** A SHA-256 digest. */
  type Hash = h: Bytes | |h| == 32 witness seq(32, _ => 0)

  const U16_MAX: int := 0xFFFF
  const U32_MAX: int := 0xFFFF_FFFF
  const U64_MAX: int := 0xFFFF_FFFF_FFFF_FFFF
  const MAX_TARGET: int :=
    0xFFFF_FFFF_FFFF_FFFF_FFFF_FFFF_FFFF_FFFF_FFFF_FFFF_FFFF_FFFF_FFFF_FFFF_FFFF_FFFF
  const HASH_LENGTH := 32
  const PUBLIC_KEY_LENGTH := 32
  const SIGNATURE_LENGTH := 64

  type u64 = n: int | 0 <= n <= U64_MAX

  predicate InU64(n: int) {
    0 <= n <= U64_MAX
  }

  datatype Option<+T> = None | Some(value: T) {
    predicate IsFailure() {
      None?
    }

    function PropagateFailure<U>(): Option<U>
      requires None?
    {
      None
    }

    function Extract(): T
      requires Some?
    {
      value
    }
  }

  /** Why an operation refused its input. */
  datatype Fault =
    // transaction.py
    | HeightOutOfRange | UnsupportedVersion | WrongNetwork | BadPublicKey | BadSignatureLength
    | FieldOutOfRange | ZeroAmount | AmountPlusFeeOverflow | Expired | InvalidAddress
    | SenderMismatch | BadSignature
    // state.py
    | AlreadyConfirmed | WrongNonce | NonceExhausted | InsufficientBalance
    | RecipientOverflow | FeeOverflow | RewardOutOfRange | RewardOverflow
    // consensus.py
    | SupplyOutOfRange | HeightExhausted | TimestampOutOfRange | TimestampNotIncreasing
    | TooManyTransactions | TargetOutOfRange | TargetMismatch | WrongHeight | WrongPreviousHash
    | NotEncodable | WrongTransactionsRoot | InsufficientWork | WrongRewardVersion
    | WrongRewardHeight | WrongRewardRecipient | BlockRewardOverflow | WrongRewardAmount
    | WrongStateRoot | NotGenesis
    // chain.py
    | AlreadyKnown | UnknownParent
    // mempool.py and node.py
    | PoolFull | AlreadyPending | NonceConflict | SenderFull | PendingGap | OverReserved
    | BadCount | BadLifetime | NoNonceFound
    // storage.py
    | IntegrityError | WriteFailed

  datatype Outcome = Pass | Fail(fault: Fault)

  datatype Result<+T> = Ok(value: T) | Err(fault: Fault)

  /** A balance and the exact next transaction nonce. */
  datatype Account = Account(balance: u64, nonce: u64)

  datatype Transaction = Transaction(
    version: int,
    chainId: Text,
    senderPublicKey: Bytes,
    sender: Text,
    recipient: Text,
    amount: int,
    fee: int,
    nonce: int,
    validUntil: int,
    signature: Bytes)

  datatype Reward = Reward(version: int, chainId: Text, height: int, miner: Text, amount: int)

  datatype Header = Header(
    version: int,
    chainId: Text,
    height: int,
    previous: Hash,
    transactionsRoot: Hash,
    stateRoot: Hash,
    timestamp: int,
    target: int,
    nonce: int,
    miner: Text)

  datatype Block = Block(header: Header, reward: Reward, transactions: seq<Transaction>) {
    function WithNonce(nonce: int): Block {
      this.(header := header.(nonce := nonce))
    }
  }

  /** One isolated network: its identifier, its hashes, its signature scheme and its addresses. */
  datatype Network = Network(
    chainId: Text,
    txid: Transaction -> Hash,
    blockHash: Header -> Hash,
    transactionsRoot: (Reward, seq<Transaction>) -> Hash,
    stateRoot: map<Text, Account> -> Hash,
    hashValue: Hash -> nat,
    validAddress: Text -> bool,
    addressOf: Bytes -> Text,
    verifies: Transaction -> bool,
    genesisMiner: Text)
  {
    function HashOf(b: Block): Hash {
      blockHash(b.header)
    }
  }
}
