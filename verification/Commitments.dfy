/** What the hashes of a block commit to.

    This module fixes the hashes that the rest of the project leaves open: SHA-256 (any function,
    here) over the canonical encodings, and Merkle roots over those. Absent a collision among the
    strings actually hashed, equal transaction roots mean equal bodies, equal state roots mean
    equal account maps, and equal block hashes mean equal blocks. */
module Commitments {
  import opened Types
  import opened Transactions
  import opened State
  import opened Consensus
  import opened Branches
  import opened Encoding
  import opened Codecs
  import opened Merkle
  import opened Protocol
  import opened Sorting

  const STATE_LEAF_DOMAIN: Bytes := Ascii("OURCOIN:STATE:ACCOUNT:V1")

  // The strings that are hashed

  function OrEmpty(encoded: Option<Bytes>): Bytes {
    if encoded.Some? then encoded.value else []
  }

  function TransactionString(u: Unicode, tx: Transaction): Bytes {
    OrEmpty(EncodeTransaction(u, tx))
  }

  function RewardString(u: Unicode, reward: Reward): Bytes {
    OrEmpty(EncodeReward(u, reward))
  }

  function HeaderString(u: Unicode, h: Header): Bytes {
    OrEmpty(EncodeHeader(u, h))
  }

  function EncodeAccount(u: Unicode, address: Text, account: Account): Option<Bytes> {
    var domain :- EncodeBytes(STATE_LEAF_DOMAIN);
    var rawAddress :- EncodeText(u, address);
    var balance :- EncodeU64(account.balance);
    var nonce :- EncodeU64(account.nonce);
    Some(domain + (rawAddress + (balance + nonce)))
  }

  function AccountString(u: Unicode, address: Text, account: Account): Bytes {
    OrEmpty(EncodeAccount(u, address, account))
  }

  function BodyStrings(u: Unicode, reward: Reward, txs: seq<Transaction>): (strings: seq<Bytes>)
    ensures |strings| == 1 + |txs|
  {
    [RewardString(u, reward)] + seq<Bytes>(|txs|, i requires 0 <= i < |txs| => TransactionString(u, txs[i]))
  }

  ghost predicate Ascending(addresses: seq<Text>) {
    forall i, j :: 0 <= i < j < |addresses| ==> LexLess(addresses[i], addresses[j])
  }

  ghost predicate Least(keys: set<Text>, least: Text) {
    least in keys && forall k: Text :: k in keys && k != least ==> LexLess(least, k)
  }

  lemma {:induction false} LeastExists(keys: set<Text>)
    requires keys != {}
    ensures exists least :: Least(keys, least)
    decreases keys
  {
    var pick: Text :| pick in keys;
    if keys == {pick} {
      assert Least(keys, pick);
    } else {
      LeastExists(keys - {pick});
      var other: Text :| Least(keys - {pick}, other);
      LexIsTotal(pick, other);
      if LexLess(pick, other) {
        forall k: Text | k in keys && k != pick
          ensures LexLess(pick, k)
        {
          if k != other {
            LexIsTransitive(pick, other, k);
          }
        }
        assert Least(keys, pick);
      } else {
        assert Least(keys, other);
      }
    }
  }

  /** The addresses in ascending order. */
  ghost function InOrder(keys: set<Text>): (addresses: seq<Text>)
    ensures Ascending(addresses)
    ensures forall k: Text :: k in addresses <==> k in keys
  {
    if keys == {} then []
    else
      LeastExists(keys);
      var least: Text :| Least(keys, least);
      [least] + InOrder(keys - {least})
  }

  lemma InTail(a: seq<Text>, k: Text)
    requires Ascending(a) && a != []
    ensures k in a[1..] <==> k in a && k != a[0]
  {
    if k in a[1..] {
      var i :| 0 <= i < |a[1..]| && a[1..][i] == k;
      assert a[i + 1] == k && LexLess(a[0], a[i + 1]);
      LexIsStrict(a[0], k);
    }
    assert a == [a[0]] + a[1..];
  }

  lemma {:induction false} AscendingIsUnique(a: seq<Text>, b: seq<Text>)
    requires Ascending(a) && Ascending(b) && forall k: Text :: k in a <==> k in b
    ensures a == b
  {
    assert a != [] ==> a[0] in a;
    assert b != [] ==> b[0] in b;
    if a != [] {
      var i :| 0 <= i < |b| && b[i] == a[0];
      var j :| 0 <= j < |a| && a[j] == b[0];
      LexIsStrict(a[0], b[0]);
      assert a[0] == b[0];
      forall k: Text
        ensures k in a[1..] <==> k in b[1..]
      {
        InTail(a, k);
        InTail(b, k);
      }
      AscendingIsUnique(a[1..], b[1..]);
    }
  }

  ghost function AccountStrings(u: Unicode, accounts: map<Text, Account>): (strings: seq<Bytes>)
    ensures |strings| == |InOrder(accounts.Keys)|
  {
    var addresses := InOrder(accounts.Keys);
    seq<Bytes>(|addresses|, i requires 0 <= i < |addresses| =>
      assert addresses[i] in addresses; AccountString(u, addresses[i], accounts[addresses[i]]))
  }

  // The hashes the node uses

  function Hashes(sha: Digest, strings: seq<Bytes>): (hashes: seq<Hash>)
    ensures |hashes| == |strings| && forall i :: 0 <= i < |strings| ==> hashes[i] == sha(strings[i])
  {
    seq<Hash>(|strings|, i requires 0 <= i < |strings| => sha(strings[i]))
  }

  function TransactionsRoot(sha: Digest, u: Unicode, reward: Reward, txs: seq<Transaction>): Hash {
    Root(sha, Hashes(sha, BodyStrings(u, reward, txs)))
  }

  ghost function StateRoot(sha: Digest, u: Unicode, accounts: map<Text, Account>): Hash {
    Root(sha, Hashes(sha, AccountStrings(u, accounts)))
  }

  /** The network with its hashes fixed; signatures and addresses are as in `net`. */
  ghost function Concrete(sha: Digest, u: Unicode, net: Network): Network {
    net.(txid := tx => sha(TransactionString(u, tx)),
         blockHash := h => sha(HeaderString(u, h)),
         transactionsRoot := (reward, txs) => TransactionsRoot(sha, u, reward, txs),
         stateRoot := accounts => StateRoot(sha, u, accounts),
         hashValue := h => FromBigEndian(h))
  }

  /** The state root as the node computes it: sort the accounts by address, hash each, build the
      Merkle root. */
  method ComputeStateRoot(sha: Digest, u: Unicode, accounts: map<Text, Account>) returns (root: Hash)
    requires forall a :: a in accounts ==> EncodeText(u, a).Some?
    ensures root == StateRoot(sha, u, accounts)
  {
    hide EncodeAccount, EncodeText, Root, AccountStrings;
    var addresses := SortedAddresses(accounts);
    var leaves: seq<Bytes> := [];
    for i := 0 to |addresses|
      invariant |leaves| == i
      invariant forall k :: 0 <= k < i ==> leaves[k] == sha(AccountStrings(u, accounts)[k])
    {
      AccountEncodes(u, accounts, i);
      var leaf := sha(EncodeAccount(u, addresses[i], accounts[addresses[i]]).value);
      assert leaf == sha(AccountStrings(u, accounts)[i]);
      leaves := leaves + [leaf];
    }
    assert leaves == Hashes(sha, AccountStrings(u, accounts));
    var computed := MerkleRoot(sha, leaves);
    root := computed.value;
  }

  /** Every key once. */
  ghost predicate Lists(listed: seq<Text>, keys: set<Text>) {
    Distinct(listed) && forall a: Text :: a in listed <==> a in keys
  }

  lemma ListsOneMore(listed: seq<Text>, a: Text, keys: set<Text>)
    requires Lists(listed, keys) && a !in keys
    ensures Lists(listed + [a], keys + {a})
  {
  }

  method SortedAddresses(accounts: map<Text, Account>) returns (addresses: seq<Text>)
    ensures addresses == InOrder(accounts.Keys)
  {
    hide StrictOrder, Sorted;
    var remaining := accounts.Keys;
    var listed: seq<Text> := [];
    while remaining != {}
      invariant Lists(listed, accounts.Keys - remaining) && remaining <= accounts.Keys
      decreases remaining
    {
      var a :| a in remaining;
      ListsOneMore(listed, a, accounts.Keys - remaining);
      assert accounts.Keys - (remaining - {a}) == accounts.Keys - remaining + {a};
      listed := listed + [a];
      remaining := remaining - {a};
    }
    LexIsAStrictOrder();
    addresses := InsertionSort(listed, (a: Text, b: Text) => LexLess(a, b));
    SortedIsAscending(listed, addresses, accounts.Keys);
  }

  lemma LexIsAStrictOrder()
    ensures StrictOrder((a: Text, b: Text) => LexLess(a, b))
  {
    forall a: Text, b: Text
      ensures LexLess(a, b) ==> !LexLess(b, a)
    {
      LexIsStrict(a, b);
    }
    forall a: Text, b: Text, c: Text | LexLess(a, b) && LexLess(b, c)
      ensures LexLess(a, c)
    {
      LexIsTransitive(a, b, c);
    }
  }

  lemma SortedIsAscending(listed: seq<Text>, addresses: seq<Text>, keys: set<Text>)
    requires Lists(listed, keys)
    requires multiset(addresses) == multiset(listed)
    requires Sorted(addresses, (a: Text, b: Text) => LexLess(a, b))
    ensures addresses == InOrder(keys)
  {
    SameItemsDistinct(listed, addresses);
    SameItems(listed, addresses);
    forall i, j | 0 <= i < j < |addresses|
      ensures LexLess(addresses[i], addresses[j])
    {
      LexIsTotal(addresses[i], addresses[j]);
    }
    AscendingIsUnique(addresses, InOrder(keys));
  }

  lemma AccountEncodes(u: Unicode, accounts: map<Text, Account>, i: nat)
    requires i < |InOrder(accounts.Keys)|
    requires forall a :: a in accounts ==> EncodeText(u, a).Some?
    ensures var address := InOrder(accounts.Keys)[i];
            && address in accounts && EncodeAccount(u, address, accounts[address]).Some?
            && AccountStrings(u, accounts)[i] == EncodeAccount(u, address, accounts[address]).value
  {
    hide EncodeText, EncodeBytes, EncodeUnsigned;
    var address := InOrder(accounts.Keys)[i];
    assert address in InOrder(accounts.Keys);
    EncodedLengths(STATE_LEAF_DOMAIN, 0);
    EncodableRanges(accounts[address].balance);
    EncodableRanges(accounts[address].nonce);
  }

  // Commitment, for any strings that cannot be taken for inner nodes

  /** Every string hashed to turn `strings` into a root. */
  function Hashed(sha: Digest, strings: seq<Bytes>): set<Bytes> {
    (set i | 0 <= i < |strings| :: strings[i]) + Inputs(sha, Hashes(sha, strings))
  }

  /** No inner node is hashed from such a string: those start with 1, or are a single 0. */
  predicate LeafString(s: Bytes) {
    |s| > 1 && s[0] == 0
  }

  lemma {:induction false} InputsAreNotLeaves(sha: Digest, level: seq<Hash>, x: Bytes)
    requires x in Inputs(sha, level)
    ensures !LeafString(x)
    decreases |level|
  {
    if |level| > 1 && x in Inputs(sha, Above(sha, level)) {
      InputsAreNotLeaves(sha, Above(sha, level), x);
    }
  }

  lemma HashedStringsAreNotNodes(sha: Digest, strings: seq<Bytes>, level: seq<Hash>, all: set<Bytes>)
    requires CollisionFree(sha, all) && Inputs(sha, level) <= all
    requires forall i :: 0 <= i < |strings| ==> strings[i] in all && LeafString(strings[i])
    ensures LeavesAreNotNodes(sha, Hashes(sha, strings), Inputs(sha, level))
  {
    hide Inputs;
    forall i, x | 0 <= i < |strings| && x in Inputs(sha, level)
      ensures Hashes(sha, strings)[i] != sha(x)
    {
      InputsAreNotLeaves(sha, level, x);
    }
  }

  /** Lists of distinct leaf strings with equal roots are equal. */
  lemma StringsAreCommitted(sha: Digest, a: seq<Bytes>, b: seq<Bytes>)
    requires Distinct(a) && Distinct(b)
    requires forall i :: 0 <= i < |a| ==> LeafString(a[i])
    requires forall i :: 0 <= i < |b| ==> LeafString(b[i])
    requires CollisionFree(sha, Hashed(sha, a) + Hashed(sha, b))
    requires Root(sha, Hashes(sha, a)) == Root(sha, Hashes(sha, b))
    ensures a == b
  {
    hide Inputs, Root;
    var all := Hashed(sha, a) + Hashed(sha, b);
    var x, y := Hashes(sha, a), Hashes(sha, b);
    assert forall i :: 0 <= i < |a| ==> a[i] in all;
    assert forall i :: 0 <= i < |b| ==> b[i] in all;
    HashedStringsAreNotNodes(sha, a, x, all);
    HashedStringsAreNotNodes(sha, a, y, all);
    HashedStringsAreNotNodes(sha, b, x, all);
    HashedStringsAreNotNodes(sha, b, y, all);
    DistinctLeavesAreCommitted(sha, x, y);
    forall i | 0 <= i < |a|
      ensures a[i] == b[i]
    {
      assert x[i] == y[i];
    }
  }

  // Every leaf string starts with the length of its domain

  /** The first four bytes of a byte field shorter than 256 are three zeros and its length. */
  lemma FieldStart(value: Bytes, rest: Bytes)
    requires 0 < |value| < 256
    ensures EncodeBytes(value).Some?
    ensures var s := EncodeBytes(value).value + rest; LeafString(s) && |s| > 4 && s[3] == |value|
  {
    EncodedLengths(value, 0);
    var n := |value|;
    assert n / 256 == 0 && n % 256 == n;
    assert BigEndian(0, 3) == [0, 0, 0];
    assert BigEndian(n, 4) == BigEndian(0, 3) + [n];
  }

  lemma TransactionStart(u: Unicode, tx: Transaction)
    requires EncodeTransaction(u, tx).Some?
    ensures LeafString(TransactionString(u, tx)) && |TransactionString(u, tx)| > 3
    ensures TransactionString(u, tx)[3] == 22
  {
    hide EncodeBytes, EncodeText, EncodeUnsigned;
    var s := TransactionString(u, tx);
    FieldStart(TRANSACTION_DOMAIN, s[|EncodeBytes(TRANSACTION_DOMAIN).value|..]);
  }

  lemma RewardStart(u: Unicode, reward: Reward)
    requires EncodeReward(u, reward).Some?
    ensures LeafString(RewardString(u, reward)) && |RewardString(u, reward)| > 3
    ensures RewardString(u, reward)[3] == 17
  {
    hide EncodeBytes, EncodeText, EncodeUnsigned;
    var s := RewardString(u, reward);
    FieldStart(REWARD_TRANSACTION_DOMAIN, s[|EncodeBytes(REWARD_TRANSACTION_DOMAIN).value|..]);
  }

  lemma HeaderStart(u: Unicode, h: Header)
    requires EncodeHeader(u, h).Some?
    ensures LeafString(HeaderString(u, h)) && |HeaderString(u, h)| > 3
    ensures HeaderString(u, h)[3] == 23
  {
    hide EncodeBytes, EncodeText, EncodeUnsigned, EncodeTarget;
    var s := HeaderString(u, h);
    FieldStart(BLOCK_HEADER_DOMAIN, s[|EncodeBytes(BLOCK_HEADER_DOMAIN).value|..]);
  }

  /** No string is hashed for two purposes: transactions, rewards, headers, accounts and inner nodes
      never share one. */
  lemma DomainsAreSeparate(u: Unicode, tx: Transaction, reward: Reward, h: Header, address: Text, account: Account,
                           l: Hash, r: Hash)
    requires EncodeTransaction(u, tx).Some? && EncodeReward(u, reward).Some? && EncodeHeader(u, h).Some?
    requires EncodeAccount(u, address, account).Some?
    ensures Distinct([TransactionString(u, tx), RewardString(u, reward), HeaderString(u, h),
                      AccountString(u, address, account), NodeInput(l, r), [EMPTY_DOMAIN]])
  {
    hide TransactionString, RewardString, HeaderString, AccountString;
    TransactionStart(u, tx);
    RewardStart(u, reward);
    HeaderStart(u, h);
    AccountStart(u, address, account);
    assert NodeInput(l, r)[0] == 1;
  }

  lemma AccountStart(u: Unicode, address: Text, account: Account)
    requires EncodeAccount(u, address, account).Some?
    ensures LeafString(AccountString(u, address, account)) && |AccountString(u, address, account)| > 3
    ensures AccountString(u, address, account)[3] == 24
  {
    hide EncodeBytes, EncodeText, EncodeUnsigned;
    var s := AccountString(u, address, account);
    FieldStart(STATE_LEAF_DOMAIN, s[|EncodeBytes(STATE_LEAF_DOMAIN).value|..]);
  }

  // Equal strings come from equal values

  lemma SameTransactionString(u: Unicode, a: Transaction, b: Transaction)
    requires WellFormedTransaction(u, a) && EncodeTransaction(u, a).Some?
    requires WellFormedTransaction(u, b) && EncodeTransaction(u, b).Some?
    requires TransactionString(u, a) == TransactionString(u, b)
    ensures a == b
  {
    TransactionCodec(u, TransactionString(u, a), a);
    TransactionCodec(u, TransactionString(u, a), b);
  }

  lemma SameRewardString(u: Unicode, a: Reward, b: Reward)
    requires WellFormedReward(u, a) && EncodeReward(u, a).Some?
    requires WellFormedReward(u, b) && EncodeReward(u, b).Some?
    requires RewardString(u, a) == RewardString(u, b)
    ensures a == b
  {
    RewardCodec(u, RewardString(u, a), a);
    RewardCodec(u, RewardString(u, a), b);
  }

  lemma SameHeaderString(u: Unicode, a: Header, b: Header)
    requires WellFormedHeader(u, a) && EncodeHeader(u, a).Some?
    requires WellFormedHeader(u, b) && EncodeHeader(u, b).Some?
    requires HeaderString(u, a) == HeaderString(u, b)
    ensures a == b
  {
    HeaderCodec(u, HeaderString(u, a), a);
    HeaderCodec(u, HeaderString(u, a), b);
  }

  predicate CanonicalAddress(u: Unicode, address: Text) {
    ShortText(u, address, MAX_ADDRESS_BYTES)
  }

  lemma SameAccountString(u: Unicode, a: Text, x: Account, b: Text, y: Account)
    requires CanonicalAddress(u, a) && CanonicalAddress(u, b)
    requires AccountString(u, a, x) == AccountString(u, b, y)
    ensures a == b && x == y
  {
    AccountFields(u, a, x);
    AccountFields(u, b, y);
  }

  /** Reading an account string field by field gives the address, the balance and the nonce. */
  lemma AccountFields(u: Unicode, a: Text, x: Account)
    requires CanonicalAddress(u, a)
    ensures EncodeAccount(u, a, x).Some?
    ensures var domain := ParseBytes(None, AccountString(u, a, x));
            domain.Some? &&
            var address := ParseText(u, None, domain.value.rest);
            address.Some? && address.value.value == a &&
            var balance := ParseUnsigned(8, address.value.rest);
            balance.Some? && balance.value.value == x.balance &&
            var nonce := ParseUnsigned(8, balance.value.rest);
            nonce.Some? && nonce.value.value == x.nonce
  {
    hide EncodeBytes, EncodeText, EncodeUnsigned, ParseBytes, ParseText, ParseUnsigned;
    EncodedLengths(STATE_LEAF_DOMAIN, 0);
    ShortTextEncodes(u, a, MAX_ADDRESS_BYTES);
    EncodableRanges(x.balance);
    EncodableRanges(x.nonce);
    assert EncodeU64(x.nonce).value + [] == EncodeU64(x.nonce).value;
    var rest := PutUnsigned(8, x.nonce, []);
    rest := PutUnsigned(8, x.balance, rest);
    rest := PutText(u, None, a, rest);
    rest := PutBytes(None, STATE_LEAF_DOMAIN, rest);
  }

  // Roots commit to bodies and to account maps

  /** A body that can be encoded and holds no transaction twice. */
  ghost predicate CanonicalBody(u: Unicode, reward: Reward, txs: seq<Transaction>) {
    && WellFormedReward(u, reward) && EncodeReward(u, reward).Some?
    && (forall i :: 0 <= i < |txs| ==>
          WellFormedTransaction(u, txs[i]) && EncodeTransaction(u, txs[i]).Some?)
    && Distinct(txs)
  }

  lemma BodyStringsAreLeaves(u: Unicode, reward: Reward, txs: seq<Transaction>)
    requires CanonicalBody(u, reward, txs)
    ensures Distinct(BodyStrings(u, reward, txs))
    ensures forall i :: 0 <= i < |txs| + 1 ==> LeafString(BodyStrings(u, reward, txs)[i])
  {
    hide TransactionString, RewardString, LeafString, EncodeTransaction, EncodeReward, WellFormedTransaction;
    var strings := BodyStrings(u, reward, txs);
    RewardStart(u, reward);
    forall i | 0 < i < |strings|
      ensures LeafString(strings[i]) && strings[i] != strings[0]
    {
      TransactionStart(u, txs[i - 1]);
      assert strings[i] == TransactionString(u, txs[i - 1]) && strings[0] == RewardString(u, reward);
    }
    forall i, j | 0 <= i < j < |strings|
      ensures strings[i] != strings[j]
    {
      if i > 0 && strings[i] == strings[j] {
        SameTransactionString(u, txs[i - 1], txs[j - 1]);
      }
    }
  }

  /** Bodies with equal transaction roots are equal: same reward, same transactions, same order. */
  lemma BodyIsCommitted(sha: Digest, u: Unicode, r1: Reward, txs1: seq<Transaction>, r2: Reward, txs2: seq<Transaction>)
    requires CanonicalBody(u, r1, txs1) && CanonicalBody(u, r2, txs2)
    requires CollisionFree(sha, Hashed(sha, BodyStrings(u, r1, txs1)) + Hashed(sha, BodyStrings(u, r2, txs2)))
    requires TransactionsRoot(sha, u, r1, txs1) == TransactionsRoot(sha, u, r2, txs2)
    ensures r1 == r2 && txs1 == txs2
  {
    hide TransactionString, RewardString, LeafString, EncodeTransaction, EncodeReward, WellFormedTransaction, Hashed;
    var a, b := BodyStrings(u, r1, txs1), BodyStrings(u, r2, txs2);
    BodyStringsAreLeaves(u, r1, txs1);
    BodyStringsAreLeaves(u, r2, txs2);
    StringsAreCommitted(sha, a, b);
    assert a[0] == b[0];
    SameRewardString(u, r1, r2);
    forall i | 0 <= i < |txs1|
      ensures txs1[i] == txs2[i]
    {
      assert a[i + 1] == b[i + 1];
      SameTransactionString(u, txs1[i], txs2[i]);
    }
  }

  ghost predicate CanonicalAccounts(u: Unicode, accounts: map<Text, Account>) {
    forall a :: a in accounts ==> CanonicalAddress(u, a)
  }

  lemma AccountStringsAreLeaves(u: Unicode, accounts: map<Text, Account>)
    requires CanonicalAccounts(u, accounts)
    ensures Distinct(AccountStrings(u, accounts))
    ensures forall i :: 0 <= i < |AccountStrings(u, accounts)| ==> LeafString(AccountStrings(u, accounts)[i])
  {
    hide AccountString, LeafString, EncodeAccount, CanonicalAddress;
    var addresses, strings := InOrder(accounts.Keys), AccountStrings(u, accounts);
    forall i | 0 <= i < |strings|
      ensures LeafString(strings[i])
    {
      assert addresses[i] in addresses;
      AccountFields(u, addresses[i], accounts[addresses[i]]);
      AccountStart(u, addresses[i], accounts[addresses[i]]);
    }
    forall i, j | 0 <= i < j < |strings|
      ensures strings[i] != strings[j]
    {
      assert addresses[i] in addresses && addresses[j] in addresses;
      LexIsStrict(addresses[i], addresses[j]);
      if strings[i] == strings[j] {
        SameAccountString(u, addresses[i], accounts[addresses[i]], addresses[j], accounts[addresses[j]]);
      }
    }
  }

  /** States with equal roots hold the same accounts with the same balances and nonces. */
  lemma StateIsCommitted(sha: Digest, u: Unicode, a: map<Text, Account>, b: map<Text, Account>)
    requires CanonicalAccounts(u, a) && CanonicalAccounts(u, b)
    requires CollisionFree(sha, Hashed(sha, AccountStrings(u, a)) + Hashed(sha, AccountStrings(u, b)))
    requires StateRoot(sha, u, a) == StateRoot(sha, u, b)
    ensures a == b
  {
    hide AccountString, LeafString, EncodeAccount, CanonicalAddress, Hashed;
    AccountStringsAreLeaves(u, a);
    AccountStringsAreLeaves(u, b);
    StringsAreCommitted(sha, AccountStrings(u, a), AccountStrings(u, b));
    var x, y := InOrder(a.Keys), InOrder(b.Keys);
    forall i | 0 <= i < |x|
      ensures x[i] == y[i] && x[i] in a && x[i] in b && a[x[i]] == b[x[i]]
    {
      assert x[i] in x && y[i] in y;
      assert AccountStrings(u, a)[i] == AccountStrings(u, b)[i];
      SameAccountString(u, x[i], a[x[i]], y[i], b[y[i]]);
    }
    assert x == y;
    assert a.Keys == b.Keys;
  }

  // The tip hash commits to the whole branch

  /** Every string hashed for one block: its header and its body. */
  function BlockStrings(sha: Digest, u: Unicode, b: Block): set<Bytes> {
    {HeaderString(u, b.header)} + Hashed(sha, BodyStrings(u, b.reward, b.transactions))
  }

  function BranchStrings(sha: Digest, u: Unicode, blocks: seq<Block>): set<Bytes> {
    set i, x | 0 <= i < |blocks| && x in BlockStrings(sha, u, blocks[i]) :: x
  }

  /** What makes a block's encodings canonical; every accepted block is so. */
  ghost predicate CanonicalBlock(sha: Digest, u: Unicode, b: Block) {
    && WellFormedHeader(u, b.header) && EncodeHeader(u, b.header).Some?
    && CanonicalBody(u, b.reward, b.transactions)
    && b.header.transactionsRoot == TransactionsRoot(sha, u, b.reward, b.transactions)
  }

  lemma DistinctFromTxids(net: Network, txs: seq<Transaction>)
    requires DistinctTxids(net, txs)
    ensures Distinct(txs)
  {
    forall i, j | 0 <= i < j < |txs|
      ensures txs[i] != txs[j]
    {
      assert net.txid(txs[i]) != net.txid(txs[j]);
    }
  }

  lemma ValidTransactionsEncode(net: Network, u: Unicode, txs: seq<Transaction>, height: int)
    requires WireNetwork(net, u) && forall i :: 0 <= i < |txs| ==> ValidAt(net, txs[i], height)
    ensures forall i :: 0 <= i < |txs| ==>
              WellFormedTransaction(u, txs[i]) && EncodeTransaction(u, txs[i]).Some?
  {
    hide WireNetwork, ValidAt, WellFormedTransaction, EncodeTransaction;
    forall i | 0 <= i < |txs|
      ensures WellFormedTransaction(u, txs[i]) && EncodeTransaction(u, txs[i]).Some?
    {
      ValidTransactionTravels(net, u, txs[i], height);
    }
  }

  lemma AcceptedBlockIsCanonical(sha: Digest, u: Unicode, base: Network, blocks: seq<Block>, k: nat)
    requires WireNetwork(base, u) && ValidBranch(Concrete(sha, u, base), blocks) && k < |blocks|
    ensures CanonicalBlock(sha, u, blocks[k])
  {
    hide EncodeHeader, EncodeReward, EncodeTransaction, WellFormedTransaction, TransactionsRoot, StateRoot;
    hide ApplyAll, RunBranch;
    var net, b := Concrete(sha, u, base), blocks[k];
    PrefixIsValid(net, blocks, 1);
    if k == 0 {
      FirstBlockIsGenesis(net, blocks);
    } else {
      var s := StepOfBranch(net, blocks, k);
      BatchIsValid(net, s.ledger, b.transactions, b.header.height);
      ValidTransactionsEncode(net, u, b.transactions, b.header.height);
      BatchIsFresh(net, s.ledger, b.transactions, b.header.height);
      DistinctFromTxids(net, b.transactions);
    }
    HeaderAndRewardEncode(net, u, b);
  }

  lemma FirstBlockIsGenesis(net: Network, blocks: seq<Block>)
    requires ValidBranch(net, blocks)
    ensures |blocks| > 0 && blocks[0] == GenesisBlock(net)
  {
    BranchHeaders(net, blocks);
  }

  /** Canonical blocks with the same hash are the same block. */
  lemma BlockHashIsInjective(sha: Digest, u: Unicode, a: Block, b: Block)
    requires CanonicalBlock(sha, u, a) && CanonicalBlock(sha, u, b)
    requires CollisionFree(sha, BlockStrings(sha, u, a) + BlockStrings(sha, u, b))
    requires sha(HeaderString(u, a.header)) == sha(HeaderString(u, b.header))
    ensures a == b
  {
    hide HeaderString, Hashed, BodyStrings, CanonicalBody, WellFormedHeader, EncodeHeader, TransactionsRoot;
    SameHeaderString(u, a.header, b.header);
    BodyIsCommitted(sha, u, a.reward, a.transactions, b.reward, b.transactions);
  }

  lemma StringsOfBlock(sha: Digest, u: Unicode, blocks: seq<Block>, k: nat)
    requires k < |blocks|
    ensures BlockStrings(sha, u, blocks[k]) <= BranchStrings(sha, u, blocks)
  {
  }

  lemma StringsOfFront(sha: Digest, u: Unicode, blocks: seq<Block>)
    requires |blocks| > 0
    ensures BranchStrings(sha, u, blocks[..|blocks| - 1]) <= BranchStrings(sha, u, blocks)
  {
    hide BlockStrings;
  }

  /** Equal tip hashes mean equal tip blocks, at the same height and with the same parent hash. */
  lemma TipBlocksAgree(sha: Digest, u: Unicode, base: Network, a: seq<Block>, b: seq<Block>)
    requires WireNetwork(base, u) && |a| > 0 && |b| > 0
    requires ValidBranch(Concrete(sha, u, base), a) && ValidBranch(Concrete(sha, u, base), b)
    requires CollisionFree(sha, BranchStrings(sha, u, a) + BranchStrings(sha, u, b))
    requires Concrete(sha, u, base).HashOf(a[|a| - 1]) == Concrete(sha, u, base).HashOf(b[|b| - 1])
    ensures |a| == |b| && a[|a| - 1] == b[|b| - 1]
  {
    hide HeaderString, BlockStrings, BranchStrings, CanonicalBlock, WireNetwork, RunBranch, Hashed;
    var net, n, m := Concrete(sha, u, base), |a| - 1, |b| - 1;
    AcceptedBlockIsCanonical(sha, u, base, a, n);
    AcceptedBlockIsCanonical(sha, u, base, b, m);
    StringsOfBlock(sha, u, a, n);
    StringsOfBlock(sha, u, b, m);
    BlockHashIsInjective(sha, u, a[n], b[m]);
    HeightIsPosition(net, a);
    HeightIsPosition(net, b);
  }

  lemma FrontOfBranch(net: Network, a: seq<Block>)
    requires ValidBranch(net, a) && |a| > 1
    ensures ValidBranch(net, a[..|a| - 1])
    ensures a[|a| - 1].header.previous == net.HashOf(a[..|a| - 1][|a| - 2])
  {
    hide RunBranch, TargetsFollow;
    BranchHeaders(net, a);
    PrefixIsValid(net, a, |a| - 1);
  }

  /** Valid branches whose tips have the same hash are the same branch, block for block. */
  lemma {:induction false} TipHashCommitsToBranch(sha: Digest, u: Unicode, base: Network, a: seq<Block>, b: seq<Block>)
    requires WireNetwork(base, u) && |a| > 0 && |b| > 0
    requires ValidBranch(Concrete(sha, u, base), a) && ValidBranch(Concrete(sha, u, base), b)
    requires CollisionFree(sha, BranchStrings(sha, u, a) + BranchStrings(sha, u, b))
    requires Concrete(sha, u, base).HashOf(a[|a| - 1]) == Concrete(sha, u, base).HashOf(b[|b| - 1])
    ensures a == b
    decreases |a|
  {
    hide HeaderString, BranchStrings, WireNetwork, ValidBranch, Concrete;
    var net, n := Concrete(sha, u, base), |a| - 1;
    TipBlocksAgree(sha, u, base, a, b);
    if n > 0 {
      FrontOfBranch(net, a);
      FrontOfBranch(net, b);
      StringsOfFront(sha, u, a);
      StringsOfFront(sha, u, b);
      TipHashCommitsToBranch(sha, u, base, a[..n], b[..n]);
    }
    assert a == a[..n] + [a[n]] && b == b[..n] + [b[n]];
  }

  /** Valid branches, whatever their blocks, whose states have the same root hold the same accounts. */
  lemma StateRootsOfBranches(sha: Digest, u: Unicode, base: Network, a: seq<Block>, b: seq<Block>)
    requires WireNetwork(base, u)
    requires ValidBranch(Concrete(sha, u, base), a) && ValidBranch(Concrete(sha, u, base), b)
    requires var x := RunBranch(Concrete(sha, u, base), a).value.ledger.accounts;
             var y := RunBranch(Concrete(sha, u, base), b).value.ledger.accounts;
             && CollisionFree(sha, Hashed(sha, AccountStrings(u, x)) + Hashed(sha, AccountStrings(u, y)))
             && StateRoot(sha, u, x) == StateRoot(sha, u, y)
    ensures RunBranch(Concrete(sha, u, base), a).value.ledger.accounts
         == RunBranch(Concrete(sha, u, base), b).value.ledger.accounts
  {
    hide RunBranch, StateRoot, Hashed, AccountStrings, Root;
    var net := Concrete(sha, u, base);
    BranchCounts(net, a);
    BranchCounts(net, b);
    StateIsCommitted(sha, u, RunBranch(net, a).value.ledger.accounts, RunBranch(net, b).value.ledger.accounts);
  }
}
