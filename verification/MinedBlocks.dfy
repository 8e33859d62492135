/** Mining with the node's own hashes: a mined block is never one the node already knows. */
module MinedBlocks {
  import opened Types
  import opened Consensus
  import opened Branches
  import opened BlockTree
  import opened PendingPool
  import opened Encoding
  import opened Merkle
  import opened Protocol
  import opened Commitments
  import opened Node

  /** The branch that ends in the mined block. */
  ghost function MinedBranch(net: Network, t: Tree, b: Block): (blocks: seq<Block>)
    requires Linked(net, t)
    ensures |blocks| > 0 && blocks[|blocks| - 1] == b
  {
    BlocksOf(net, t, t.tip) + [b]
  }

  lemma MinedBranchIsValid(net: Network, t: Tree, p: Pool, b: Block, txs: seq<Transaction>, miner: Text,
                           timestamp: Option<int>, limit: int)
    requires ValidTree(net, t) && InU64(b.header.nonce) && Mined(net, b)
    requires CandidateWas(net, t, p, b, txs, miner, timestamp, limit)
    ensures ValidBranch(net, MinedBranch(net, t, b))
  {
    hide Candidate, Execute, TargetAfter, RunBranch, BlocksOf;
    var e, blocks := t.Tip(), BlocksOf(net, t, t.tip);
    assert EntryHoldsItsBranch(net, t, t.tip);
    CandidateFields(net, e.block, e.ledger, e.record.supply, b, txs, miner, CandidateTime(e, timestamp),
                    Some(TargetAfter(blocks)));
    MinedCandidateIsValid(net, b, e.block, e.ledger, e.record.supply, Some(TargetAfter(blocks)));
    RunBranchExtends(net, blocks, b);
  }

  /** Absent a collision among the strings hashed for the mined branch and for the known branch of the
      same hash, there is no such known branch: the mined block is new. */
  lemma MinedBlockIsNew(sha: Digest, u: Unicode, base: Network, t: Tree, p: Pool, b: Block, txs: seq<Transaction>,
                        miner: Text, timestamp: Option<int>, limit: int)
    requires WireNetwork(base, u) && ValidTree(Concrete(sha, u, base), t)
    requires InU64(b.header.nonce) && Mined(Concrete(sha, u, base), b)
    requires CandidateWas(Concrete(sha, u, base), t, p, b, txs, miner, timestamp, limit)
    requires var net := Concrete(sha, u, base);
             net.HashOf(b) in t.entries ==>
               CollisionFree(sha, BranchStrings(sha, u, MinedBranch(net, t, b)) +
                                  BranchStrings(sha, u, BlocksOf(net, t, net.HashOf(b))))
    ensures Concrete(sha, u, base).HashOf(b) !in t.entries
  {
    hide CandidateWas, Concrete, WireNetwork, BranchStrings, CollisionFree, RunBranch, BlocksOf, Mined;
    var net := Concrete(sha, u, base);
    var h := net.HashOf(b);
    if h in t.entries {
      MinedBranchIsValid(net, t, p, b, txs, miner, timestamp, limit);
      assert EntryHoldsItsBranch(net, t, h) && EntryLinked(net, t.entries, h);
      TipHashCommitsToBranch(sha, u, base, MinedBranch(net, t, b), BlocksOf(net, t, h));
      KnownTipHasNoKnownChild(net, t, b);
    }
  }

  /** A branch one block longer than the active one cannot be in the tree: it would outweigh the tip. */
  lemma KnownTipHasNoKnownChild(net: Network, t: Tree, b: Block)
    requires ValidTree(net, t) && net.HashOf(b) in t.entries && ValidBranch(net, MinedBranch(net, t, b))
    ensures BlocksOf(net, t, net.HashOf(b)) != MinedBranch(net, t, b)
  {
    hide RunBranch, BlocksOf;
    var h, front := net.HashOf(b), BlocksOf(net, t, t.tip);
    assert EntryHoldsItsBranch(net, t, h) && EntryHoldsItsBranch(net, t, t.tip);
    WorkGrows(net, MinedBranch(net, t, b));
    assert MinedBranch(net, t, b)[..|front|] == front;
  }

  /** So with the node's own hashes mining fails only for want of a nonce. */
  lemma MiningOnlyRunsOutOfNonces(sha: Digest, u: Unicode, base: Network, t: Tree, p: Pool, miner: Text,
                                  timestamp: Option<int>, limit: int, fault: Fault, t': Tree, p': Pool)
    requires WireNetwork(base, u) && ValidTree(Concrete(sha, u, base), t)
    requires MiningOutcome(Concrete(sha, u, base), t, p, miner, timestamp, limit, Err(fault), t', p')
    requires var net := Concrete(sha, u, base);
             forall b, txs :: Collides(net, t, p, b, txs, miner, timestamp, limit) ==>
               CollisionFree(sha, BranchStrings(sha, u, MinedBranch(net, t, b)) +
                                  BranchStrings(sha, u, BlocksOf(net, t, net.HashOf(b))))
    ensures fault == NoNonceFound && t' == t && p' == p
  {
    hide CandidateWas, Concrete, WireNetwork, BranchStrings, CollisionFree, BlocksOf, Mined, EntryLinked;
    var net := Concrete(sha, u, base);
    forall b, txs
      ensures !Collides(net, t, p, b, txs, miner, timestamp, limit)
    {
      if Collides(net, t, p, b, txs, miner, timestamp, limit) {
        MinedBlockIsNew(sha, u, base, t, p, b, txs, miner, timestamp, limit);
      }
    }
  }
}
