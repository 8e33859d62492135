/** The order in which blocks are offered matters only as far as parents must come before children.

    Unlike in `ChainRuns`, nothing is assumed about which offers a node accepts: valid and invalid blocks
    may be mixed, and so may copies of one block with foreign bodies, even ones with the same Merkle root.
    Absent a hash collision between valid branches, what ends up in the tree is exactly what occurs in the
    offers as a valid branch in order. */
module ArrivalOrder {
  import opened Types
  import opened Consensus
  import opened Branches
  import opened BlockTree
  import opened ChainRuns
  import opened Encoding
  import opened Merkle
  import opened Protocol
  import opened Commitments
  import opened Sorting

  /** A valid branch whose blocks, genesis apart, are all among the offers. */
  ghost predicate OfferedBranch(net: Network, offers: seq<Block>, branch: seq<Block>) {
    && |branch| > 0 && ValidBranch(net, branch)
    && forall k :: 0 < k < |branch| ==> branch[k] in offers
  }

  predicate SameTipHash(net: Network, a: seq<Block>, b: seq<Block>)
    requires |a| > 0 && |b| > 0
  {
    net.HashOf(a[|a| - 1]) == net.HashOf(b[|b| - 1])
  }

  /** The hash of the last block tells the valid branches among the offers apart. */
  ghost predicate NoCollision(net: Network, offers: seq<Block>) {
    forall a, b ::
      OfferedBranch(net, offers, a) && OfferedBranch(net, offers, b) && SameTipHash(net, a, b) ==> a == b
  }

  /** The branch occurs, parents first, among the first `n` offers. */
  ghost predicate InOrder(offers: seq<Block>, n: nat, branch: seq<Block>)
    requires n <= |offers|
    decreases |branch|
  {
    |branch| > 1 ==>
      exists i :: 0 <= i < n && offers[i] == branch[|branch| - 1] && InOrder(offers, i, branch[..|branch| - 1])
  }

  /** The tree holds the whole branch, under the hash of its last block. */
  ghost predicate HoldsBranch(net: Network, t: Tree, branch: seq<Block>)
    requires Linked(net, t)
  {
    && |branch| > 0 && net.HashOf(branch[|branch| - 1]) in t.entries
    && BlocksOf(net, t, net.HashOf(branch[|branch| - 1])) == branch
  }

  // Occurring in order

  lemma {:induction false} InOrderIsMonotone(offers: seq<Block>, n: nat, offers': seq<Block>, n': nat,
                                             branch: seq<Block>)
    requires n <= |offers| && n <= n' <= |offers'| && offers[..n] == offers'[..n] && InOrder(offers, n, branch)
    ensures InOrder(offers', n', branch)
    decreases |branch|
  {
    if |branch| > 1 {
      var i :| 0 <= i < n && offers[i] == branch[|branch| - 1] && InOrder(offers, i, branch[..|branch| - 1]);
      assert offers[i] == offers[..n][i] == offers'[i];
      assert offers[..i] == offers[..n][..i] == offers'[..i];
      InOrderIsMonotone(offers, i, offers', i, branch[..|branch| - 1]);
    }
  }

  lemma {:induction false} InOrderWasOffered(offers: seq<Block>, n: nat, branch: seq<Block>)
    requires n <= |offers| && InOrder(offers, n, branch)
    ensures forall k :: 0 < k < |branch| ==> branch[k] in offers
    decreases |branch|
  {
    if |branch| > 1 {
      var front := branch[..|branch| - 1];
      var i :| 0 <= i < n && offers[i] == branch[|branch| - 1] && InOrder(offers, i, front);
      InOrderWasOffered(offers, i, front);
      assert forall k :: 0 < k < |front| ==> branch[k] == front[k];
    }
  }

  // What a run holds

  lemma {:induction false} RunExtends(net: Network, offers: seq<Block>, i: nat)
    requires i <= |offers|
    ensures Extends(Run(net, offers[..i]), Run(net, offers))
    decreases |offers|
  {
    hide Attempt;
    if i < |offers| {
      RunExtends(net, offers[..|offers| - 1], i);
      assert offers[..|offers| - 1][..i] == offers[..i];
    } else {
      assert offers[..i] == offers;
    }
  }

  lemma RunExtendsRun(net: Network, offers: seq<Block>, i: nat, n: nat)
    requires i <= n <= |offers|
    ensures Extends(Run(net, offers[..i]), Run(net, offers[..n]))
  {
    RunExtends(net, offers[..n], i);
    assert offers[..n][..i] == offers[..i];
  }

  lemma NextRun(net: Network, offers: seq<Block>, i: nat)
    requires i < |offers|
    ensures Run(net, offers[..i + 1]) == Attempt(net, Run(net, offers[..i]), offers[i])
  {
    hide Attempt;
    assert offers[..i + 1][..i] == offers[..i];
  }

  lemma GenesisBranch(net: Network, offers: seq<Block>)
    ensures var t := Run(net, offers);
            GenesisHash(net) in t.entries && BlocksOf(net, t, GenesisHash(net)) == [GenesisBlock(net)]
  {
    RunExtends(net, offers, 0);
    assert offers[..0] == [];
    PathsAreStable(net, GenesisTree(net), Run(net, offers), GenesisHash(net));
  }

  /** Every branch in the tree of a run is valid and occurs in order among the offers. */
  lemma {:induction false} EntriesAreInOrder(net: Network, offers: seq<Block>, h: Hash)
    requires h in Run(net, offers).entries
    ensures var branch := BlocksOf(net, Run(net, offers), h);
            && ValidBranch(net, branch) && InOrder(offers, |offers|, branch)
            && net.HashOf(branch[|branch| - 1]) == h
  {
    hide RunBranch, BlocksOf, Path, NewEntry, InOrder, EntryLinked, EntryHoldsItsBranch, Attempt;
    var t := Run(net, offers);
    NamedBranch(net, t, h);
    if offers == [] {
      GenesisBranch(net, []);
      AloneIsInOrder([], 0, [GenesisBlock(net)]);
    } else {
      var n := |offers| - 1;
      var before, b := Run(net, offers[..n]), offers[n];
      if h in before.entries {
        EntriesAreInOrder(net, offers[..n], h);
        PathsAreStable(net, before, t, h);
        InOrderIsMonotone(offers[..n], n, offers, n + 1, BlocksOf(net, t, h));
      } else {
        NewBranch(net, before, b, h);
        EntriesAreInOrder(net, offers[..n], b.header.previous);
        InOrderIsMonotone(offers[..n], n, offers, n, BlocksOf(net, before, b.header.previous));
        OneMoreInOrder(offers, n, BlocksOf(net, before, b.header.previous), b);
      }
    }
  }

  lemma NamedBranch(net: Network, t: Tree, h: Hash)
    requires ValidTree(net, t) && h in t.entries
    ensures ValidBranch(net, BlocksOf(net, t, h)) && net.HashOf(t.entries[h].block) == h
  {
    hide RunBranch, BlocksOf;
    assert EntryHoldsItsBranch(net, t, h) && EntryLinked(net, t.entries, h);
  }

  lemma NewBranch(net: Network, t: Tree, b: Block, h: Hash)
    requires ValidTree(net, t) && h !in t.entries && h in Attempt(net, t, b).entries
    ensures b.header.previous in t.entries
    ensures BlocksOf(net, Attempt(net, t, b), h) == BlocksOf(net, t, b.header.previous) + [b]
  {
    hide RunBranch, BlocksOf, Path, NewEntry;
    NewEntryIsNamed(net, t, b);
    NewBlocks(net, t, b);
  }

  lemma AloneIsInOrder(offers: seq<Block>, n: nat, branch: seq<Block>)
    requires n <= |offers| && |branch| <= 1
    ensures InOrder(offers, n, branch)
  {
  }

  lemma OneMoreInOrder(offers: seq<Block>, n: nat, front: seq<Block>, b: Block)
    requires n < |offers| && offers[n] == b && InOrder(offers, n, front)
    ensures InOrder(offers, n + 1, front + [b])
  {
    assert (front + [b])[..|front + [b]| - 1] == front;
  }

  /** So each of them is an offered branch. */
  lemma EntriesWereOffered(net: Network, offers: seq<Block>, n: nat, h: Hash)
    requires n <= |offers| && h in Run(net, offers[..n]).entries
    ensures var branch := BlocksOf(net, Run(net, offers[..n]), h);
            OfferedBranch(net, offers, branch) && net.HashOf(branch[|branch| - 1]) == h
  {
    hide Run, RunBranch, BlocksOf, InOrder;
    EntriesAreInOrder(net, offers[..n], h);
    InOrderWasOffered(offers[..n], n, BlocksOf(net, Run(net, offers[..n]), h));
    assert forall b :: b in offers[..n] ==> b in offers;
  }

  /** Conversely a valid branch that occurs in order is in the tree from its last offer on. */
  lemma {:induction false} BranchIsIn(net: Network, offers: seq<Block>, n: nat, branch: seq<Block>)
    requires NoCollision(net, offers) && n <= |offers|
    requires OfferedBranch(net, offers, branch) && InOrder(offers, n, branch)
    ensures HoldsBranch(net, Run(net, offers[..n]), branch)
    decreases |branch|
  {
    hide RunBranch, Run, BlocksOf, NoCollision;
    if |branch| == 1 {
      BranchHeaders(net, branch);
      GenesisBranch(net, offers[..n]);
    } else {
      var front := branch[..|branch| - 1];
      var i :| 0 <= i < n && offers[i] == branch[|branch| - 1] && InOrder(offers, i, front);
      PrefixIsValid(net, branch, |front|);
      BranchIsIn(net, offers, i, front);
      OfferOfNextBlock(net, offers, i, branch);
      RunExtendsRun(net, offers, i + 1, n);
      PathsAreStable(net, Run(net, offers[..i + 1]), Run(net, offers[..n]), net.HashOf(offers[i]));
    }
  }

  /** A block offered on top of a branch that is in the tree is in the tree afterwards, if it is valid. */
  lemma OfferOfNextBlock(net: Network, offers: seq<Block>, i: nat, branch: seq<Block>)
    requires NoCollision(net, offers) && i < |offers| && |branch| > 1 && offers[i] == branch[|branch| - 1]
    requires OfferedBranch(net, offers, branch)
    requires HoldsBranch(net, Run(net, offers[..i]), branch[..|branch| - 1])
    ensures HoldsBranch(net, Run(net, offers[..i + 1]), branch)
  {
    hide RunBranch, Run, BlocksOf, OfferedBranch, NewEntry, SwitchBetween, TargetsFollow;
    var b, front := branch[|branch| - 1], branch[..|branch| - 1];
    var t, h := Run(net, offers[..i]), net.HashOf(b);
    assert ValidBranch(net, branch) by { OfferedIsValid(net, offers, branch); }
    BranchHeaders(net, branch);
    assert branch == front + [b];
    NextRun(net, offers, i);
    if h in t.entries {
      EntriesWereOffered(net, offers, i, h);
      assert SameTipHash(net, BlocksOf(net, t, h), branch);
      PathsAreStable(net, t, Run(net, offers[..i + 1]), h);
    } else {
      AcceptedIffBranchValid(net, t, b);
      NewBlocks(net, t, b);
    }
  }

  lemma OfferedIsValid(net: Network, offers: seq<Block>, branch: seq<Block>)
    requires OfferedBranch(net, offers, branch)
    ensures ValidBranch(net, branch)
  {
  }

  /** After any offers whatever, the branches in the tree are exactly the valid ones that occur in order. */
  lemma HeldIffInOrder(net: Network, offers: seq<Block>, branch: seq<Block>)
    requires NoCollision(net, offers)
    ensures HoldsBranch(net, Run(net, offers), branch) <==>
              |branch| > 0 && ValidBranch(net, branch) && InOrder(offers, |offers|, branch)
  {
    hide RunBranch, Run, BlocksOf, InOrder, NoCollision;
    if HoldsBranch(net, Run(net, offers), branch) {
      EntriesAreInOrder(net, offers, net.HashOf(branch[|branch| - 1]));
    }
    if |branch| > 0 && ValidBranch(net, branch) && InOrder(offers, |offers|, branch) {
      InOrderWasOffered(offers, |offers|, branch);
      assert offers[..|offers|] == offers;
      BranchIsIn(net, offers, |offers|, branch);
    }
  }

  // Two nodes

  /** The same valid branches occur in order in both lists. */
  ghost predicate SameBranchesInOrder(net: Network, xs: seq<Block>, ys: seq<Block>) {
    forall branch :: |branch| > 0 && ValidBranch(net, branch) ==>
      (InOrder(xs, |xs|, branch) <==> InOrder(ys, |ys|, branch))
  }

  lemma FewerOffersFewerCollisions(net: Network, all: seq<Block>, offers: seq<Block>)
    requires NoCollision(net, all) && forall b :: b in offers ==> b in all
    ensures NoCollision(net, offers)
  {
    hide RunBranch;
    assert forall branch :: OfferedBranch(net, offers, branch) ==> OfferedBranch(net, all, branch);
  }

  lemma HeldByEqualEntries(net: Network, t: Tree, t': Tree, branch: seq<Block>)
    requires Linked(net, t) && Linked(net, t') && t.entries == t'.entries && HoldsBranch(net, t, branch)
    ensures HoldsBranch(net, t', branch)
  {
    hide EntryLinked, BlocksOf;
    PathsAreStable(net, t, t', net.HashOf(branch[|branch| - 1]));
  }

  lemma InOrderIsHeld(net: Network, xs: seq<Block>, ys: seq<Block>, h: Hash)
    requires NoCollision(net, ys) && SameBranchesInOrder(net, xs, ys) && h in Run(net, xs).entries
    ensures h in Run(net, ys).entries && Run(net, ys).entries[h].block == Run(net, xs).entries[h].block
  {
    hide Run, RunBranch, BlocksOf, InOrder, NoCollision;
    var branch := BlocksOf(net, Run(net, xs), h);
    EntriesAreInOrder(net, xs, h);
    HeldIffInOrder(net, ys, branch);
  }

  /** Two nodes end up with the same entries if and only if the same valid branches were offered to them
      in order. */
  lemma EntriesAgreeIff(net: Network, xs: seq<Block>, ys: seq<Block>)
    requires NoCollision(net, xs + ys)
    ensures Run(net, xs).entries == Run(net, ys).entries <==> SameBranchesInOrder(net, xs, ys)
  {
    hide Run, RunBranch, BlocksOf, InOrder, NoCollision;
    FewerOffersFewerCollisions(net, xs + ys, xs);
    FewerOffersFewerCollisions(net, xs + ys, ys);
    var t, t' := Run(net, xs), Run(net, ys);
    if t.entries == t'.entries {
      forall branch | |branch| > 0 && ValidBranch(net, branch)
        ensures InOrder(xs, |xs|, branch) <==> InOrder(ys, |ys|, branch)
      {
        HeldIffInOrder(net, xs, branch);
        HeldIffInOrder(net, ys, branch);
        if HoldsBranch(net, t, branch) { HeldByEqualEntries(net, t, t', branch); }
        if HoldsBranch(net, t', branch) { HeldByEqualEntries(net, t', t, branch); }
      }
    }
    if SameBranchesInOrder(net, xs, ys) {
      assert SameBlocks(t, t') by {
        forall h | h in t.entries ensures h in t'.entries && t'.entries[h].block == t.entries[h].block {
          InOrderIsHeld(net, xs, ys, h);
        }
        forall h | h in t'.entries ensures h in t.entries {
          InOrderIsHeld(net, ys, xs, h);
        }
      }
      RunsWithTheSameBlocksAgree(net, xs, ys);
    }
  }

  // Parents first

  /** On every offered branch the last block is never offered before its parent. */
  ghost predicate ParentsFirst(net: Network, offers: seq<Block>) {
    forall branch, i ::
      (OfferedBranch(net, offers, branch) && |branch| > 2 && 0 <= i < |offers| && offers[i] == branch[|branch| - 1])
      ==> branch[|branch| - 2] in offers[..i]
  }

  /** Then every offered branch occurs in order. */
  lemma {:induction false} ParentsFirstInOrder(net: Network, offers: seq<Block>, n: nat, branch: seq<Block>)
    requires ParentsFirst(net, offers) && OfferedBranch(net, offers, branch) && n <= |offers|
    requires |branch| > 1 ==> branch[|branch| - 1] in offers[..n]
    ensures InOrder(offers, n, branch)
    decreases |branch|
  {
    hide RunBranch;
    if |branch| > 1 {
      var front := branch[..|branch| - 1];
      var i :| 0 <= i < n && offers[i] == branch[|branch| - 1];
      PrefixIsValid(net, branch, |front|);
      ParentsFirstInOrder(net, offers, i, front);
    }
  }

  lemma OrderedAlike(net: Network, xs: seq<Block>, ys: seq<Block>)
    requires (forall b :: b in xs <==> b in ys) && ParentsFirst(net, xs) && ParentsFirst(net, ys)
    ensures SameBranchesInOrder(net, xs, ys)
  {
    hide RunBranch, InOrder, ParentsFirst;
    assert xs[..|xs|] == xs && ys[..|ys|] == ys;
    forall branch | |branch| > 0 && ValidBranch(net, branch)
      ensures InOrder(xs, |xs|, branch) <==> InOrder(ys, |ys|, branch)
    {
      if InOrder(xs, |xs|, branch) {
        InOrderWasOffered(xs, |xs|, branch);
        ParentsFirstInOrder(net, ys, |ys|, branch);
      }
      if InOrder(ys, |ys|, branch) {
        InOrderWasOffered(ys, |ys|, branch);
        ParentsFirstInOrder(net, xs, |xs|, branch);
      }
    }
  }

  /** Two nodes that are offered the same blocks, in any two orders with parents first, end up with the
      same entries and tips of the same work, and with the same tip unless two entries share that work. */
  lemma OrderOfOffersDoesNotMatter(net: Network, xs: seq<Block>, ys: seq<Block>)
    requires forall b :: b in xs <==> b in ys
    requires ParentsFirst(net, xs) && ParentsFirst(net, ys) && NoCollision(net, xs)
    ensures var t, t' := Run(net, xs), Run(net, ys);
            && t.entries == t'.entries && t.Tip().record.work == t'.Tip().record.work
            && (t.tip == t'.tip
                || exists h, h' :: h in t.entries && h' in t.entries && h != h'
                     && t.entries[h].record.work == t.entries[h'].record.work == t.Tip().record.work)
  {
    hide Run, RunBranch, ParentsFirst, NoCollision, SameBranchesInOrder;
    OrderedAlike(net, xs, ys);
    FewerOffersFewerCollisions(net, xs, xs + ys);
    EntriesAgreeIff(net, xs, ys);
    RunsWithTheSameBlocksAgree(net, xs, ys);
  }

  // The node's own hashes

  /** With the node's own hashes two offered branches are told apart unless strings hashed for the two
      collide. */
  lemma HashesSeparateBranches(sha: Digest, u: Unicode, base: Network, offers: seq<Block>)
    requires WireNetwork(base, u)
    requires forall a, b :: OfferedBranch(Concrete(sha, u, base), offers, a)
                         && OfferedBranch(Concrete(sha, u, base), offers, b)
                         && SameTipHash(Concrete(sha, u, base), a, b)
                         ==> CollisionFree(sha, BranchStrings(sha, u, a) + BranchStrings(sha, u, b))
    ensures NoCollision(Concrete(sha, u, base), offers)
  {
    hide WireNetwork, RunBranch, BranchStrings, CollisionFree, Concrete;
    var net := Concrete(sha, u, base);
    forall a, b | OfferedBranch(net, offers, a) && OfferedBranch(net, offers, b) && SameTipHash(net, a, b)
      ensures a == b
    {
      TipHashCommitsToBranch(sha, u, base, a, b);
    }
  }

  /** A copy of a block with its last transaction repeated may have the same roots and the same hash
      without any collision. It does no harm among the offers: no valid branch ends in it. */
  lemma RepeatedCopyEndsNoBranch(sha: Digest, u: Unicode, base: Network, b: Block, x: Transaction, y: Transaction,
                                 branch: seq<Block>)
    requires WireNetwork(base, u) && b.transactions == [x, y]
    requires |branch| > 0 && ValidBranch(Concrete(sha, u, base), branch)
    ensures var net, copy := Concrete(sha, u, base), b.(transactions := [x, y, y]);
            && net.HashOf(copy) == net.HashOf(b)
            && net.transactionsRoot(copy.reward, copy.transactions) == net.transactionsRoot(b.reward, [x, y])
            && branch[|branch| - 1] != copy
  {
    hide WireNetwork, RunBranch, HeaderString, RewardString, TransactionString, Root;
    var leaves := Hashes(sha, BodyStrings(u, b.reward, [x, y]));
    RepeatedLastLeafIsInvisible(sha, leaves[0], leaves[1], leaves[2]);
    assert leaves == [leaves[0], leaves[1], leaves[2]];
    assert Hashes(sha, BodyStrings(u, b.reward, [x, y, y])) == [leaves[0], leaves[1], leaves[2], leaves[2]];
    AcceptedBlockIsCanonical(sha, u, base, branch, |branch| - 1);
    assert !Distinct([x, y, y]) by {
      assert [x, y, y][1] == [x, y, y][2];
    }
  }
}
