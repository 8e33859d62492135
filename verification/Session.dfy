/** A whole synchronization session with one peer whose chain stays fixed: the request machine of
    `PeerRequests` and the rounds of `SyncRounds` run together, from HELLO on.

    The node is connected to this peer alone, every write succeeds and its database commits. The theorems
    count the GET_BLOCKS messages until the session is over, and show how it ends. */
module Session {
  import opened Types
  import opened Consensus
  import opened Branches
  import opened BlockTree
  import opened ChainRuns
  import opened Locator
  import opened SyncRounds
  import opened PeerRequests
  import opened P2P

  /** The node's tree, its side of the connection, and how many GET_BLOCKS it has sent. */
  datatype Talk = Talk(tree: Tree, peer: Peer, sent: nat)

  ghost predicate TalkIsValid(net: Network, s: Talk) {
    ValidTree(net, s.tree)
  }

  function Written(l: Link, e: Event): nat {
    if Sends(l, e) then 1 else 0
  }

  /** One block message, as `P2P.P2PNode.HandleBlock` treats it. */
  ghost function Handle(net: Network, s: Talk, b: Block): (s': Talk)
    requires TalkIsValid(net, s)
    ensures TalkIsValid(net, s') && s'.tree == Attempt(net, s.tree, b)
  {
    var l, e := Link(s.peer, s.tree.Tip().record.work), BlockEvent(net, s.tree, b, true, true, false);
    Talk(Attempt(net, s.tree, b), Step(l, e).peer, s.sent + Written(l, e))
  }

  ghost function HandleAll(net: Network, s: Talk, blocks: seq<Block>): (s': Talk)
    requires TalkIsValid(net, s)
    ensures TalkIsValid(net, s') && s'.tree == Deliver(net, s.tree, blocks)
  {
    if blocks == [] then s
    else Handle(net, HandleAll(net, s, blocks[..|blocks| - 1]), blocks[|blocks| - 1])
  }

  /** The peer's summary, as `P2P.P2PNode.HandleSyncComplete` treats it. */
  ghost function Conclude(net: Network, s: Talk, r: Tree): (s': Talk)
    requires TalkIsValid(net, s) && ValidTree(net, r)
    ensures TalkIsValid(net, s') && s'.tree == s.tree
  {
    var l := Link(s.peer, s.tree.Tip().record.work);
    var e := SyncComplete(r.Tip().record.work, Contradicts(s.tree, SummaryOf(net, r)), true);
    Talk(s.tree, Step(l, e).peer, s.sent + Written(l, e))
  }

  /** The peer's answer to the open request: its batch after the matched block, then its summary. */
  ghost function Answered(net: Network, s: Talk, r: Tree): (s': Talk)
    requires TalkIsValid(net, s) && ValidTree(net, r)
    ensures TalkIsValid(net, s')
  {
    if s.peer.closed || !s.peer.outstanding then s
    else Conclude(net, HandleAll(net, s, BatchAfter(ActiveBlocks(net, r), Matched(net, s.tree, r))), r)
  }

  /** The session after HELLO and `count` answers. */
  ghost function Session(net: Network, t: Tree, r: Tree, count: nat): (s: Talk)
    requires ValidTree(net, t) && ValidTree(net, r)
    ensures TalkIsValid(net, s)
  {
    if count == 0 then
      var l, e := Link(NEW_PEER, t.Tip().record.work), HelloReceived(r.Tip().record.work, true);
      Talk(t, Step(l, e).peer, Written(l, e))
    else Answered(net, Session(net, t, r, count - 1), r)
  }

  /** A request has just been sent to a peer that claims more than the local work. */
  ghost predicate Waiting(s: Talk, claimed: int)
    requires s.tree.tip in s.tree.entries
  {
    s.peer == Peer(Some(claimed), true, 0, s.tree.Tip().record.work, false) && claimed > s.tree.Tip().record.work
  }

  // The blocks of an answer

  /** A block of the peer's chain on a parent the node has is accepted, unless it is known. */
  lemma PathBlockEvent(net: Network, t: Tree, r: Tree, j: nat)
    requires ValidTree(net, t) && ValidTree(net, r) && SharedHistory(net, t, r)
    requires 0 < j < |ActiveHashes(net, r)| && ActiveHashes(net, r)[j - 1] in t.entries
    ensures var b, t' := ActiveBlocks(net, r)[j], Attempt(net, t, ActiveBlocks(net, r)[j]);
            && (ActiveHashes(net, r)[j] in t.entries ==>
                  t' == t && BlockEvent(net, t, b, true, true, false) == BlockKnown)
            && (ActiveHashes(net, r)[j] !in t.entries ==>
                  t' != t && BlockEvent(net, t, b, true, true, false).BlockAccepted?)
  {
    hide RunBranch, BlocksOf, EntryHoldsItsBranch, EntryLinked, ActiveHashes, ActiveBlocks, Insert, Attempt;
    var b := ActiveBlocks(net, r)[j];
    StepOfPath(net, r, j);
    AttemptIsInsert(net, t, b);
    if ActiveHashes(net, r)[j] !in t.entries {
      AcceptedIffBranchValid(net, t, b);
      DeliverOne(net, t, r, j);
    }
  }

  /** While a request is open, what an accepted or known block does to the connection. */
  lemma HandledBlock(net: Network, s: Talk, r: Tree, j: nat)
    requires TalkIsValid(net, s) && ValidTree(net, r) && SharedHistory(net, s.tree, r)
    requires 0 < j < |ActiveHashes(net, r)| && ActiveHashes(net, r)[j - 1] in s.tree.entries
    requires s.peer.advertised.Some? && s.peer.outstanding && !s.peer.closed
    ensures var s' := Handle(net, s, ActiveBlocks(net, r)[j]);
            && s'.sent == s.sent
            && s'.peer == s.peer.(accepted := s.peer.accepted + if s'.tree == s.tree then 0 else 1)
  {
    hide BlockEvent, Attempt, ActiveHashes, ActiveBlocks, SharedHistory, ValidTree;
    TipIsKnown(net, s.tree);
    TipIsKnown(net, r);
    PathBlockEvent(net, s.tree, r, j);
  }

  /** A stretch of the peer's chain: nothing is sent, and the request counts at least one block exactly if
      something was new. */
  lemma {:induction false} HandledStretch(net: Network, s: Talk, r: Tree, common: nat, end: nat)
    requires TalkIsValid(net, s) && ValidTree(net, r) && SharedHistory(net, s.tree, r)
    requires common < end <= |ActiveHashes(net, r)| && ActiveHashes(net, r)[common] in s.tree.entries
    requires s.peer.advertised.Some? && s.peer.outstanding && !s.peer.closed
    ensures var s' := HandleAll(net, s, ActiveBlocks(net, r)[common + 1..end]);
            && s'.sent == s.sent && s'.peer.accepted >= s.peer.accepted
            && s'.peer == s.peer.(accepted := s'.peer.accepted)
            && (s'.peer.accepted == s.peer.accepted <==> s'.tree == s.tree)
    decreases end
  {
    hide Handle, ActiveHashes, ActiveBlocks, SharedHistory, ValidTree, Linked, Deliver;
    TipIsKnown(net, s.tree);
    TipIsKnown(net, r);
    var blocks := ActiveBlocks(net, r);
    if common + 1 == end {
      assert blocks[common + 1..end] == [];
    } else {
      HandledStretch(net, s, r, common, end - 1);
      DeliverStretch(net, s.tree, r, common, end - 1);
      HandledOneMore(net, s, r, blocks[common + 1..end - 1], end - 1);
      assert blocks[common + 1..end] == blocks[common + 1..end - 1] + [blocks[end - 1]];
    }
  }

  lemma HandledOneMore(net: Network, s: Talk, r: Tree, before: seq<Block>, j: nat)
    requires TalkIsValid(net, s) && ValidTree(net, r) && SharedHistory(net, Deliver(net, s.tree, before), r)
    requires 0 < j < |ActiveHashes(net, r)| && ActiveHashes(net, r)[j - 1] in Deliver(net, s.tree, before).entries
    requires s.peer.advertised.Some? && s.peer.outstanding && !s.peer.closed
    requires var v := HandleAll(net, s, before);
             && v.sent == s.sent && v.peer.accepted >= s.peer.accepted
             && v.peer == s.peer.(accepted := v.peer.accepted)
             && (v.peer.accepted == s.peer.accepted <==> v.tree == s.tree)
    ensures var s' := HandleAll(net, s, before + [ActiveBlocks(net, r)[j]]);
            && s'.sent == s.sent && s'.peer.accepted >= s.peer.accepted
            && s'.peer == s.peer.(accepted := s'.peer.accepted)
            && (s'.peer.accepted == s.peer.accepted <==> s'.tree == s.tree)
  {
    hide Handle, ActiveHashes, ActiveBlocks, SharedHistory, ValidTree, Deliver;
    TipIsKnown(net, s.tree);
    TipIsKnown(net, r);
    var b := ActiveBlocks(net, r)[j];
    assert (before + [b])[..|before|] == before;
    HandledBlock(net, HandleAll(net, s, before), r, j);
    TreesOnlyGrow(net, s.tree, before, b);
  }

  /** If delivering one more block leads back to the tree from before, nothing changed in between. */
  lemma TreesOnlyGrow(net: Network, t: Tree, before: seq<Block>, b: Block)
    requires ValidTree(net, t)
    ensures var t' := Deliver(net, t, before);
            Attempt(net, t', b) == t ==> t' == t
  {
    hide Attempt, Linked;
    var t' := Deliver(net, t, before);
    if Attempt(net, t', b) == t {
      assert t'.entries.Keys <= t.entries.Keys && t.entries.Keys <= t'.entries.Keys;
      assert t'.entries == t.entries;
      SameEntriesSameTree(net, t, before);
    }
  }

  lemma SameEntriesSameTree(net: Network, t: Tree, before: seq<Block>)
    requires ValidTree(net, t) && Deliver(net, t, before).entries == t.entries
    ensures Deliver(net, t, before) == t
    decreases |before|
  {
    hide Linked;
    if before != [] {
      var front := before[..|before| - 1];
      var t' := Deliver(net, t, front);
      assert t'.entries == t.entries;
      SameEntriesSameTree(net, t, front);
      UnchangedAttempt(net, t', before[|before| - 1]);
    }
  }

  lemma UnchangedAttempt(net: Network, t: Tree, b: Block)
    requires ValidTree(net, t) && Attempt(net, t, b).entries == t.entries
    ensures Attempt(net, t, b) == t
  {
    hide Execute, BlocksOf, TargetAfter;
  }

  // One answer

  /** The peer's summary never contradicts a node that shares its history. */
  lemma SummaryAgrees(net: Network, t: Tree, r: Tree)
    requires ValidTree(net, t) && ValidTree(net, r) && SharedHistory(net, t, r)
    ensures !Contradicts(t, SummaryOf(net, r))
  {
    hide RunBranch, BlocksOf, EntryHoldsItsBranch, EntryLinked;
    if r.tip in t.entries {
      SharedEntryWork(net, t, r, r.tip);
      assert |BlocksOf(net, t, r.tip)| == |BlocksOf(net, r, r.tip)|;
    }
  }

  lemma HandledBatch(net: Network, s: Talk, r: Tree)
    requires TalkIsValid(net, s) && ValidTree(net, r) && SharedHistory(net, s.tree, r)
    requires s.peer.advertised.Some? && s.peer.outstanding && !s.peer.closed
    ensures var v := HandleAll(net, s, BatchAfter(ActiveBlocks(net, r), Matched(net, s.tree, r)));
            && v.tree == Round(net, s.tree, r) && v.sent == s.sent && v.peer.accepted >= s.peer.accepted
            && v.peer == s.peer.(accepted := v.peer.accepted)
            && (v.peer.accepted == s.peer.accepted <==> v.tree == s.tree)
  {
    hide ActiveHashes, ActiveBlocks, SharedHistory, HandleAll, Deliver, Matched, ValidTree;
    TipIsKnown(net, s.tree);
    TipIsKnown(net, r);
    var common := Matched(net, s.tree, r);
    LocatorFindsTheMatch(net, s.tree, r);
    HandledStretch(net, s, r, common, Min(common + 1 + MAX_BLOCKS_PER_RESPONSE, |ActiveHashes(net, r)|));
  }

  /** An answer to a waiting node is one round. It ends the session if the node is level with the peer's
      claim, drops the peer if nothing was new, and is followed by the next request otherwise. */
  lemma AnswerToWaiting(net: Network, s: Talk, r: Tree)
    requires TalkIsValid(net, s) && ValidTree(net, r) && SharedHistory(net, s.tree, r)
    requires s.tree.tip in s.tree.entries && Waiting(s, r.Tip().record.work)
    ensures var s' := Answered(net, s, r);
            && s'.tree == Round(net, s.tree, r) && SharedHistory(net, s'.tree, r)
            && s'.tree.tip in s'.tree.entries
            && (s'.tree.Tip().record.work >= r.Tip().record.work ==>
                  s'.sent == s.sent && !s'.peer.closed && !s'.peer.outstanding)
            && (s'.tree.Tip().record.work < r.Tip().record.work ==>
                  if s'.tree == s.tree then s'.peer.closed && s'.sent == s.sent
                  else Waiting(s', r.Tip().record.work) && s'.sent == s.sent + 1)
  {
    hide HandleAll, ActiveBlocks, ActiveHashes, Round, Matched, SharedHistory, Contradicts, ValidTree, Linked,
      BatchAfter;
    TipIsKnown(net, s.tree);
    TipIsKnown(net, r);
    RoundOutcome(net, s.tree, r);
    HandledBatch(net, s, r);
    SummaryAgrees(net, Round(net, s.tree, r), r);
    TipIsKnown(net, Round(net, s.tree, r));
    TipOnlyRises(net, s.tree, r);
    var told := HandleAll(net, s, BatchAfter(ActiveBlocks(net, r), Matched(net, s.tree, r)));
    var l, claimed := Link(told.peer, told.tree.Tip().record.work), r.Tip().record.work;
    if claimed > l.work {
      StalledPeerIsDropped(l, SyncComplete(claimed, false, true));
    }
  }

  lemma TipOnlyRises(net: Network, t: Tree, r: Tree)
    requires ValidTree(net, t) && ValidTree(net, r) && SharedHistory(net, t, r)
    ensures Round(net, t, r).Tip().record.work >= t.Tip().record.work
  {
    hide Round, SharedHistory, EntryHoldsItsBranch, EntryLinked;
    assert Extends(t, Round(net, t, r));
  }

  // Whole sessions

  lemma SessionStarts(net: Network, t: Tree, r: Tree)
    requires ValidTree(net, t) && ValidTree(net, r)
    ensures var s := Session(net, t, r, 0);
            && s.tree == t && t.tip in t.entries && r.tip in r.entries
            && (r.Tip().record.work > t.Tip().record.work ==> Waiting(s, r.Tip().record.work) && s.sent == 1)
            && (r.Tip().record.work <= t.Tip().record.work ==>
                  !s.peer.outstanding && !s.peer.closed && s.sent == 0)
  {
  }

  /** After the first round of a fork whose first batch outweighs the local tip, the node is behind on the
      peer's own chain. */
  lemma BehindAfterFirst(net: Network, t: Tree, r: Tree, count: nat)
    requires ValidTree(net, t) && ValidTree(net, r) && SharedHistory(net, t, r) && count > 0
    requires WorkOf(r, BatchEnd(net, t, r)) > t.Tip().record.work
    ensures var t' := Rounds(net, t, r, count);
            && SharedHistory(net, t', r)
            && Behind(net, t', r, Min(Matched(net, t, r) + 1 + 128 * count, |ActiveHashes(net, r)|))
  {
    hide EntryLinked, EntryHoldsItsBranch, ActiveHashes, SharedHistory, Behind, Rounds, Round, Matched;
    var theirs, t' := ActiveHashes(net, r), Round(net, t, r);
    var length := Min(Matched(net, t, r) + 1 + MAX_BLOCKS_PER_RESPONSE, |theirs|);
    RoundOutcome(net, t, r);
    TipOnTheirChain(net, t', r, length);
    FirstRoundFirst(net, t, r, count - 1);
    BehindAfter(net, t', r, length, count - 1);
  }

  /** A node that is behind by at least a block has less work than the peer. */
  lemma BehindIsLighter(net: Network, t: Tree, r: Tree, length: nat)
    requires ValidTree(net, t) && ValidTree(net, r) && SharedHistory(net, t, r) && Behind(net, t, r, length)
    ensures length < |ActiveHashes(net, r)| ==> t.Tip().record.work < r.Tip().record.work
    ensures length == |ActiveHashes(net, r)| ==> t.tip == r.tip && t.Tip().record.work == r.Tip().record.work
  {
    hide ActiveHashes, SharedHistory, Behind, EntryLinked, EntryHoldsItsBranch;
    BehindIsShort(net, t, r, length);
    SharedEntryWork(net, t, r, t.tip);
    TheirTip(net, r);
    if length < |ActiveHashes(net, r)| {
      WorkRises(net, r, length - 1, |ActiveHashes(net, r)| - 1);
    }
  }

  lemma TheirTip(net: Network, r: Tree)
    requires Linked(net, r)
    ensures ActiveHashes(net, r)[|ActiveHashes(net, r)| - 1] == r.tip
  {
  }

  /** Until the distance from the matched block is covered, each answer brings the next request. */
  lemma {:induction false} SessionGoesOn(net: Network, t: Tree, r: Tree, count: nat)
    requires ValidTree(net, t) && ValidTree(net, r) && SharedHistory(net, t, r)
    requires WorkOf(r, BatchEnd(net, t, r)) > t.Tip().record.work
    requires Matched(net, t, r) + 1 + 128 * count < |ActiveHashes(net, r)|
    ensures var s := Session(net, t, r, count);
            && s.tree == Rounds(net, t, r, count) && SharedHistory(net, s.tree, r) && s.tree.tip in s.tree.entries
            && Waiting(s, r.Tip().record.work) && s.sent == count + 1
  {
    hide EntryLinked, EntryHoldsItsBranch, ActiveHashes, SharedHistory, Behind, Round, Matched, BatchEnd, Answered,
      Waiting, ValidTree;
    TipIsKnown(net, t);
    TipIsKnown(net, r);
    if count == 0 {
      SessionStarts(net, t, r);
      HeavierThanBatch(net, t, r);
    } else {
      SessionGoesOn(net, t, r, count - 1);
      AnswerToWaiting(net, Session(net, t, r, count - 1), r);
      BehindAfterFirst(net, t, r, count);
      TipIsKnown(net, Rounds(net, t, r, count));
      BehindIsLighter(net, Rounds(net, t, r, count), r, Matched(net, t, r) + 1 + 128 * count);
      RoundMoves(net, t, r, count);
    }
  }

  lemma HeavierThanBatch(net: Network, t: Tree, r: Tree)
    requires ValidTree(net, t) && ValidTree(net, r)
    ensures WorkOf(r, BatchEnd(net, t, r)) <= r.Tip().record.work
  {
    hide EntryLinked, EntryHoldsItsBranch, BatchEnd;
  }

  /** Every round before the last changes the tree. */
  lemma RoundMoves(net: Network, t: Tree, r: Tree, count: nat)
    requires ValidTree(net, t) && ValidTree(net, r) && SharedHistory(net, t, r) && count > 0
    requires WorkOf(r, BatchEnd(net, t, r)) > t.Tip().record.work
    requires Matched(net, t, r) + 1 + 128 * count < |ActiveHashes(net, r)|
    ensures Rounds(net, t, r, count) != Rounds(net, t, r, count - 1)
  {
    hide EntryLinked, EntryHoldsItsBranch, SharedHistory, Round, Matched, BatchEnd, Path;
    BehindAfterFirst(net, t, r, count);
    if count == 1 {
      FirstRoundMoves(net, t, r);
    } else {
      BehindAfterFirst(net, t, r, count - 1);
    }
  }

  lemma FirstRoundMoves(net: Network, t: Tree, r: Tree)
    requires ValidTree(net, t) && ValidTree(net, r) && SharedHistory(net, t, r)
    requires WorkOf(r, BatchEnd(net, t, r)) > t.Tip().record.work
    ensures Rounds(net, t, r, 1) == Round(net, t, r) != t
  {
    hide EntryLinked, EntryHoldsItsBranch, SharedHistory, Round, BatchEnd;
    assert Rounds(net, t, r, 0) == t;
    RoundOutcome(net, t, r);
    SharedEntryWork(net, Round(net, t, r), r, BatchEnd(net, t, r));
  }

  /** If the first batch outweighs the local tip, the session needs exactly as many requests as there are
      batches of 128 blocks from the matched block to the peer's tip; it ends there with nothing open. */
  lemma SessionConverges(net: Network, t: Tree, r: Tree, count: nat)
    requires ValidTree(net, t) && ValidTree(net, r) && SharedHistory(net, t, r) && count > 0
    requires WorkOf(r, BatchEnd(net, t, r)) > t.Tip().record.work
    requires var covered := Matched(net, t, r) + 1 + 128 * (count - 1);
             covered < |ActiveHashes(net, r)| <= covered + 128
    ensures var s := Session(net, t, r, count);
            s.tree.tip == r.tip && s.sent == count && !s.peer.outstanding && !s.peer.closed
  {
    hide EntryLinked, EntryHoldsItsBranch, ActiveHashes, SharedHistory, Behind, Round, Matched, BatchEnd, Answered,
      Waiting, ValidTree;
    TipIsKnown(net, t);
    TipIsKnown(net, r);
    SessionGoesOn(net, t, r, count - 1);
    AnswerToWaiting(net, Session(net, t, r, count - 1), r);
    BehindAfterFirst(net, t, r, count);
    TipIsKnown(net, Rounds(net, t, r, count));
    BehindIsLighter(net, Rounds(net, t, r, count), r, |ActiveHashes(net, r)|);
  }

  // Stalls

  /** After a round every block up to the end of its batch is known. */
  lemma BatchIsKnown(net: Network, t: Tree, r: Tree, i: nat)
    requires ValidTree(net, t) && ValidTree(net, r) && SharedHistory(net, t, r)
    requires i < |ActiveHashes(net, r)| && i <= Matched(net, t, r) + MAX_BLOCKS_PER_RESPONSE
    ensures ActiveHashes(net, r)[i] in Round(net, t, r).entries
  {
    hide EntryLinked, EntryHoldsItsBranch, Round, Matched, RunBranch, BlocksOf;
    var theirs, t' := ActiveHashes(net, r), Round(net, t, r);
    var last := Min(Matched(net, t, r) + 1 + MAX_BLOCKS_PER_RESPONSE, |theirs|) - 1;
    RoundOutcome(net, t, r);
    PathPrefix(net, r, r.tip, last);
    SamePath(net, t', r, theirs[last]);
    assert Path(net, t', theirs[last])[i] == theirs[..last + 1][i] == theirs[i];
  }

  /** Delivering known blocks changes nothing. */
  lemma {:induction false} KnownBlocksChangeNothing(net: Network, t: Tree, blocks: seq<Block>)
    requires ValidTree(net, t) && forall k :: 0 <= k < |blocks| ==> net.HashOf(blocks[k]) in t.entries
    ensures Deliver(net, t, blocks) == t
  {
    hide Attempt, Linked;
    if blocks != [] {
      KnownBlocksChangeNothing(net, t, blocks[..|blocks| - 1]);
      AttemptIsInsert(net, t, blocks[|blocks| - 1]);
    }
  }

  /** A second round after a stalled one brings nothing new. */
  lemma SecondRoundIsEmpty(net: Network, t: Tree, r: Tree)
    requires ValidTree(net, t) && ValidTree(net, r) && SharedHistory(net, t, r)
    requires WorkOf(r, BatchEnd(net, t, r)) <= t.Tip().record.work
    ensures Round(net, Round(net, t, r), r) == Round(net, t, r)
  {
    hide EntryLinked, EntryHoldsItsBranch, SharedHistory, Deliver, BatchEnd, Path, BlocksOf;
    var t' := Round(net, t, r);
    OneRoundStalls(net, t, r);
    SameMatch(net, t, t', r);
    var batch := BatchAfter(ActiveBlocks(net, r), Matched(net, t, r));
    forall k | 0 <= k < |batch|
      ensures net.HashOf(batch[k]) in t'.entries
    {
      BatchIsKnown(net, t, r, Matched(net, t, r) + 1 + k);
      PathsAreHashes(net, r, r.tip, Matched(net, t, r) + 1 + k);
    }
    KnownBlocksChangeNothing(net, t', batch);
  }

  lemma SameMatch(net: Network, t: Tree, t': Tree, r: Tree)
    requires Linked(net, t) && Linked(net, t') && Linked(net, r) && Extends(t, t') && t.tip == t'.tip
    ensures Matched(net, t', r) == Matched(net, t, r)
  {
    hide EntryLinked, CommonLength, FirstMatch, LocatorHeights;
    PathsAreStable(net, t, t', t.tip);
  }

  /** If the first batch does not outweigh the local tip, the peer is dropped after at most two answers,
      and the node's tip is where it was. A second answer is asked for only if the first brought blocks
      the node did not have. */
  lemma SessionStalls(net: Network, t: Tree, r: Tree)
    requires ValidTree(net, t) && ValidTree(net, r) && SharedHistory(net, t, r)
    requires r.Tip().record.work > t.Tip().record.work
    requires WorkOf(r, BatchEnd(net, t, r)) <= t.Tip().record.work
    ensures var s := Session(net, t, r, 2);
            && s.peer.closed && s.tree.tip == t.tip && s.tree == Round(net, t, r)
            && s.sent == if Round(net, t, r) == t then 1 else 2
  {
    hide EntryLinked, EntryHoldsItsBranch, ActiveHashes, SharedHistory, Round, Matched, BatchEnd, Waiting, ValidTree;
    TipIsKnown(net, t);
    TipIsKnown(net, r);
    SessionStarts(net, t, r);
    var first := Session(net, t, r, 1);
    AnswerToWaiting(net, Session(net, t, r, 0), r);
    assert first == Answered(net, Session(net, t, r, 0), r);
    OneRoundStalls(net, t, r);
    SecondRoundIsEmpty(net, t, r);
    if first.tree != t {
      AnswerToWaiting(net, first, r);
    }
    assert Session(net, t, r, 2) == Answered(net, first, r);
  }
}
