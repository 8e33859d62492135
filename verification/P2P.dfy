/** The peer service: locators, answers, and the handling of blocks and summaries on top of the
    node. Every handler is proved to be a step of the machine of module `PeerRequests`. */
module P2P {
  import opened Types
  import opened Consensus
  import opened Branches
  import opened BlockTree
  import opened ChainRuns
  import opened Protocol
  import opened Locator
  import opened SyncRounds
  import opened PeerRequests
  import Node
  import opened Persistence
  import PendingPool

  /** One connection's request fields. */
  class PeerConnection {
    var hello: Option<Hello>
    var closed: bool
    var blockRequestOutstanding: bool
    var acceptedBlocksInRequest: nat
    var blockRequestStartWork: int

    ghost function Value(): Peer
      reads this
    {
      Peer(if hello.Some? then Some(hello.value.work) else None, blockRequestOutstanding,
           acceptedBlocksInRequest, blockRequestStartWork, closed)
    }

    constructor ()
      ensures Value() == NEW_PEER && hello == None
    {
      hello := None;
      closed := false;
      blockRequestOutstanding := false;
      acceptedBlocksInRequest := 0;
      blockRequestStartWork := 0;
    }

    method BeginBlockRequest(localWork: int) returns (began: bool)
      modifies this
      ensures began == !old(blockRequestOutstanding)
      ensures Value() == Begun(old(Value()), localWork) && hello == old(hello)
    {
      if blockRequestOutstanding {
        return false;
      }
      blockRequestOutstanding := true;
      acceptedBlocksInRequest := 0;
      blockRequestStartWork := localWork;
      began := true;
    }

    method CancelBlockRequest()
      modifies this
      ensures Value() == Cancelled(old(Value())) && hello == old(hello)
    {
      blockRequestOutstanding := false;
      acceptedBlocksInRequest := 0;
      blockRequestStartWork := 0;
    }

    method NoteAcceptedBlock()
      modifies this
      ensures Value() == Noted(old(Value())) && hello == old(hello)
    {
      if blockRequestOutstanding {
        acceptedBlocksInRequest := acceptedBlocksInRequest + 1;
      }
    }

    /** Closes the open request, if there is one, and says what it brought. */
    method FinishBlockRequest() returns (progress: Option<(nat, int)>)
      modifies this
      ensures hello == old(hello)
      ensures old(blockRequestOutstanding) ==>
                && progress == Some((old(acceptedBlocksInRequest), old(blockRequestStartWork)))
                && Value() == Cancelled(old(Value()))
      ensures !old(blockRequestOutstanding) ==> progress == None && Value() == old(Value())
    {
      if !blockRequestOutstanding {
        return None;
      }
      progress := Some((acceptedBlocksInRequest, blockRequestStartWork));
      CancelBlockRequest();
    }

    /** Takes over a summary; fails before HELLO and when the claimed work shrinks. */
    method UpdateAdvertisedSummary(summary: ChainSummary) returns (ok: bool)
      modifies this
      ensures ok == (old(hello).Some? && summary.work >= old(hello).value.work)
      ensures !ok ==> Value() == old(Value()) && hello == old(hello)
      ensures ok ==> && Value() == old(Value()).(advertised := Some(summary.work))
                     && hello == Some(old(hello).value.(tipHash := summary.tipHash, height := summary.height,
                                                        work := summary.work))
    {
      if hello.None? {
        return false;
      }
      if summary.work < hello.value.work {
        return false;
      }
      hello := Some(hello.value.(tipHash := summary.tipHash, height := summary.height, work := summary.work));
      ok := true;
    }

    method Close()
      modifies this
      ensures Value() == Closed(old(Value())) && hello == old(hello)
    {
      closed := true;
    }
  }

  /** An answer to a locator: the blocks to send, then the summary that ends them. */
  datatype Answer = Answer(batch: seq<Block>, summary: ChainSummary)

  ghost function SummaryOf(net: Network, t: Tree): ChainSummary
    requires Linked(net, t)
  {
    ChainSummary(t.tip, t.Tip().record.height, t.Tip().record.work)
  }

  /** The summary names a known block with another height or work. */
  predicate Contradicts(t: Tree, m: ChainSummary) {
    m.tipHash in t.entries
    && (t.entries[m.tipHash].record.height != m.height || t.entries[m.tipHash].record.work != m.work)
  }

  /** What submitting a block from a peer amounts to. */
  ghost function BlockEvent(net: Network, t: Tree, b: Block, stored: bool, sent: bool, dropped: bool): Event
    requires ValidTree(net, t)
  {
    if net.HashOf(b) in t.entries then BlockKnown
    else
      match Insert(net, t, b)
      case Ok(g) =>
        if stored then TipWorkRises(net, t, b); BlockAccepted(g.tree.Tip().record.work - t.Tip().record.work)
        else Broken
      case Err(fault) => RefusalEvent(fault, sent, dropped)
  }

  /** An unknown parent makes the node ask for what it is missing; a failing database ends the
      connection without blaming the peer; any other fault is the peer's. */
  function RefusalEvent(fault: Fault, sent: bool, dropped: bool): Event {
    if fault == UnknownParent then BlockOrphan(sent)
    else if fault == AlreadyKnown then BlockKnown
    else if fault in {IntegrityError, WriteFailed} then Broken
    else BlockRefused(dropped)
  }

  lemma TipWorkRises(net: Network, t: Tree, b: Block)
    requires ValidTree(net, t) && Insert(net, t, b).Ok?
    ensures var t' := Insert(net, t, b).value.tree;
            t'.tip in t'.entries && t'.Tip().record.work >= t.Tip().record.work
  {
    hide Execute, BlocksOf, TargetAfter;
  }

  lemma AttemptIsInsert(net: Network, t: Tree, b: Block)
    requires ValidTree(net, t)
    ensures Attempt(net, t, b) == if Insert(net, t, b).Ok? then Insert(net, t, b).value.tree else t
    ensures net.HashOf(b) in t.entries ==> Insert(net, t, b).Err?
  {
    hide Execute, SwitchBetween;
  }

  /** The two ways a submitted block can go, as steps of the connection. */
  lemma KnownBlockStep(net: Network, t: Tree, b: Block, stored: bool, sent: bool, dropped: bool, p: Peer)
    requires ValidTree(net, t) && net.HashOf(b) in t.entries && p.advertised.Some? && !p.closed
    ensures var l := Link(p, t.Tip().record.work);
            Step(l, BlockEvent(net, t, b, stored, sent, dropped)) == l
            && !Sends(l, BlockEvent(net, t, b, stored, sent, dropped))
            && BlockEvent(net, t, b, stored, sent, dropped) == BlockKnown
  {
  }

  lemma SubmittedBlockStep(net: Network, t: Tree, b: Block, stored: bool, sent: bool, dropped: bool, p: Peer,
                           ok: bool, fault: Fault)
    requires ValidTree(net, t) && net.HashOf(b) !in t.entries && p.advertised.Some? && !p.closed
    requires ok <==> Insert(net, t, b).Ok? && stored
    requires !ok && Insert(net, t, b).Ok? ==> fault in {IntegrityError, WriteFailed}
    requires Insert(net, t, b).Err? ==> fault == Insert(net, t, b).fault
    ensures ok ==> Insert(net, t, b).value.tree.tip in Insert(net, t, b).value.tree.entries
    ensures ok ==> Step(Link(p, t.Tip().record.work), BlockEvent(net, t, b, stored, sent, dropped)) ==
                   Link(Noted(p), Insert(net, t, b).value.tree.Tip().record.work)
    ensures ok ==> !Sends(Link(p, t.Tip().record.work), BlockEvent(net, t, b, stored, sent, dropped))
    ensures ok <==> BlockEvent(net, t, b, stored, sent, dropped).BlockAccepted?
    ensures !ok ==> BlockEvent(net, t, b, stored, sent, dropped) == RefusalEvent(fault, sent, dropped)
  {
    hide Insert, ValidTree, Linked;
    TipIsKnown(net, t);
    if Insert(net, t, b).Ok? {
      TipWorkRises(net, t, b);
    }
  }

  lemma RefusalStep(p: Peer, work: int, fault: Fault, sent: bool, dropped: bool)
    requires p.advertised.Some? && !p.closed
    ensures Step(Link(p, work), RefusalEvent(fault, sent, dropped)) ==
            Link(if fault == UnknownParent then Asked(p, work, sent)
                 else if fault != AlreadyKnown && (fault in {IntegrityError, WriteFailed} || dropped) then Closed(p)
                 else p, work)
    ensures Sends(Link(p, work), RefusalEvent(fault, sent, dropped)) <==>
              fault == UnknownParent && !p.outstanding && sent
  {
  }

  lemma SummaryStep(p: Peer, work: int, claimed: int, contradicts: bool, sent: bool)
    requires p.advertised.Some? && !p.closed
    ensures Step(Link(p, work), SyncComplete(claimed, contradicts, sent)) ==
            Link(if contradicts then Closed(p) else Completed(p, work, claimed, sent), work)
    ensures Sends(Link(p, work), SyncComplete(claimed, contradicts, sent)) <==>
              && !contradicts && p.advertised.value <= claimed && work < claimed && sent
              && (p.outstanding ==> p.accepted > 0 || work > p.startWork)
  {
  }

  /** The message an event makes the node send: GET_BLOCKS with the locator of its active chain, or
      none. */
  ghost function RequestFor(net: Network, t: Tree, l: Link, e: Event): (request: Option<seq<Hash>>)
    requires Linked(net, t)
    ensures request.Some? <==> Sends(l, e)
  {
    if Sends(l, e) then Some(LocatorHashes(ActiveHashes(net, t))) else None
  }

  /** The peer service around one node. */
  class P2PNode {
    const localNode: Node.LocalNode
    const nodeId: Bytes
    var byNodeId: map<Bytes, PeerConnection>

    constructor (localNode: Node.LocalNode, nodeId: Bytes)
      ensures this.localNode == localNode && this.nodeId == nodeId && byNodeId == map[]
    {
      this.localNode := localNode;
      this.nodeId := nodeId;
      byNodeId := map[];
    }

    /** A HELLO from the same network and genesis, not from this node itself, and not from a peer that
        another live connection already speaks for. */
    predicate MayJoin(connection: PeerConnection, hello: Hello)
      reads this, byNodeId.Values
    {
      && hello.chainId == localNode.net.chainId
      && hello.genesisHash == GenesisHash(localNode.net)
      && hello.nodeId != nodeId
      && (hello.nodeId in byNodeId ==> byNodeId[hello.nodeId] == connection || byNodeId[hello.nodeId].closed)
    }

    /** The hashes of the active chain, genesis first. */
    method ActiveHashList() returns (hashes: seq<Hash>, blocks: seq<Block>)
      requires localNode.Valid()
      ensures hashes == ActiveHashes(localNode.net, localNode.chain.Tree())
      ensures blocks == ActiveBlocks(localNode.net, localNode.chain.Tree())
    {
      hide Node.PoolFits, Load, EntryHoldsItsBranch, BlocksOf, Path, EntryLinked, RunBranch;
      ghost var t := localNode.chain.Tree();
      blocks := localNode.chain.ActiveChain();
      hashes := [];
      for i := 0 to |blocks|
        invariant |hashes| == i
        invariant forall k :: 0 <= k < i ==> hashes[k] == ActiveHashes(localNode.net, t)[k]
      {
        PathsAreHashes(localNode.net, t, t.tip, i);
        hashes := hashes + [localNode.net.HashOf(blocks[i])];
      }
    }

    method LocatorOfChain() returns (hashes: seq<Hash>)
      requires localNode.Valid()
      ensures hashes == LocatorHashes(ActiveHashes(localNode.net, localNode.chain.Tree()))
    {
      var active, _ := ActiveHashList();
      GenesisOnlyFirst(localNode.net, localNode.chain.Tree());
      hashes := ComputeLocator(active);
    }

    /** Sends GET_BLOCKS unless a request is open. A failed write cancels the request and ends the
        connection. */
    method RequestBlocks(connection: PeerConnection, sends: bool) returns (request: Option<seq<Hash>>)
      requires localNode.Valid()
      modifies connection
      ensures connection.Value() == Asked(old(connection.Value()), localNode.chain.Tree().Tip().record.work, sends)
      ensures request == if !old(connection.blockRequestOutstanding) && sends
                         then Some(LocatorHashes(ActiveHashes(localNode.net, localNode.chain.Tree()))) else None
    {
      hide Node.PoolFits, Load, EntryHoldsItsBranch, BlocksOf, Path, EntryLinked, RunBranch;
      var began := connection.BeginBlockRequest(localNode.chain.entries[localNode.chain.tip].record.work);
      if !began {
        return None;
      }
      var locator := LocatorOfChain();
      if !sends {
        connection.CancelBlockRequest();
        connection.Close();
        return None;
      }
      request := Some(locator);
    }

    /** Looks the locator up in a dictionary of positions. */
    static method FindCommon(active: seq<Hash>, locator: seq<Hash>) returns (common: Option<nat>)
      ensures common == CommonIndex(active, locator)
    {
      var positions: map<Hash, nat> := map[];
      for i := 0 to |active|
        invariant forall h :: h in positions <==> h in active[..i]
        invariant forall h :: h in positions ==> positions[h] == PositionOf(active[..i], h)
      {
        assert active[..i + 1][..i] == active[..i];
        positions := positions[active[i] := i];
      }
      assert active[..|active|] == active;
      common := None;
      var i := 0;
      while i < |locator| && common.None?
        invariant 0 <= i <= |locator|
        invariant common.None? ==> CommonIndex(active, locator) == CommonIndex(active, locator[i..])
        invariant common.Some? ==> CommonIndex(active, locator) == common
      {
        assert locator[i..][1..] == locator[i + 1..];
        if locator[i] in positions {
          common := Some(positions[locator[i]]);
        }
        i := i + 1;
      }
    }

    /** Answers a locator from the active chain; `None` is the refusal of a locator without a common
        block. */
    method SendBlocks(locator: seq<Hash>) returns (answer: Option<Answer>)
      requires localNode.Valid()
      ensures var net, t := localNode.net, localNode.chain.Tree();
              var common := CommonIndex(ActiveHashes(net, t), locator);
              && (common.None? ==> answer == None)
              && (common.Some? ==>
                    && answer.Some? && answer.value.batch == BatchAfter(ActiveBlocks(net, t), common.value)
                    && answer.value.summary == SummaryOf(net, t))
    {
      hide Node.PoolFits, Load, EntryHoldsItsBranch, BlocksOf, Path, EntryLinked, RunBranch;
      var active, blocks := ActiveHashList();
      var common := FindCommon(active, locator);
      if common.None? {
        return None;
      }
      var tip := localNode.chain.entries[localNode.chain.tip];
      answer := Some(Answer(BatchAfter(blocks, common.value),
                            ChainSummary(localNode.chain.tip, tip.record.height, tip.record.work)));
    }

    /** The handshake rules, in the node's order; a peer that passes is registered. */
    method CompleteHandshake(connection: PeerConnection, hello: Hello) returns (joined: bool)
      requires localNode.Valid()
      modifies this`byNodeId
      ensures joined == old(MayJoin(connection, hello))
      ensures joined <==>
                && hello.chainId == localNode.net.chainId && hello.genesisHash == GenesisHash(localNode.net)
                && hello.nodeId != nodeId
                && (hello.nodeId in old(byNodeId) ==>
                      old(byNodeId)[hello.nodeId] == connection || old(byNodeId[hello.nodeId].closed))
      ensures byNodeId == if joined then old(byNodeId)[hello.nodeId := connection] else old(byNodeId)
    {
      hide Node.PoolFits, Load, EntryHoldsItsBranch, BlocksOf, EntryLinked, RunBranch;
      var active, _ := ActiveHashList();
      GenesisIsFirst(localNode.net, localNode.chain.Tree(), localNode.chain.tip);
      if hello.chainId != localNode.net.chainId {
        return false;
      }
      if hello.genesisHash != active[0] {
        return false;
      }
      if hello.nodeId == nodeId {
        return false;
      }
      if hello.nodeId in byNodeId && byNodeId[hello.nodeId] != connection && !byNodeId[hello.nodeId].closed {
        return false;
      }
      byNodeId := byNodeId[hello.nodeId := connection];
      joined := true;
    }

    /** The first message of a connection: a HELLO that may not join ends it, any other is followed by a
        request exactly if the peer claims more work. */
    method HandleHello(connection: PeerConnection, hello: Hello, sends: bool) returns (request: Option<seq<Hash>>)
      requires localNode.Valid() && connection.Value() == NEW_PEER
      modifies connection, this`byNodeId
      ensures byNodeId == if old(MayJoin(connection, hello)) then old(byNodeId)[hello.nodeId := connection]
                          else old(byNodeId)
      ensures var t := localNode.chain.Tree();
              var l := Link(NEW_PEER, t.Tip().record.work);
              var e := if old(MayJoin(connection, hello)) then HelloReceived(hello.work, sends) else Broken;
              && Link(connection.Value(), t.Tip().record.work) == Step(l, e)
              && request == RequestFor(localNode.net, t, l, e)
    {
      hide Node.PoolFits, Load, ValidTree, Linked, LocatorHashes, ActiveHashes;
      TipIsKnown(localNode.net, localNode.chain.Tree());
      var joined := CompleteHandshake(connection, hello);
      request := None;
      if !joined {
        connection.Close();
        return None;
      }
      connection.hello := Some(hello);
      if hello.work > localNode.chain.entries[localNode.chain.tip].record.work {
        request := RequestBlocks(connection, sends);
      }
    }

    /** A block from the peer: submitted to the node, counted and relayed if accepted, followed by a
        request if its parent is missing, and rejected if it breaks a rule, unless the penalty for that
        ends the connection. */
    method HandleBlock(connection: PeerConnection, b: Block, commits: bool, sends: bool, dropped: bool)
      returns (request: Option<seq<Hash>>, relayed: bool, rejected: bool)
      requires localNode.Valid() && connection.hello.Some? && !connection.closed
      modifies localNode`chain, localNode.chain, localNode.pool, localNode.storage, connection
      ensures localNode.Valid()
      ensures var t := old(localNode.chain.Tree());
              var l := Link(old(connection.Value()), t.Tip().record.work);
              var e := BlockEvent(localNode.net, t, b, localNode.storage == null || commits, sends, dropped);
              && Link(connection.Value(), localNode.chain.Tree().Tip().record.work) == Step(l, e)
              && request == RequestFor(localNode.net, localNode.chain.Tree(), l, e)
              && relayed == e.BlockAccepted? && rejected == (e == BlockRefused(false))
      ensures localNode.chain.Tree() ==
              if localNode.storage == null || commits then Attempt(localNode.net, old(localNode.chain.Tree()), b)
              else old(localNode.chain.Tree())
    {
      hide Node.PoolFits, Load, Insert, ValidTree, Step, Sends, BlockEvent, Attempt, Linked, PendingPool.Consistent;
      ghost var t := localNode.chain.Tree();
      ghost var stored := localNode.storage == null || commits;
      TipIsKnown(localNode.net, t);
      request, relayed, rejected := None, false, false;
      if localNode.net.HashOf(b) in localNode.chain.entries {
        AttemptIsInsert(localNode.net, t, b);
        KnownBlockStep(localNode.net, t, b, stored, sends, dropped, connection.Value());
        return None, false, false;
      }
      request, relayed, rejected := SubmitNewBlock(connection, b, commits, sends, dropped);
    }

    method SubmitNewBlock(connection: PeerConnection, b: Block, commits: bool, sends: bool, dropped: bool)
      returns (request: Option<seq<Hash>>, relayed: bool, rejected: bool)
      requires localNode.Valid() && connection.hello.Some? && !connection.closed
      requires localNode.net.HashOf(b) !in localNode.chain.entries
      modifies localNode`chain, localNode.chain, localNode.pool, localNode.storage, connection
      ensures localNode.Valid()
      ensures var t := old(localNode.chain.Tree());
              var l := Link(old(connection.Value()), t.Tip().record.work);
              var e := BlockEvent(localNode.net, t, b, localNode.storage == null || commits, sends, dropped);
              && Link(connection.Value(), localNode.chain.Tree().Tip().record.work) == Step(l, e)
              && request == RequestFor(localNode.net, localNode.chain.Tree(), l, e)
              && relayed == e.BlockAccepted? && rejected == (e == BlockRefused(false))
      ensures localNode.chain.Tree() ==
              if localNode.storage == null || commits then Attempt(localNode.net, old(localNode.chain.Tree()), b)
              else old(localNode.chain.Tree())
    {
      hide Node.PoolFits, Load, Insert, Node.Reconciled, Node.UpdateIsKnown, ValidTree, Step, Sends,
        BlockEvent, Attempt, Linked, PendingPool.Consistent, RefusalEvent, Noted;
      ghost var t, before := localNode.chain.Tree(), connection.Value();
      ghost var stored := localNode.storage == null || commits;
      TipIsKnown(localNode.net, t);
      AttemptIsInsert(localNode.net, t, b);
      request, relayed, rejected := None, false, false;
      var r := localNode.SubmitBlock(b, commits);
      TipIsKnown(localNode.net, localNode.chain.Tree());
      SubmittedBlockStep(localNode.net, t, b, stored, sends, dropped, before, r.Ok?,
                         if r.Err? then r.fault else UnknownParent);
      if r.Ok? {
        connection.NoteAcceptedBlock();
        relayed := true;
      } else {
        request, rejected := Refuse(connection, r.fault, sends, dropped);
      }
    }

    /** What follows a block the node did not take. */
    method Refuse(connection: PeerConnection, fault: Fault, sends: bool, dropped: bool)
      returns (request: Option<seq<Hash>>, rejected: bool)
      requires localNode.Valid() && connection.hello.Some? && !connection.closed
      modifies connection
      ensures var t := localNode.chain.Tree();
              var l, e := Link(old(connection.Value()), t.Tip().record.work), RefusalEvent(fault, sends, dropped);
              && Link(connection.Value(), t.Tip().record.work) == Step(l, e)
              && request == RequestFor(localNode.net, t, l, e) && rejected == (e == BlockRefused(false))
    {
      hide Node.PoolFits, Load, ValidTree, Step, Sends, LocatorHashes;
      TipIsKnown(localNode.net, localNode.chain.Tree());
      RefusalStep(connection.Value(), localNode.chain.Tree().Tip().record.work, fault, sends, dropped);
      request, rejected := None, false;
      if fault == UnknownParent {
        request := RequestBlocks(connection, sends);
      } else if fault == AlreadyKnown {
      } else if fault in {IntegrityError, WriteFailed} || dropped {
        connection.Close();
      } else {
        rejected := true;
      }
    }

    /** The summary that ends an answer: refused if it contradicts what the node knows; otherwise the
        request is over, and the node asks again while the peer claims more work, unless there was
        no progress. */
    method HandleSyncComplete(connection: PeerConnection, summary: ChainSummary, sends: bool)
      returns (request: Option<seq<Hash>>)
      requires localNode.Valid() && connection.hello.Some? && !connection.closed
      modifies connection
      ensures var t := localNode.chain.Tree();
              var l := Link(old(connection.Value()), t.Tip().record.work);
              var e := SyncComplete(summary.work, Contradicts(t, summary), sends);
              && Link(connection.Value(), t.Tip().record.work) == Step(l, e)
              && request == RequestFor(localNode.net, t, l, e)
    {
      hide Node.PoolFits, Load, ValidTree, Linked, LocatorHashes, Step, Sends;
      TipIsKnown(localNode.net, localNode.chain.Tree());
      SummaryStep(connection.Value(), localNode.chain.Tree().Tip().record.work, summary.work,
                  Contradicts(localNode.chain.Tree(), summary), sends);
      request := None;
      if summary.tipHash in localNode.chain.entries {
        var record := localNode.chain.entries[summary.tipHash].record;
        if record.height != summary.height || record.work != summary.work {
          connection.Close();
          return None;
        }
      }
      var updated := connection.UpdateAdvertisedSummary(summary);
      if !updated {
        connection.Close();
        return None;
      }
      var progress := connection.FinishBlockRequest();
      var localWork := localNode.chain.entries[localNode.chain.tip].record.work;
      if summary.work <= localWork {
        return None;
      }
      if progress.Some? && progress.value.0 == 0 && localWork <= progress.value.1 {
        connection.Close();
        return None;
      }
      request := RequestBlocks(connection, sends);
    }
  }

  /** The hashes of a path are distinct: only its first is genesis. */
  lemma GenesisOnlyFirst(net: Network, t: Tree)
    requires Linked(net, t)
    ensures var path := ActiveHashes(net, t); forall i :: 0 < i < |path| ==> path[i] != path[0]
  {
    hide Linked, EntryLinked, Path;
    var path := ActiveHashes(net, t);
    forall i | 0 < i < |path|
      ensures path[i] != path[0]
    {
      PathPrefix(net, t, t.tip, i);
      PathPrefix(net, t, t.tip, 0);
    }
  }
}
