/** Block requests on one connection, as a state machine over the messages that arrive.

    A connection has at most one GET_BLOCKS unanswered, and it never asks twice without progress:
    between two requests the peer delivered a block the node accepted, or the local chain gained
    work on its own. */
module PeerRequests {
  import opened Types

  /** The request state of a connection: the work its peer last advertised (none before HELLO), and
      the one request that may be open, with the blocks it has brought and the local work when it
      was sent. */
  datatype Peer = Peer(advertised: Option<int>, outstanding: bool, accepted: nat, startWork: int, closed: bool)

  const NEW_PEER := Peer(None, false, 0, 0, false)

  /** A connection and the cumulative work of the local chain. */
  datatype Link = Link(peer: Peer, work: int)

  /** What can happen. `sent` says whether a GET_BLOCKS could be written, `dropped` whether a penalty
      reached the disconnect threshold; work is given by how much it rises, which may be nothing. */
  datatype Event =
    | LocalRise(rise: nat)
    | HelloReceived(work: int, sent: bool)
    | BlockKnown
    | BlockAccepted(rise: nat)
    | BlockOrphan(sent: bool)
    | BlockRefused(dropped: bool)
    | SyncComplete(work: int, contradicts: bool, sent: bool)
    | Broken

  function Begun(p: Peer, localWork: int): Peer {
    if p.outstanding then p else p.(outstanding := true, accepted := 0, startWork := localWork)
  }

  function Cancelled(p: Peer): Peer {
    p.(outstanding := false, accepted := 0, startWork := 0)
  }

  function Noted(p: Peer): Peer {
    if p.outstanding then p.(accepted := p.accepted + 1) else p
  }

  /** Asking for blocks, unless a request is open; a failed write closes the connection. */
  function Asked(p: Peer, localWork: int, sent: bool): Peer {
    if p.outstanding then p
    else if sent then Begun(p, localWork)
    else Cancelled(p).(closed := true)
  }

  function Closed(p: Peer): Peer {
    p.(closed := true)
  }

  /** The connection after a SYNC_COMPLETE that contradicts nothing known. */
  function Completed(p: Peer, localWork: int, work: int, sent: bool): Peer
    requires p.advertised.Some?
  {
    if work < p.advertised.value then Closed(p)
    else
      var known := p.(advertised := Some(work));
      var idle := if p.outstanding then Cancelled(known) else known;
      if work <= localWork then idle
      else if p.outstanding && p.accepted == 0 && localWork <= p.startWork then Closed(idle)
      else Asked(idle, localWork, sent)
  }

  function Greeted(p: Peer, localWork: int, work: int, sent: bool): Peer {
    var known := p.(advertised := Some(work));
    if work > localWork then Asked(known, localWork, sent) else known
  }

  function Step(l: Link, e: Event): Link {
    var p := l.peer;
    if e.LocalRise? then l.(work := l.work + e.rise)
    else if p.closed then l
    else if e.HelloReceived? then
      l.(peer := if p.advertised.Some? then Closed(p) else Greeted(p, l.work, e.work, e.sent))
    else if p.advertised.None? then l.(peer := Closed(p))
    else
      match e
      case BlockKnown => l
      case BlockAccepted(rise) => Link(Noted(p), l.work + rise)
      case BlockOrphan(sent) => l.(peer := Asked(p, l.work, sent))
      case BlockRefused(dropped) => if dropped then l.(peer := Closed(p)) else l
      case SyncComplete(work, contradicts, sent) =>
        l.(peer := if contradicts then Closed(p) else Completed(p, l.work, work, sent))
      case _ => l.(peer := Closed(p))
  }

  function RunLink(work: int, events: seq<Event>): Link {
    if events == [] then Link(NEW_PEER, work)
    else Step(RunLink(work, events[..|events| - 1]), events[|events| - 1])
  }

  /** The event answers the open request. */
  predicate Answers(l: Link, e: Event) {
    && !l.peer.closed && l.peer.outstanding && e.SyncComplete? && !e.contradicts
    && l.peer.advertised.Some? && l.peer.advertised.value <= e.work
  }

  /** The event makes the node write a GET_BLOCKS message: a heavier HELLO, a block without a parent, or
      an answer that still leaves the peer's claim above the local work after some progress. */
  predicate Sends(l: Link, e: Event) {
    var p := l.peer;
    !p.closed &&
    match e
    case HelloReceived(work, sent) => p.advertised.None? && l.work < work && !p.outstanding && sent
    case BlockOrphan(sent) => p.advertised.Some? && !p.outstanding && sent
    case SyncComplete(work, contradicts, sent) =>
      && p.advertised.Some? && !contradicts && p.advertised.value <= work && l.work < work && sent
      && (p.outstanding ==> p.accepted > 0 || l.work > p.startWork)
    case _ => false
  }

  /** The flag of a connection says just this: a request has been sent and not been answered. */
  lemma FlagFollowsMessages(l: Link, e: Event)
    requires !l.peer.closed
    ensures Step(l, e).peer.outstanding <==> Sends(l, e) || (l.peer.outstanding && !Answers(l, e))
    ensures Sends(l, e) ==> !l.peer.outstanding || Answers(l, e)
  {
  }

  function SendCount(work: int, events: seq<Event>): nat {
    if events == [] then 0
    else
      var front := events[..|events| - 1];
      SendCount(work, front) + if Sends(RunLink(work, front), events[|events| - 1]) then 1 else 0
  }

  function AnswerCount(work: int, events: seq<Event>): nat {
    if events == [] then 0
    else
      var front := events[..|events| - 1];
      AnswerCount(work, front) + if Answers(RunLink(work, front), events[|events| - 1]) then 1 else 0
  }

  lemma ClosedIsFinal(l: Link, e: Event)
    requires l.peer.closed
    ensures Step(l, e).peer == l.peer && !Sends(l, e) && !Answers(l, e)
  {
  }

  /** Over every run at most one request is unanswered. */
  lemma {:induction false} AtMostOneOutstanding(work: int, events: seq<Event>)
    ensures SendCount(work, events) ==
            AnswerCount(work, events) + if RunLink(work, events).peer.outstanding then 1 else 0
  {
    if events != [] {
      AtMostOneOutstanding(work, events[..|events| - 1]);
      hide Step, Sends, Answers;
      var l := RunLink(work, events[..|events| - 1]);
      if l.peer.closed {
        ClosedIsFinal(l, events[|events| - 1]);
      } else {
        FlagFollowsMessages(l, events[|events| - 1]);
      }
    }
  }

  ghost predicate SendsAt(work: int, events: seq<Event>, i: nat)
    requires i < |events|
  {
    Sends(RunLink(work, events[..i]), events[i])
  }

  /** Between the events `i` and `k` the peer delivered an accepted block, or local work rose. */
  ghost predicate Progress(work: int, events: seq<Event>, i: nat, k: nat)
    requires i < k <= |events|
  {
    || (exists m :: i < m < k && events[m].BlockAccepted?)
    || RunLink(work, events[..k]).work > RunLink(work, events[..i]).work
  }

  /** The request sent at `i` is still open, has brought nothing, and the peer claims more work than
      the node had and still has. */
  ghost predicate StillWaiting(l: Link, startWork: int) {
    && !l.peer.closed && l.peer.outstanding && l.peer.accepted == 0 && l.peer.startWork == startWork == l.work
    && l.peer.advertised.Some? && l.peer.advertised.value > startWork
  }

  lemma {:induction false} WaitingOrProgress(work: int, events: seq<Event>, i: nat, k: nat)
    requires i < k <= |events| && SendsAt(work, events, i)
    requires var after := RunLink(work, events[..i + 1]);
             after.peer.advertised.Some? && after.peer.advertised.value > after.work
    ensures RunLink(work, events[..k]).peer.closed || Progress(work, events, i, k)
         || StillWaiting(RunLink(work, events[..k]), RunLink(work, events[..i]).work)
    ensures RunLink(work, events[..k]).work >= RunLink(work, events[..i]).work
    decreases k
  {
    var l := RunLink(work, events[..k - 1]);
    assert events[..k][..k - 1] == events[..k - 1];
    assert RunLink(work, events[..k]) == Step(l, events[k - 1]);
    if k > i + 1 {
      WaitingOrProgress(work, events, i, k - 1);
      if Progress(work, events, i, k - 1) {
        assert Progress(work, events, i, k);
      } else if events[k - 1].BlockAccepted? {
        assert Progress(work, events, i, k);
      }
    }
  }

  /** If the peer claimed more work than the node had when it asked, then by the time the node asks
      again there has been progress. */
  lemma ProgressBetweenRequests(work: int, events: seq<Event>, i: nat, j: nat)
    requires i < j < |events| && SendsAt(work, events, i) && SendsAt(work, events, j)
    requires var after := RunLink(work, events[..i + 1]);
             after.peer.advertised.Some? && after.peer.advertised.value > after.work
    ensures Progress(work, events, i, j)
  {
    WaitingOrProgress(work, events, i, j);
  }

  /** An answer that still leaves the peer's claim above the local work drops the peer exactly if the
      request brought no accepted block and the local work is what it was. */
  lemma StalledPeerIsDropped(l: Link, e: Event)
    requires Answers(l, e) && e.work > l.work && e.sent
    ensures Step(l, e).peer.closed <==> l.peer.accepted == 0 && l.work <= l.peer.startWork
    ensures !Step(l, e).peer.closed ==> Sends(l, e)
  {
  }
}
