/** The iterative Kademlia query (src/query.cpp).

    The class keeps the source's fields; its ghost fields record the history of the walk: which
    addresses were visited, answered, timed out or skipped, and which callbacks were made. Replies,
    timeouts, commit replies and destroy() are separate methods, so an interleaving of network
    events is a sequence of calls; what `Valid()` says therefore holds after every event of every run. */
module Queries {
  import opened Wrappers
  import opened Bytes
  import opened NodeIds
  import opened Addresses
  import opened Closest
  import opened Commits
  import Routing = RoutingTable

  const MAX_SEEN: nat := 4096
  const SLOWDOWN_CONCURRENCY: nat := 3

  datatype NodeState = PENDING | DONE | DOWN
  datatype PendingNode = PendingNode(id: NodeId, addr: Ipv4Address)

  /** What a response carries, after the socket has validated the sender's id. */
  datatype Response = Response(id: Option<NodeId>, error: Option<u32>, token: Option<bytes>,
                               value: Option<bytes>, closer: seq<Ipv4Address>)

  /** One handled response, with the table's own id at that time. */
  datatype Answer = Answer(node: PendingNode, resp: Response, ownId: NodeId)

  type Filter = (NodeId, Ipv4Address) -> bool

  predicate IsSuccess(resp: Response) {
    resp.error.None? || resp.error.value == 0
  }

  function ReplyOf(node: PendingNode, resp: Response): Reply {
    Reply(if resp.id.Some? then resp.id.value else ZERO_ID, node.addr, resp.token, resp.value, resp.closer)
  }

  /** The replies offered to the result list: successes with a validated id, in order of arrival. */
  function Learned(answers: seq<Answer>): seq<Reply> {
    if answers == [] then []
    else
      var a := answers[|answers| - 1];
      var r := ReplyOf(a.node, a.resp);
      Learned(answers[..|answers| - 1]) + (if IsSuccess(a.resp) && r.fromId != ZERO_ID then [r] else [])
  }

  function CountSuccesses(answers: seq<Answer>): nat {
    if answers == [] then 0
    else CountSuccesses(answers[..|answers| - 1]) + (if IsSuccess(answers[|answers| - 1].resp) then 1 else 0)
  }

  // ------------------------------------------------------------------------------------------
  // The frontier: the seen map and the pending stack
  // ------------------------------------------------------------------------------------------

  datatype Frontier = Frontier(seen: map<Ipv4Address, NodeState>, pending: seq<PendingNode>)

  /** add_pending. */
  function Offer(f: Frontier, n: PendingNode, filter: Filter): Frontier {
    if n.addr in f.seen || |f.seen| >= MAX_SEEN || !filter(n.id, n.addr) then f
    else Frontier(f.seen[n.addr := PENDING], f.pending + [n])
  }

  function OfferAll(f: Frontier, ns: seq<PendingNode>, filter: Filter): Frontier {
    if ns == [] then f else Offer(OfferAll(f, ns[..|ns| - 1], filter), ns[|ns| - 1], filter)
  }

  function Backwards(ns: seq<PendingNode>): seq<PendingNode> {
    if ns == [] then [] else [ns[|ns| - 1]] + Backwards(ns[..|ns| - 1])
  }

  /** The closer nodes of a response that are offered to the frontier: none with port 0, not ourselves. */
  function Candidates(closer: seq<Ipv4Address>, ownId: NodeId, peerId: Ipv4Address -> NodeId): seq<PendingNode> {
    if closer == [] then []
    else
      var c := closer[|closer| - 1];
      Candidates(closer[..|closer| - 1], ownId, peerId) +
      (if c.port == 0 || peerId(c) == ownId then [] else [PendingNode(peerId(c), c)])
  }

  /** The nodes read from the routing table, with their printed host parsed back. */
  function FromTable(ns: seq<Routing.Node>): (r: seq<PendingNode>)
    ensures |r| == |ns|
  {
    seq(|ns|, i requires 0 <= i < |ns| => PendingNode(ns[i].id, Parse4(ns[i].host, ns[i].port % 0x1_0000)))
  }

  function WithToken(s: seq<Reply>): seq<Reply> {
    if s == [] then []
    else WithToken(s[..|s| - 1]) + (if s[|s| - 1].token.Some? then [s[|s| - 1]] else [])
  }

  lemma WithTokenStep(s: seq<Reply>, i: nat)
    requires i <= |s|
    ensures i == 0 ==> WithToken(s[..i]) == []
    ensures i < |s| ==> WithToken(s[..i + 1]) == WithToken(s[..i]) + (if s[i].token.Some? then [s[i]] else [])
    ensures i == |s| ==> s[..i] == s
  {
    if i < |s| {
      assert s[..i + 1][..i] == s[..i];
    }
  }

  lemma {:induction false} WithTokenGrows(s: seq<Reply>, i: nat)
    requires i <= |s|
    ensures |WithToken(s[..i])| <= |WithToken(s)|
    decreases |s| - i
  {
    WithTokenStep(s, i);
    if i < |s| {
      WithTokenGrows(s, i + 1);
    }
  }

  // ------------------------------------------------------------------------------------------
  // The history of a walk
  // ------------------------------------------------------------------------------------------

  /** Where an address of the seen map stands: on the stack, in flight, answered, timed out, skipped,
      or, after destroy(), dropped from the stack or answered too late. */
  datatype Place = Unseen | OnStack | InFlight | Answered | TimedOut | Skipped | Dropped | TooLate

  function At(place: map<Ipv4Address, Place>, a: Ipv4Address): Place {
    if a in place then place[a] else Unseen
  }

  datatype History = History(place: map<Ipv4Address, Place>, visited: seq<PendingNode>, skipped: seq<PendingNode>,
                             outstanding: set<Ipv4Address>, timedOut: set<Ipv4Address>, answers: seq<Answer>) {
    function Move(a: Ipv4Address, p: Place): History {
      this.(place := place[a := p])
    }

    function Visit(n: PendingNode): History {
      Move(n.addr, InFlight).(visited := visited + [n], outstanding := outstanding + {n.addr})
    }

    function Skip(n: PendingNode): History {
      Move(n.addr, Skipped).(skipped := skipped + [n])
    }

    function Answer(a: Answer): History {
      Move(a.node.addr, Answered).(answers := answers + [a], outstanding := outstanding - {a.node.addr})
    }

    function TimeOut(a: Ipv4Address): History {
      Move(a, TimedOut).(timedOut := timedOut + {a}, outstanding := outstanding - {a})
    }

    function Late(a: Ipv4Address): History {
      Move(a, TooLate).(outstanding := outstanding - {a})
    }

    /** Whatever is new in the seen map has been pushed onto the stack. */
    function Offered(seen: map<Ipv4Address, NodeState>): History {
      this.(place := map a | a in seen :: if a in place then place[a] else OnStack)
    }

    function Drop(): History {
      this.(place := map a | a in place :: if place[a] == OnStack then Dropped else place[a])
    }
  }

  const NO_HISTORY := History(map[], [], [], {}, {}, [])

  ghost predicate HasAddr(s: seq<PendingNode>, a: Ipv4Address) {
    exists n :: n in s && n.addr == a
  }

  ghost predicate HasAnswer(s: seq<Answer>, a: Ipv4Address) {
    exists x :: x in s && x.node.addr == a
  }

  ghost predicate DistinctAddrs(s: seq<PendingNode>) {
    forall i, j :: 0 <= i < j < |s| ==> s[i].addr != s[j].addr
  }

  ghost predicate DistinctAnswers(s: seq<Answer>) {
    forall i, j :: 0 <= i < j < |s| ==> s[i].node.addr != s[j].node.addr
  }

  predicate Visited(p: Place) {
    p == InFlight || p == Answered || p == TimedOut || p == TooLate
  }

  /** The stack, the list of visits and the list of skipped nodes hold each address at most once, and
      exactly where its place says. */
  ghost predicate StackOk(pending: seq<PendingNode>, h: History) {
    DistinctAddrs(pending) && forall a :: HasAddr(pending, a) <==> At(h.place, a) == OnStack
  }

  ghost predicate VisitsOk(h: History) {
    DistinctAddrs(h.visited) && forall a :: HasAddr(h.visited, a) <==> Visited(At(h.place, a))
  }

  ghost predicate SkippedOk(h: History) {
    forall a :: HasAddr(h.skipped, a) <==> At(h.place, a) == Skipped
  }

  ghost predicate FlightOk(h: History) {
    && (forall a :: a in h.outstanding <==> At(h.place, a) == InFlight)
    && (forall a :: a in h.timedOut <==> At(h.place, a) == TimedOut)
  }

  ghost predicate AnswersOk(h: History) {
    DistinctAnswers(h.answers) && forall a :: HasAnswer(h.answers, a) <==> At(h.place, a) == Answered
  }

  function StateOf(p: Place): NodeState {
    match p
    case Answered => DONE
    case TimedOut => DOWN
    case _ => PENDING
  }

  /** The state the seen map keeps for an address is the one its place implies. */
  ghost predicate SeenOk(seen: map<Ipv4Address, NodeState>, h: History) {
    && (forall a :: a in seen <==> a in h.place)
    && (forall a :: a in h.place ==> h.place[a] != Unseen)
    && forall a :: a in seen ==> seen[a] == StateOf(At(h.place, a))
  }

  ghost predicate WalkOk(f: Frontier, h: History) {
    StackOk(f.pending, h) && VisitsOk(h) && SkippedOk(h) && FlightOk(h) && AnswersOk(h) && SeenOk(f.seen, h)
  }

  /** A closer node that is followed up: it has a port, is not the querying node and passes the filter. */
  predicate Acceptable(c: Ipv4Address, ownId: NodeId, peerId: Ipv4Address -> NodeId, filter: Filter) {
    c.port != 0 && peerId(c) != ownId && filter(peerId(c), c)
  }

  /** As long as the cap is not reached, every acceptable closer node of every answer has been seen. */
  ghost predicate CoversAnswers(seen: map<Ipv4Address, NodeState>, answers: seq<Answer>,
                                peerId: Ipv4Address -> NodeId, filter: Filter)
  {
    |seen| < MAX_SEEN ==>
      forall a, c :: a in answers && c in a.resp.closer && Acceptable(c, a.ownId, peerId, filter) ==> c in seen
  }

  /** Every skipped node is no nearer than the last entry of a full result list. */
  ghost predicate SkipsOk(t: NodeId, skipped: seq<PendingNode>, closest: seq<Reply>) {
    forall n :: n in skipped ==> n.id != ZERO_ID && |closest| == K && !Nearer(t, n.id, closest[K - 1].fromId)
  }

  lemma HasAddrAppend(s: seq<PendingNode>, n: PendingNode)
    ensures forall a :: HasAddr(s + [n], a) <==> HasAddr(s, a) || a == n.addr
  {
    forall a ensures HasAddr(s + [n], a) <==> HasAddr(s, a) || a == n.addr {
      if a == n.addr {
        assert n in s + [n];
      } else if HasAddr(s, a) {
        var m :| m in s && m.addr == a;
        assert m in s + [n];
      }
    }
  }

  lemma HasAnswerAppend(s: seq<Answer>, x: Answer)
    ensures forall a :: HasAnswer(s + [x], a) <==> HasAnswer(s, a) || a == x.node.addr
  {
    forall a ensures HasAnswer(s + [x], a) <==> HasAnswer(s, a) || a == x.node.addr {
      if a == x.node.addr {
        assert x in s + [x];
      } else if HasAnswer(s, a) {
        var y :| y in s && y.node.addr == a;
        assert y in s + [x];
      }
    }
  }

  lemma FirstIsAnswered(s: seq<Answer>)
    ensures s != [] ==> HasAnswer(s, s[0].node.addr)
  {
  }

  lemma NothingLearned(t: NodeId, learned: seq<Reply>, closest: seq<Reply>)
    requires KNearest(t, learned, closest)
    ensures closest != [] ==> learned != []
  {
    if closest != [] {
      assert closest[0] in closest;
    }
  }

  lemma DistinctAppend(s: seq<PendingNode>, n: PendingNode)
    ensures DistinctAddrs(s + [n]) <==> DistinctAddrs(s) && !HasAddr(s, n.addr)
  {
    if DistinctAddrs(s + [n]) {
      forall i, j | 0 <= i < j < |s| ensures s[i].addr != s[j].addr {
        assert (s + [n])[i] == s[i] && (s + [n])[j] == s[j];
      }
      forall i | 0 <= i < |s| ensures s[i].addr != n.addr {
        assert (s + [n])[i] == s[i] && (s + [n])[|s|] == n;
      }
    }
    if DistinctAddrs(s) && !HasAddr(s, n.addr) {
      forall i | 0 <= i < |s| ensures s[i].addr != n.addr {
        assert s[i] in s;
      }
    }
  }

  lemma DistinctAnswersAppend(s: seq<Answer>, x: Answer)
    requires DistinctAnswers(s) && !HasAnswer(s, x.node.addr)
    ensures DistinctAnswers(s + [x])
  {
    forall i | 0 <= i < |s| ensures s[i].node.addr != x.node.addr {
      assert s[i] in s;
    }
  }

  lemma Moved(h: History, a: Ipv4Address, p: Place)
    ensures forall b :: At(h.Move(a, p).place, b) == if b == a then p else At(h.place, b)
  {
  }

  lemma PushKeepsWalk(f: Frontier, h: History, n: PendingNode)
    requires WalkOk(f, h) && n.addr !in f.seen
    ensures WalkOk(Frontier(f.seen[n.addr := PENDING], f.pending + [n]), h.Move(n.addr, OnStack))
  {
    hide HasAddr, DistinctAddrs, HasAnswer, DistinctAnswers;
    HasAddrAppend(f.pending, n);
    DistinctAppend(f.pending, n);
    Moved(h, n.addr, OnStack);
  }

  lemma SeenIsPlaced(f: Frontier, h: History)
    requires WalkOk(f, h)
    ensures h.place.Keys == f.seen.Keys
  {
    hide StackOk, VisitsOk, SkippedOk, FlightOk, AnswersOk;
  }

  lemma NothingOffered(f: Frontier, h: History)
    requires WalkOk(f, h)
    ensures h.Offered(f.seen) == h
  {
    hide WalkOk;
    SeenIsPlaced(f, h);
  }

  lemma OfferKeepsWalk(f: Frontier, h: History, n: PendingNode, filter: Filter)
    requires WalkOk(f, h)
    ensures var g := Offer(f, n, filter); WalkOk(g, h.Offered(g.seen))
  {
    hide WalkOk;
    var g := Offer(f, n, filter);
    SeenIsPlaced(f, h);
    if g == f {
      NothingOffered(f, h);
    } else {
      PushKeepsWalk(f, h, n);
      assert h.Offered(g.seen).place == h.place[n.addr := OnStack];
    }
  }

  lemma OfferedTwice(h: History, s: map<Ipv4Address, NodeState>, t: map<Ipv4Address, NodeState>)
    requires s.Keys <= t.Keys && h.place.Keys <= s.Keys
    ensures h.Offered(s).Offered(t) == h.Offered(t)
  {
  }

  lemma {:induction false} OfferAllKeepsWalk(f: Frontier, h: History, ns: seq<PendingNode>, filter: Filter)
    requires WalkOk(f, h)
    ensures var g := OfferAll(f, ns, filter); WalkOk(g, h.Offered(g.seen))
  {
    hide WalkOk;
    if ns == [] {
      NothingOffered(f, h);
    } else {
      var m := OfferAll(f, ns[..|ns| - 1], filter);
      OfferAllKeepsWalk(f, h, ns[..|ns| - 1], filter);
      OfferKeepsWalk(m, h.Offered(m.seen), ns[|ns| - 1], filter);
      OfferAllGrows(f, ns[..|ns| - 1], filter);
      SeenIsPlaced(f, h);
      OfferedTwice(h, m.seen, Offer(m, ns[|ns| - 1], filter).seen);
    }
  }

  lemma {:induction false} OfferAllGrows(f: Frontier, ns: seq<PendingNode>, filter: Filter)
    ensures var g := OfferAll(f, ns, filter);
            && f.seen.Keys <= g.seen.Keys
            && |f.seen| <= |g.seen|
            && (|f.seen| <= MAX_SEEN ==> |g.seen| <= MAX_SEEN)
            && f.pending <= g.pending
            && (|g.seen| < MAX_SEEN ==> forall n :: n in ns && filter(n.id, n.addr) ==> n.addr in g.seen)
  {
    if ns != [] {
      OfferAllGrows(f, ns[..|ns| - 1], filter);
      var m := OfferAll(f, ns[..|ns| - 1], filter);
      assert ns == ns[..|ns| - 1] + [ns[|ns| - 1]];
    }
  }

  lemma CandidatesStep(closer: seq<Ipv4Address>, i: nat, ownId: NodeId, peerId: Ipv4Address -> NodeId, f: Frontier,
                       filter: Filter)
    requires i <= |closer|
    ensures i == 0 ==> OfferAll(f, Candidates(closer[..i], ownId, peerId), filter) == f
    ensures i < |closer| ==>
              OfferAll(f, Candidates(closer[..i + 1], ownId, peerId), filter) ==
              (var g := OfferAll(f, Candidates(closer[..i], ownId, peerId), filter);
               if closer[i].port == 0 || peerId(closer[i]) == ownId then g
                  else Offer(g, PendingNode(peerId(closer[i]), closer[i]), filter))
    ensures i == |closer| ==> closer[..i] == closer
  {
    hide Offer;
    if i < |closer| {
      assert closer[..i + 1][..i] == closer[..i];
      var ns, n := Candidates(closer[..i], ownId, peerId), PendingNode(peerId(closer[i]), closer[i]);
      assert (ns + [n])[..|ns|] == ns;
      assert ns + [] == ns;
    }
  }

  lemma {:induction false} CandidatesAre(closer: seq<Ipv4Address>, ownId: NodeId, peerId: Ipv4Address -> NodeId,
                                         c: Ipv4Address)
    requires c in closer && c.port != 0 && peerId(c) != ownId
    ensures PendingNode(peerId(c), c) in Candidates(closer, ownId, peerId)
  {
    if c != closer[|closer| - 1] {
      assert c in closer[..|closer| - 1];
      CandidatesAre(closer[..|closer| - 1], ownId, peerId, c);
    }
  }

  /** Offering the candidates of an answer covers it. */
  lemma AnswerIsCovered(f: Frontier, answers: seq<Answer>, a: Answer, peerId: Ipv4Address -> NodeId, filter: Filter)
    requires CoversAnswers(f.seen, answers, peerId, filter)
    ensures CoversAnswers(OfferAll(f, Candidates(a.resp.closer, a.ownId, peerId), filter).seen, answers + [a], peerId,
              filter)
  {
    var ns := Candidates(a.resp.closer, a.ownId, peerId);
    OfferAllGrows(f, ns, filter);
    var g := OfferAll(f, ns, filter);
    forall b, c | |g.seen| < MAX_SEEN && b in answers + [a] && c in b.resp.closer &&
           Acceptable(c, b.ownId, peerId, filter)
      ensures c in g.seen
    {
      if b in answers {
        assert c in f.seen;
      } else {
        CandidatesAre(a.resp.closer, a.ownId, peerId, c);
      }
    }
  }

  lemma CoversMore(f: Frontier, ns: seq<PendingNode>, answers: seq<Answer>, peerId: Ipv4Address -> NodeId,
                   filter: Filter)
    requires CoversAnswers(f.seen, answers, peerId, filter)
    ensures CoversAnswers(OfferAll(f, ns, filter).seen, answers, peerId, filter)
  {
    OfferAllGrows(f, ns, filter);
  }

  predicate IsCloser(t: NodeId, closest: seq<Reply>, id: NodeId) {
    |closest| < K || Nearer(t, id, closest[|closest| - 1].fromId)
  }

  /** A popped node is visited when it has no id (a bootstrap node) or is closer than the k-th reply. */
  predicate WorthVisiting(t: NodeId, closest: seq<Reply>, n: PendingNode) {
    n.id == ZERO_ID || IsCloser(t, closest, n.id)
  }

  /** The nodes of s that are (not) worth visiting, last one first. */
  function Chosen(t: NodeId, closest: seq<Reply>, popped: seq<PendingNode>, worth: bool): seq<PendingNode> {
    if popped == [] then []
    else Chosen(t, closest, popped[1..], worth) +
         (if WorthVisiting(t, closest, popped[0]) == worth then [popped[0]] else [])
  }

  lemma PopToVisit(f: Frontier, h: History)
    requires WalkOk(f, h) && f.pending != []
    ensures var n := f.pending[|f.pending| - 1];
            WalkOk(f.(pending := f.pending[..|f.pending| - 1]), h.Visit(n)) && n.addr !in h.outstanding
  {
    hide HasAddr, DistinctAddrs, HasAnswer, DistinctAnswers;
    var p, n := f.pending[..|f.pending| - 1], f.pending[|f.pending| - 1];
    assert f.pending == p + [n];
    HasAddrAppend(p, n);
    DistinctAppend(p, n);
    HasAddrAppend(h.visited, n);
    DistinctAppend(h.visited, n);
    Moved(h, n.addr, InFlight);
  }

  lemma PopToSkip(f: Frontier, h: History)
    requires WalkOk(f, h) && f.pending != []
    ensures WalkOk(f.(pending := f.pending[..|f.pending| - 1]), h.Skip(f.pending[|f.pending| - 1]))
  {
    hide HasAddr, DistinctAddrs, HasAnswer, DistinctAnswers;
    var p, n := f.pending[..|f.pending| - 1], f.pending[|f.pending| - 1];
    assert f.pending == p + [n];
    HasAddrAppend(p, n);
    DistinctAppend(p, n);
    HasAddrAppend(h.skipped, n);
    Moved(h, n.addr, Skipped);
  }

  lemma AnswerArrives(f: Frontier, h: History, a: Answer)
    requires WalkOk(f, h) && a.node.addr in h.outstanding
    ensures WalkOk(f.(seen := f.seen[a.node.addr := DONE]), h.Answer(a))
    ensures |f.seen[a.node.addr := DONE]| == |f.seen|
  {
    hide HasAddr, DistinctAddrs, HasAnswer, DistinctAnswers;
    HasAnswerAppend(h.answers, a);
    DistinctAnswersAppend(h.answers, a);
    Moved(h, a.node.addr, Answered);
    Overwrite(f.seen, a.node.addr, DONE);
  }

  lemma TimeoutArrives(f: Frontier, h: History, a: Ipv4Address)
    requires WalkOk(f, h) && a in h.outstanding
    ensures WalkOk(f.(seen := f.seen[a := DOWN]), h.TimeOut(a))
    ensures |f.seen[a := DOWN]| == |f.seen| && a !in h.timedOut
  {
    hide HasAddr, DistinctAddrs, HasAnswer, DistinctAnswers;
    Moved(h, a, TimedOut);
    Overwrite(f.seen, a, DOWN);
  }

  lemma TooLateArrives(f: Frontier, h: History, a: Ipv4Address)
    requires WalkOk(f, h) && a in h.outstanding
    ensures WalkOk(f, h.Late(a))
  {
    hide HasAddr, DistinctAddrs, HasAnswer, DistinctAnswers;
    Moved(h, a, TooLate);
  }

  lemma Overwrite(seen: map<Ipv4Address, NodeState>, a: Ipv4Address, s: NodeState)
    requires a in seen
    ensures |seen[a := s]| == |seen|
  {
    assert seen[a := s].Keys == seen.Keys;
  }

  lemma StackDropped(f: Frontier, h: History)
    requires WalkOk(f, h)
    ensures WalkOk(f.(pending := []), h.Drop())
  {
    hide DistinctAddrs, HasAddr, HasAnswer, DistinctAnswers;
    DropMoves(h);
    EmptyStack();
  }

  lemma NothingDropped(f: Frontier, h: History)
    requires WalkOk(f, h)
    ensures f.pending == [] ==> h.Drop().place == h.place
  {
  }

  lemma DropMoves(h: History)
    ensures forall a :: At(h.Drop().place, a) == if At(h.place, a) == OnStack then Dropped else At(h.place, a)
    ensures h.Drop().place.Keys == h.place.Keys
  {
  }

  lemma EmptyStack()
    ensures DistinctAddrs([]) && forall a :: !HasAddr([], a)
  {
  }

  lemma AnswerKeeps(h: History, a: Answer, seen: map<Ipv4Address, NodeState>)
    ensures var g := h.Answer(a).Offered(seen); g.answers == h.answers + [a] && g.timedOut == h.timedOut
    ensures var g := h.Answer(a).Offered(seen); g.visited == h.visited && g.skipped == h.skipped
  {
  }

  /** The id of a node, if it has one, is the one that follows from its address. */
  predicate Named(n: PendingNode, peerId: Ipv4Address -> NodeId) {
    n.id == ZERO_ID || n.id == peerId(n.addr)
  }

  ghost predicate AllNamed(ns: seq<PendingNode>, peerId: Ipv4Address -> NodeId) {
    forall n :: n in ns ==> Named(n, peerId)
  }

  lemma {:induction false} OfferedAreNamed(f: Frontier, ns: seq<PendingNode>, filter: Filter,
                                           peerId: Ipv4Address -> NodeId)
    requires AllNamed(f.pending, peerId) && AllNamed(ns, peerId)
    ensures AllNamed(OfferAll(f, ns, filter).pending, peerId)
  {
    if ns != [] {
      OfferedAreNamed(f, ns[..|ns| - 1], filter, peerId);
      assert ns[|ns| - 1] in ns;
    }
  }

  lemma {:induction false} BackwardsAreNamed(ns: seq<PendingNode>, peerId: Ipv4Address -> NodeId)
    requires AllNamed(ns, peerId)
    ensures AllNamed(Backwards(ns), peerId)
  {
    if ns != [] {
      BackwardsAreNamed(ns[..|ns| - 1], peerId);
      assert ns[|ns| - 1] in ns;
    }
  }

  lemma {:induction false} CandidatesAreNamed(closer: seq<Ipv4Address>, ownId: NodeId, peerId: Ipv4Address -> NodeId)
    ensures AllNamed(Candidates(closer, ownId, peerId), peerId)
  {
    if closer != [] {
      CandidatesAreNamed(closer[..|closer| - 1], ownId, peerId);
    }
  }

  /** What is fixed for a query: its target, the node filter and how a node's id follows from its address. */
  datatype Settings = Settings(target: NodeId, filter: Filter, peerId: Ipv4Address -> NodeId)

  ghost predicate WalkInv(s: Settings, f: Frontier, h: History, inflight: int, closest: seq<Reply>) {
    && WalkOk(f, h)
    && |f.seen| <= MAX_SEEN
    && inflight == |h.outstanding|
    && CoversAnswers(f.seen, h.answers, s.peerId, s.filter)
    && SkipsOk(s.target, h.skipped, closest)
  }

  ghost predicate ResultsInv(s: Settings, answers: seq<Answer>, timeouts: nat, closest: seq<Reply>, successes: int,
                             errors: int)
  {
    && KNearest(s.target, Learned(answers), closest)
    && successes == CountSuccesses(answers)
    && successes + errors == |answers| + timeouts
  }

  lemma ResultsAreCapped(s: Settings, answers: seq<Answer>, timeouts: nat, closest: seq<Reply>, successes: int,
                         errors: int)
    requires ResultsInv(s, answers, timeouts, closest, successes, errors)
    ensures |closest| <= K
  {
  }

  lemma VisitStep(s: Settings, f: Frontier, h: History, inflight: int, closest: seq<Reply>)
    requires WalkInv(s, f, h, inflight, closest) && f.pending != []
    ensures WalkInv(s, f.(pending := f.pending[..|f.pending| - 1]), h.Visit(f.pending[|f.pending| - 1]), inflight + 1,
              closest)
    ensures NothingLost(h.place) ==> NothingLost(h.Visit(f.pending[|f.pending| - 1]).place)
  {
    hide WalkOk, CoversAnswers, SkipsOk, NothingLost, EndOk;
    PopToVisit(f, h);
    MoveLosesNothing(h.place, f.pending[|f.pending| - 1].addr, InFlight);
  }

  lemma SkipStep(s: Settings, f: Frontier, h: History, inflight: int, closest: seq<Reply>)
    requires WalkInv(s, f, h, inflight, closest) && f.pending != []
    requires !WorthVisiting(s.target, closest, f.pending[|f.pending| - 1])
    requires |closest| <= K
    ensures WalkInv(s, f.(pending := f.pending[..|f.pending| - 1]), h.Skip(f.pending[|f.pending| - 1]), inflight,
              closest)
    ensures NothingLost(h.place) ==> NothingLost(h.Skip(f.pending[|f.pending| - 1]).place)
  {
    hide WalkOk, CoversAnswers, Nearer, NothingLost, EndOk;
    PopToSkip(f, h);
    MoveLosesNothing(h.place, f.pending[|f.pending| - 1].addr, Skipped);
  }

  lemma OfferStep(s: Settings, f: Frontier, h: History, inflight: int, closest: seq<Reply>, ns: seq<PendingNode>)
    requires WalkInv(s, f, h, inflight, closest)
    ensures var g := OfferAll(f, ns, s.filter); WalkInv(s, g, h.Offered(g.seen), inflight, closest)
    ensures var g := OfferAll(f, ns, s.filter); NothingLost(h.place) ==> NothingLost(h.Offered(g.seen).place)
    ensures h.Offered(f.seen) == h
  {
    hide WalkOk, CoversAnswers, SkipsOk, NothingLost, EndOk;
    OfferedLosesNothing(h, OfferAll(f, ns, s.filter).seen);
    OfferAllKeepsWalk(f, h, ns, s.filter);
    OfferAllGrows(f, ns, s.filter);
    CoversMore(f, ns, h.answers, s.peerId, s.filter);
    NothingOffered(f, h);
  }

  lemma DropStep(s: Settings, f: Frontier, h: History, inflight: int, closest: seq<Reply>)
    requires WalkInv(s, f, h, inflight, closest)
    ensures WalkInv(s, f.(pending := []), h.Drop(), inflight, closest)
    ensures f.pending == [] ==> h.Drop() == h
    ensures h.Drop().(place := map[]) == h.(place := map[])
  {
    hide WalkOk, CoversAnswers, SkipsOk;
    StackDropped(f, h);
    NothingDropped(f, h);
  }

  /** The result list after an answer. */
  function Pushed(t: NodeId, closest: seq<Reply>, a: Answer): seq<Reply> {
    var r := ReplyOf(a.node, a.resp);
    if IsSuccess(a.resp) && r.fromId != ZERO_ID then Capped(Insert(t, closest, r)) else closest
  }

  lemma LearnedStep(answers: seq<Answer>, a: Answer)
    ensures var r := ReplyOf(a.node, a.resp);
            Learned(answers + [a]) == if IsSuccess(a.resp) && r.fromId != ZERO_ID then Learned(answers) + [r]
              else Learned(answers)
    ensures CountSuccesses(answers + [a]) == CountSuccesses(answers) + (if IsSuccess(a.resp) then 1 else 0)
  {
    assert (answers + [a])[..|answers|] == answers;
  }

  lemma PushedStep(s: Settings, f: Frontier, h: History, inflight: int, closest: seq<Reply>, a: Answer,
                   successes: int, errors: int)
    requires ResultsInv(s, h.answers, |h.timedOut|, closest, successes, errors) && WalkInv(s, f, h, inflight, closest)
    ensures Ascending(s.target, closest) && |closest| <= K
    ensures SkipsOk(s.target, h.skipped, Pushed(s.target, closest, a))
    ensures var c := Pushed(s.target, closest, a);
            if IsSuccess(a.resp) then ResultsInv(s, h.answers + [a], |h.timedOut|, c, successes + 1, errors)
            else ResultsInv(s, h.answers + [a], |h.timedOut|, c, successes, errors + 1)
  {
    hide Nearer, Capped, Insert, Learned, CountSuccesses, WalkOk, CoversAnswers, FirstReply, HasId, Ascending, SkipsOk;
    LearnedStep(h.answers, a);
    if IsSuccess(a.resp) && ReplyOf(a.node, a.resp).fromId != ZERO_ID {
      SkipsStayOk(s.target, h.skipped, Learned(h.answers), closest, ReplyOf(a.node, a.resp));
    }
  }

  lemma SkipsStayOk(t: NodeId, skipped: seq<PendingNode>, learned: seq<Reply>, closest: seq<Reply>, r: Reply)
    requires KNearest(t, learned, closest) && SkipsOk(t, skipped, closest)
    ensures KNearest(t, learned + [r], Capped(Insert(t, closest, r))) &&
              SkipsOk(t, skipped, Capped(Insert(t, closest, r)))
  {
    hide Nearer, KNearest, Capped, Insert;
    PushKeepsKNearest(t, learned, closest, r);
    var c := Capped(Insert(t, closest, r));
    forall n | n in skipped ensures n.id != ZERO_ID && |c| == K && !Nearer(t, n.id, c[K - 1].fromId) {
      if Nearer(t, n.id, c[K - 1].fromId) && c[K - 1] != closest[K - 1] {
        NearerTransitive(t, n.id, c[K - 1].fromId, closest[K - 1].fromId);
      }
    }
  }

  lemma AnswerStep(s: Settings, f: Frontier, h: History, inflight: int, closest: seq<Reply>, a: Answer, c: seq<Reply>)
    requires WalkInv(s, f, h, inflight, closest) && a.node.addr in h.outstanding && SkipsOk(s.target, h.skipped, c)
    ensures var g := OfferAll(f.(seen := f.seen[a.node.addr := DONE]), Candidates(a.resp.closer, a.ownId, s.peerId),
              s.filter);
            && WalkInv(s, g, h.Answer(a).Offered(g.seen), inflight - 1, c)
            && (NothingLost(h.place) ==> NothingLost(h.Answer(a).Offered(g.seen).place))
  {
    hide WalkOk, SkipsOk, NothingLost, EndOk, OfferAll, Candidates;
    var f1 := f.(seen := f.seen[a.node.addr := DONE]);
    var g := OfferAll(f1, Candidates(a.resp.closer, a.ownId, s.peerId), s.filter);
    AnswerArrives(f, h, a);
    OfferAllKeepsWalk(f1, h.Answer(a), Candidates(a.resp.closer, a.ownId, s.peerId), s.filter);
    OfferAllGrows(f1, Candidates(a.resp.closer, a.ownId, s.peerId), s.filter);
    AnswerIsCovered(f1, h.answers, a, s.peerId, s.filter);
    MoveLosesNothing(h.place, a.node.addr, Answered);
    OfferedLosesNothing(h.Answer(a), g.seen);
  }

  lemma TimeoutStep(s: Settings, f: Frontier, h: History, inflight: int, closest: seq<Reply>, a: Ipv4Address)
    requires WalkInv(s, f, h, inflight, closest) && a in h.outstanding
    ensures WalkInv(s, f.(seen := f.seen[a := DOWN]), h.TimeOut(a), inflight - 1, closest)
    ensures NothingLost(h.place) ==> NothingLost(h.TimeOut(a).place)
    ensures |h.TimeOut(a).timedOut| == |h.timedOut| + 1
  {
    hide WalkOk, SkipsOk, NothingLost, EndOk;
    TimeoutArrives(f, h, a);
    MoveLosesNothing(h.place, a, TimedOut);
  }

  lemma TimeoutCounted(s: Settings, answers: seq<Answer>, timeouts: nat, closest: seq<Reply>, successes: int,
                       errors: int)
    requires ResultsInv(s, answers, timeouts, closest, successes, errors)
    ensures ResultsInv(s, answers, timeouts + 1, closest, successes, errors + 1)
  {
  }

  lemma LateStep(s: Settings, f: Frontier, h: History, inflight: int, closest: seq<Reply>, a: Ipv4Address)
    requires WalkInv(s, f, h, inflight, closest) && a in h.outstanding
    ensures WalkInv(s, f, h.Late(a), inflight - 1, closest)
  {
    hide WalkOk, SkipsOk, CoversAnswers;
    TooLateArrives(f, h, a);
  }

  lemma NothingInFlight(s: Settings, f: Frontier, h: History, inflight: int, closest: seq<Reply>)
    requires WalkInv(s, f, h, inflight, closest)
    ensures inflight >= 0 && (inflight == 0 <==> h.outstanding == {})
  {
    hide WalkOk, CoversAnswers, SkipsOk;
  }

  lemma SingleOffer(f: Frontier, n: PendingNode, filter: Filter)
    ensures OfferAll(f, [n], filter) == Offer(f, n, filter)
  {
    assert [n][..0] == [];
  }

  /** No address was dropped from the stack or answered too late. */
  ghost predicate NothingLost(place: map<Ipv4Address, Place>) {
    forall a :: a in place ==> place[a] != Dropped && place[a] != TooLate
  }

  lemma OfferedLosesNothing(h: History, seen: map<Ipv4Address, NodeState>)
    ensures NothingLost(h.place) ==> NothingLost(h.Offered(seen).place)
  {
  }

  lemma MoveLosesNothing(place: map<Ipv4Address, Place>, a: Ipv4Address, p: Place)
    requires p != Dropped && p != TooLate
    ensures NothingLost(place) ==> NothingLost(place[a := p])
  {
  }

  predicate Final(p: Place) {
    p == Answered || p == TimedOut || p == Skipped
  }

  /** What is left of a walk that has ended by itself: everything seen then is settled, everything seen
      later was offered later, and the answers are covered by what was seen then. */
  ghost predicate EndOk(s: Settings, atEnd: map<Ipv4Address, NodeState>, afterEnd: set<Ipv4Address>, h: History) {
    && (forall a :: a in atEnd ==> Final(At(h.place, a)))
    && (forall a :: a in h.place ==> a in atEnd || a in afterEnd)
    && CoversAnswers(atEnd, h.answers, s.peerId, s.filter)
  }

  lemma WalkSettles(s: Settings, f: Frontier, h: History, inflight: int, closest: seq<Reply>,
                    afterEnd: set<Ipv4Address>)
    requires WalkInv(s, f, h, inflight, closest) && NothingLost(h.place) && f.pending == [] && h.outstanding == {}
    ensures EndOk(s, f.seen, afterEnd, h)
  {
    hide CoversAnswers, SkipsOk, VisitsOk, SkippedOk, AnswersOk, HasAddr, DistinctAddrs;
    EmptyStack();
    forall a | a in f.seen ensures Final(At(h.place, a)) {
      assert !HasAddr(f.pending, a) && a !in h.outstanding;
    }
  }

  lemma EndKeepsOffer(s: Settings, atEnd: map<Ipv4Address, NodeState>, afterEnd: set<Ipv4Address>, f: Frontier,
                      h: History, n: PendingNode)
    requires EndOk(s, atEnd, afterEnd, h) && WalkOk(f, h) && n.addr in afterEnd
    ensures EndOk(s, atEnd, afterEnd, h.Offered(Offer(f, n, s.filter).seen))
  {
    hide WalkOk, CoversAnswers;
    SeenIsPlaced(f, h);
  }

  lemma EndKeepsDrop(s: Settings, atEnd: map<Ipv4Address, NodeState>, afterEnd: set<Ipv4Address>, h: History)
    requires EndOk(s, atEnd, afterEnd, h)
    ensures EndOk(s, atEnd, afterEnd, h.Drop())
  {
    hide CoversAnswers;
    DropMoves(h);
  }

  function Min(a: int, b: int): int {
    if a < b then a else b
  }

  function Max(a: int, b: int): int {
    if a < b then b else a
  }

  // ------------------------------------------------------------------------------------------
  // One turn of the walk, on values
  // ------------------------------------------------------------------------------------------

  /** Where the walk stands. */
  datatype Walker = Walker(seen: map<Ipv4Address, NodeState>, pending: seq<PendingNode>, inflight: int, hist: History,
                           fromTable: bool, slowdown: bool)

  /** One turn of the pop loop. */
  function AfterTop(t: NodeId, closest: seq<Reply>, w: Walker): Walker
    requires w.pending != []
  {
    var n, below := w.pending[|w.pending| - 1], w.pending[..|w.pending| - 1];
    if WorthVisiting(t, closest, n) then w.(pending := below, inflight := w.inflight + 1, hist := w.hist.Visit(n))
    else w.(pending := below, hist := w.hist.Skip(n))
  }

  /** The pop loop: the top of the stack is visited or skipped until enough visits are in flight. */
  function Popped(t: NodeId, closest: seq<Reply>, w: Walker, effective: int): Walker
    decreases |w.pending|
  {
    if w.inflight >= effective || w.pending == [] then w
    else Popped(t, closest, AfterTop(t, closest, w), effective)
  }

  /** The slowdown starts after the pop loop, while nothing has come back and the table was not asked. */
  function Dispatched(t: NodeId, closest: seq<Reply>, concurrency: int, heard: bool, w: Walker): Walker {
    Popped(t, closest, w, if w.slowdown then SLOWDOWN_CONCURRENCY else concurrency)
      .(slowdown := w.slowdown || (!w.fromTable && !heard))
  }

  /** A list of nodes offered one after the other. */
  function Fed(w: Walker, ns: seq<PendingNode>, filter: Filter): Walker {
    var g := OfferAll(Frontier(w.seen, w.pending), ns, filter);
    w.(seen := g.seen, pending := g.pending, hist := w.hist.Offered(g.seen))
  }

  /** seed_from_table: the stack is filled up to K from the table, the nearest node on top. */
  function Seeded(s: Settings, id: NodeId, view: Routing.View, w: Walker): Walker
    requires |view| == ID_BITS
  {
    if |w.pending| >= K then w
    else
      var ns := FromTable(Routing.Closest(id, view, s.target, K - |w.pending|));
      Fed(w, Backwards(ns), s.filter).(fromTable := true)
  }

  /** read_more: once the stack is empty and nothing in flight, a walk with few successes that has not
      asked the table does so and goes on. */
  function ReadOn(s: Settings, id: NodeId, view: Routing.View, closest: seq<Reply>, concurrency: int, successes: int,
                  errors: int, w: Walker): Walker
    requires |view| == ID_BITS
  {
    var heard := successes != 0 || errors != 0;
    var d := Dispatched(s.target, closest, concurrency, heard, w);
    if d.pending != [] || d.inflight > 0 || d.fromTable || successes >= K / 4 then d
    else Dispatched(s.target, closest, concurrency, heard, Seeded(s, id, view, d))
  }

  lemma SeededEnough(s: Settings, id: NodeId, view: Routing.View, w: Walker)
    requires |view| == ID_BITS && |w.pending| >= K
    ensures Seeded(s, id, view, w) == w
  {
  }

  /** start(): the stack that the first turn works on. */
  function Stacked(s: Settings, id: NodeId, view: Routing.View, preSeeds: seq<PendingNode>, w: Walker): Walker
    requires |view| == ID_BITS
  {
    Seeded(s, id, view, Fed(w, Backwards(preSeeds), s.filter))
  }

  /** A response: its address is answered, its closer nodes are offered, and the slowdown ends once as
      many answers as the concurrency have come back. */
  function AfterAnswer(s: Settings, concurrency: int, heard: int, a: Answer, w: Walker): Walker {
    var f := Frontier(w.seen[a.node.addr := DONE], w.pending);
    var g := OfferAll(f, Candidates(a.resp.closer, a.ownId, s.peerId), s.filter);
    w.(seen := g.seen, pending := g.pending, inflight := w.inflight - 1, hist := w.hist.Answer(a).Offered(g.seen),
       slowdown := w.slowdown && (w.fromTable || heard < concurrency))
  }

  function AfterTimeout(a: Ipv4Address, w: Walker): Walker {
    w.(seen := w.seen[a := DOWN], inflight := w.inflight - 1, hist := w.hist.TimeOut(a))
  }

  lemma {:induction false} PoppedKeeps(t: NodeId, closest: seq<Reply>, w: Walker, effective: int)
    ensures var r := Popped(t, closest, w, effective);
            && r.pending <= w.pending && r.seen == w.seen && r.fromTable == w.fromTable && r.slowdown == w.slowdown
            && (r.pending == [] || r.inflight >= effective)
            && w.inflight <= r.inflight <= Max(w.inflight, effective)
            && r.hist.answers == w.hist.answers && r.hist.timedOut == w.hist.timedOut
    decreases |w.pending|
  {
    hide WorthVisiting;
    if w.inflight < effective && w.pending != [] {
      PoppedKeeps(t, closest, AfterTop(t, closest, w), effective);
    }
  }

  /** What the pop loop visits and skips, in the order of the stack. */
  lemma {:induction false} PoppedAre(t: NodeId, closest: seq<Reply>, w: Walker, effective: int)
    ensures var r := Popped(t, closest, w, effective);
            && r.pending <= w.pending
            && r.hist.visited == w.hist.visited + Chosen(t, closest, w.pending[|r.pending|..], true)
            && r.hist.skipped == w.hist.skipped + Chosen(t, closest, w.pending[|r.pending|..], false)
    decreases |w.pending|
  {
    hide WorthVisiting, Chosen, AfterTop;
    ChosenNone(t, closest);
    TopIsGone(t, closest, w);
    if w.inflight < effective && w.pending != [] {
      var r := Popped(t, closest, w, effective);
      var n, below := w.pending[|w.pending| - 1], w.pending[..|w.pending| - 1];
      var next := AfterTop(t, closest, w);
      PoppedAre(t, closest, next, effective);
      assert below[|r.pending|..] + [n] == w.pending[|r.pending|..];
      ChosenLast(t, closest, below[|r.pending|..], n);
      TopIsChosen(t, closest, w, true, Chosen(t, closest, below[|r.pending|..], true));
      TopIsChosen(t, closest, w, false, Chosen(t, closest, below[|r.pending|..], false));
    } else {
      assert w.pending[|w.pending|..] == [];
    }
  }

  lemma TopIsChosen(t: NodeId, closest: seq<Reply>, w: Walker, worth: bool, rest: seq<PendingNode>)
    requires w.pending != []
    ensures var n, h := w.pending[|w.pending| - 1], AfterTop(t, closest, w).hist;
            var top := if WorthVisiting(t, closest, n) == worth then [n] else [];
            (if worth then h.visited else h.skipped) + rest ==
              (if worth then w.hist.visited else w.hist.skipped) + (top + rest)
  {
    hide WorthVisiting;
  }

  lemma TopIsGone(t: NodeId, closest: seq<Reply>, w: Walker)
    ensures w.pending != [] ==> AfterTop(t, closest, w).pending == w.pending[..|w.pending| - 1]
  {
  }

  lemma ChosenNone(t: NodeId, closest: seq<Reply>)
    ensures forall worth :: Chosen(t, closest, [], worth) == []
  {
  }

  lemma {:induction false} ChosenLast(t: NodeId, closest: seq<Reply>, s: seq<PendingNode>, n: PendingNode)
    ensures forall worth ::
              Chosen(t, closest, s + [n], worth) ==
              (if WorthVisiting(t, closest, n) == worth then [n] else []) + Chosen(t, closest, s, worth)
  {
    hide WorthVisiting;
    if s == [] {
      assert (s + [n])[1..] == [];
    } else {
      ChosenLast(t, closest, s[1..], n);
      assert (s + [n])[1..] == s[1..] + [n];
    }
  }

  /** The pop loop takes no more than it needs: above every node it took, too few were worth visiting. */
  lemma {:induction false} PoppedNoMore(t: NodeId, closest: seq<Reply>, w: Walker, effective: int, k: nat)
    requires |Popped(t, closest, w, effective).pending| < k <= |w.pending|
    ensures w.inflight + |Chosen(t, closest, w.pending[k..], true)| < effective
    decreases |w.pending|
  {
    hide WorthVisiting, Chosen;
    ChosenNone(t, closest);
    if k < |w.pending| {
      var n, below := w.pending[|w.pending| - 1], w.pending[..|w.pending| - 1];
      PoppedNoMore(t, closest, AfterTop(t, closest, w), effective, k);
      assert w.pending[k..] == below[k..] + [n];
      ChosenLast(t, closest, below[k..], n);
    } else {
      assert w.pending[k..] == [];
    }
  }

  /** How many visits are in flight after the pop loop. */
  lemma {:induction false} PoppedInFlight(t: NodeId, closest: seq<Reply>, w: Walker, effective: int)
    ensures Popped(t, closest, w, effective).inflight ==
            if w.inflight >= effective then w.inflight
            else Min(effective, w.inflight + |Chosen(t, closest, w.pending, true)|)
    decreases |w.pending|
  {
    hide WorthVisiting, Chosen;
    ChosenNone(t, closest);
    if w.inflight < effective && w.pending != [] {
      var n, below := w.pending[|w.pending| - 1], w.pending[..|w.pending| - 1];
      assert below + [n] == w.pending;
      ChosenLast(t, closest, below, n);
      PoppedInFlight(t, closest, AfterTop(t, closest, w), effective);
    }
  }

  /** The slowdown raises the concurrency: a turn puts more in flight than that exactly if it is below 3,
      the slowdown is on and the stack has enough worth visiting. */
  lemma SlowdownRaisesExactly(t: NodeId, closest: seq<Reply>, concurrency: int, heard: bool, w: Walker)
    requires w.inflight <= concurrency
    ensures Dispatched(t, closest, concurrency, heard, w).inflight > concurrency <==>
            w.slowdown && concurrency < 3
            && w.inflight + |Chosen(t, closest, w.pending, true)| > concurrency
  {
    hide Chosen, Popped;
    PoppedInFlight(t, closest, w, if w.slowdown then SLOWDOWN_CONCURRENCY else concurrency);
  }

  lemma DispatchKeepsTable(t: NodeId, closest: seq<Reply>, concurrency: int, heard: bool, w: Walker)
    ensures Dispatched(t, closest, concurrency, heard, w).fromTable == w.fromTable
  {
    hide Popped;
    PoppedKeeps(t, closest, w, if w.slowdown then SLOWDOWN_CONCURRENCY else concurrency);
  }

  /** With a concurrency of 0 or less, and no slowdown, a turn visits nothing and leaves the stack alone. */
  lemma NothingIsDispatched(t: NodeId, closest: seq<Reply>, concurrency: int, heard: bool, w: Walker)
    requires concurrency <= 0 <= w.inflight && !w.slowdown
    ensures Dispatched(t, closest, concurrency, heard, w) == w.(slowdown := !w.fromTable && !heard)
  {
  }

  /** The stall: after start() there is pending work and nothing in flight exactly when the concurrency is
      0 or less and there is anything on the stack. */
  lemma StartStallsExactly(s: Settings, id: NodeId, view: Routing.View, preSeeds: seq<PendingNode>, concurrency: int,
                           w: Walker)
    requires |view| == ID_BITS && w.inflight == 0 && !w.slowdown && !w.fromTable
    ensures var stack := Stacked(s, id, view, preSeeds, w);
            var r := ReadOn(s, id, view, [], concurrency, 0, 0, stack);
            r.pending != [] && r.inflight == 0 <==> concurrency <= 0 && stack.pending != []
  {
    hide OfferAll, Backwards, FromTable, Routing.Closest, History.Offered;
    var stack := Stacked(s, id, view, preSeeds, w);
    PoppedKeeps(s.target, [], stack, concurrency);
    if concurrency <= 0 {
      NothingIsDispatched(s.target, [], concurrency, false, stack);
    } else if stack.pending != [] {
      PoppedKeeps(s.target, [], AfterTop(s.target, [], stack), concurrency);
    }
  }

  // ------------------------------------------------------------------------------------------
  // The query
  // ------------------------------------------------------------------------------------------

  class Query {
    const settings: Settings
    const table: Routing.Table
    const concurrency: int
    const hasOnReply: bool
    const hasOnDone: bool
    const hasOnCommit: bool

    var done: bool
    var committing: bool
    var inflight: int
    var commitInflight: int
    var dispatching: bool
    var pendingDone: bool
    var fired: bool
    var fromTable: bool
    var slowdown: bool
    var successes: int
    var errors: int
    var closest: seq<Reply>
    var pending: seq<PendingNode>
    var preSeeds: seq<PendingNode>
    var seen: map<Ipv4Address, NodeState>
    /** The commits whose reply callback has not been called; each is called at most once. */
    var commitOutstanding: set<nat>

    // History
    ghost var started: bool
    ghost var destroyed: bool
    /** The walk ended through maybe_finish. */
    ghost var finished: bool
    ghost var hist: History
    /** The calls of on_reply, on_commit and on_done, with their arguments. */
    ghost var replyCalls: seq<Reply>
    ghost var commits: seq<Reply>
    ghost var doneCalls: nat
    ghost var reported: seq<Reply>
    /** Completion was reported while a commit was still to be sent or to be answered. */
    ghost var early: bool
    /** A bootstrap node was added since the last event of a started walk. */
    ghost var late: bool
    /** The seen map when the walk ended, and the addresses added later. */
    ghost var atEnd: map<Ipv4Address, NodeState>
    ghost var afterEnd: set<Ipv4Address>
    /** Every seed, from the caller or the table, had the id that follows from its address. */
    ghost var validSeeds: bool

    ghost predicate Walk()
      reads `seen, `pending, `hist, `inflight, `closest
    {
      WalkInv(settings, Frontier(seen, pending), hist, inflight, closest)
    }

    ghost predicate Results()
      reads `hist, `closest, `successes, `errors
    {
      ResultsInv(settings, hist.answers, |hist.timedOut|, closest, successes, errors)
    }

    /** The life cycle by itself. */
    ghost predicate Phase()
      reads `destroyed, `finished, `done, `committing, `pendingDone, `fired, `commitInflight, `commits,
            `commitOutstanding, `doneCalls
    {
      && (destroyed ==> done)
      && (finished ==> committing || done)
      && (pendingDone ==> done)
      && commitInflight == |commitOutstanding|
      && (!finished ==> commits == [] && commitOutstanding == {})
      && doneCalls == (if fired then 1 else 0)
      && (fired ==> done && hasOnDone)
    }

    /** What the life cycle says about the walk. */
    ghost predicate Life()
      reads `started, `destroyed, `finished, `done, `committing, `fired, `reported, `inflight, `hist, `closest,
            `fromTable, `successes, `slowdown, `atEnd, `afterEnd
    {
      && inflight <= Max(concurrency, SLOWDOWN_CONCURRENCY)
      && (done || committing ==> finished || destroyed)
      && (!destroyed ==> NothingLost(hist.place))
      && (finished ==> started && hist.outstanding == {} && EndOk(settings, atEnd, afterEnd, hist))
      && (!started || concurrency <= 0 ==> hist.visited == [])
      && (!started ==> hist.skipped == [] && !slowdown && !fromTable)
      && (finished ==> fromTable || successes >= K / 4)
      && (fired ==> reported == closest)
    }

    ghost predicate Ids()
      reads `validSeeds, `pending, `hist, `preSeeds
    {
      validSeeds ==>
        AllNamed(pending, settings.peerId) && AllNamed(hist.skipped, settings.peerId) &&
        AllNamed(preSeeds, settings.peerId)
    }

    ghost predicate Core()
      reads `started, `destroyed, `finished, `done, `committing, `pendingDone, `fired, `commitInflight, `commits,
            `commitOutstanding, `doneCalls, `reported, `inflight, `hist, `pending, `seen, `closest, `successes,
            `errors, `fromTable, `slowdown, `atEnd, `afterEnd, `validSeeds, `preSeeds
    {
      Walk() && Results() && Phase() && Life() && Ids()
    }

    /** The number of commits to be sent once the walk has ended. */
    ghost function Due(): nat
      reads `finished, `closest
    {
      if finished && hasOnCommit then |WithToken(closest)| else 0
    }

    ghost predicate EarlyNow()
      reads `finished, `closest, `commits, `commitOutstanding
    {
      |commits| < Due() || commitOutstanding != {}
    }

    /** What the commits leave behind: one for each result with a token; the query is done exactly if there
        is none or a callback ended it, and that was too early exactly if the callbacks say so. */
    ghost predicate CommitsMade(acts: nat -> CommitAct)
      reads `commits, `closest, `commitOutstanding, `done, `early
    {
      && commits == WithToken(closest)
      && commitOutstanding == OpenAfter(acts, |commits|)
      && (done <==> commits == [] || Ends(acts, |commits|))
      && (done && hasOnDone ==> (early <==> EndsEarly(acts, |commits|)))
    }

    /** After a turn the walk has ended exactly if nothing is pending and nothing in flight, and only then
        the query may be done. */
    ghost predicate TurnEnded(acts: nat -> CommitAct)
      reads `finished, `pending, `inflight, `commits, `closest, `commitOutstanding, `done, `early
    {
      && finished == (pending == [] && inflight <= 0)
      && (done ==> finished)
      && (finished && hasOnCommit ==> CommitsMade(acts))
    }

    /** What holds between events: completion has been reported if the query is done, and a running
        query always waits for something. */
    ghost predicate Quiet()
      reads this
    {
      && !dispatching
      && !pendingDone
      && (done && hasOnDone ==> fired)
      && (finished && hasOnCommit ==> commits == WithToken(closest))
      && (finished && !done ==> commitOutstanding != {})
      && (started && !done && !finished && concurrency >= 1 ==>
            inflight > 0 && (pending != [] && !late ==>
              inflight >= (if slowdown then Min(concurrency, SLOWDOWN_CONCURRENCY) else concurrency)))
    }

    ghost predicate Valid()
      reads this
    {
      Core() && Quiet()
    }

    ghost function Position(): Walker
      reads `seen, `pending, `inflight, `hist, `fromTable, `slowdown
    {
      Walker(seen, pending, inflight, hist, fromTable, slowdown)
    }

    constructor (settings: Settings, table: Routing.Table, concurrency: int, hasOnReply: bool, hasOnDone: bool,
                 hasOnCommit: bool)
      ensures Valid() && !started && !done && pending == [] && preSeeds == [] && hist == NO_HISTORY && doneCalls == 0
      ensures seen == map[] && closest == [] && inflight == 0 && successes == 0 && errors == 0
      ensures !fromTable && !slowdown && validSeeds
      ensures this.settings == settings && this.table == table && this.concurrency == concurrency
      ensures this.hasOnReply == hasOnReply && this.hasOnDone == hasOnDone && this.hasOnCommit == hasOnCommit
    {
      this.settings, this.table := settings, table;
      this.concurrency, this.hasOnReply, this.hasOnDone, this.hasOnCommit :=
        concurrency, hasOnReply, hasOnDone, hasOnCommit;
      done, committing, dispatching, pendingDone, fired, fromTable, slowdown :=
        false, false, false, false, false, false, false;
      inflight, commitInflight, successes, errors := 0, 0, 0, 0;
      closest, pending, preSeeds, seen := [], [], [], map[];
      started, destroyed, finished := false, false, false;
      hist := NO_HISTORY;
      replyCalls, commits, commitOutstanding, doneCalls := [], [], {}, 0;
      early, late, atEnd, afterEnd, validSeeds := false, false, map[], {}, true;
    }

    method AddPending(n: PendingNode)
      modifies this`seen, this`pending
      ensures Frontier(seen, pending) == old(Offer(Frontier(seen, pending), n, settings.filter))
      ensures n.addr in old(seen) || |old(seen)| >= 4096 || !settings.filter(n.id, n.addr) ==>
                seen == old(seen) && pending == old(pending)
      ensures n.addr !in old(seen) && |old(seen)| < 4096 && settings.filter(n.id, n.addr) ==>
                seen == old(seen)[n.addr := PENDING] && pending == old(pending) + [n]
    {
      if n.addr in seen {
        return;
      }
      if |seen| >= MAX_SEEN {
        return;
      }
      if !settings.filter(n.id, n.addr) {
        return;
      }
      seen := seen[n.addr := PENDING];
      pending := pending + [n];
    }

    /** Pushes a list of nodes onto the pending stack, last one first. */
    method AddBackwards(ns: seq<PendingNode>)
      modifies `seen, `pending
      ensures Frontier(seen, pending) == old(OfferAll(Frontier(seen, pending), Backwards(ns), settings.filter))
    {
      hide Offer;
      var i := |ns|;
      ghost var f, pushed: seq<PendingNode> := Frontier(seen, pending), [];
      assert ns[..|ns|] == ns;
      while i > 0
        invariant 0 <= i <= |ns|
        invariant Backwards(ns) == pushed + Backwards(ns[..i])
        invariant Frontier(seen, pending) == OfferAll(f, pushed, settings.filter)
      {
        i := i - 1;
        assert ns[..i + 1][..i] == ns[..i];
        AddPending(ns[i]);
        assert (pushed + [ns[i]])[..|pushed|] == pushed;
        pushed := pushed + [ns[i]];
      }
      assert pushed == Backwards(ns);
    }

    /** A node without id is offered, at any time: it is visited with the next event of a running walk, and
        never once the walk has ended. */
    method AddBootstrap(addr: Ipv4Address)
      requires Valid()
      modifies `seen, `pending, `hist, `late, `afterEnd
      ensures Valid() && Frontier(seen, pending) ==
                old(Offer(Frontier(seen, pending), PendingNode(ZERO_ID, addr), settings.filter))
      ensures hist == old(hist).Offered(seen) && late == (old(late) || started)
      ensures afterEnd == old(afterEnd) + (if finished then {addr} else {})
    {
      hide Core, Offer, History.Offered, WithToken;
      NoteLate(addr);
      OfferBootstrap(PendingNode(ZERO_ID, addr));
      late := late || started;
    }

    method OfferBootstrap(n: PendingNode)
      requires Core() && n.id == ZERO_ID && (finished ==> n.addr in afterEnd)
      modifies `seen, `pending, `hist
      ensures Core() && Frontier(seen, pending) == old(Offer(Frontier(seen, pending), n, settings.filter))
      ensures hist == old(hist).Offered(seen)
      ensures hist.visited == old(hist.visited) && hist.outstanding == old(hist.outstanding)
    {
      hide Phase, WalkInv, ResultsInv, NothingLost, EndOk, OfferAll, Offer, AllNamed, History.Offered;
      BootstrapIsOffered(Frontier(seen, pending), n);
      AddPending(n);
      hist := hist.Offered(seen);
      assert Walk() && Results() && Ids();
      assert Life();
    }

    ghost method NoteLate(addr: Ipv4Address)
      requires Core()
      modifies `afterEnd
      ensures Core() && afterEnd == old(afterEnd) + (if finished then {addr} else {})
    {
      hide Walk, Results, Phase, Ids, NothingLost, CoversAnswers;
      if finished {
        afterEnd := afterEnd + {addr};
      }
    }

    lemma BootstrapIsOffered(f: Frontier, n: PendingNode)
      requires Core() && f == Frontier(seen, pending) && n.id == ZERO_ID && (finished ==> n.addr in afterEnd)
      ensures var g := Offer(f, n, settings.filter);
              && WalkInv(settings, g, hist.Offered(g.seen), inflight, closest)
              && (NothingLost(hist.place) ==> NothingLost(hist.Offered(g.seen).place))
              && hist.Offered(g.seen).(place := map[]) == hist.(place := map[])
              && (validSeeds ==> AllNamed(g.pending, settings.peerId))
              && (finished ==> EndOk(settings, atEnd, afterEnd, hist.Offered(g.seen)))
    {
      hide Phase, WalkOk, ResultsInv, NothingLost, EndOk, OfferAll, Offer, CoversAnswers, SkipsOk;
      SingleOffer(f, n, settings.filter);
      OfferStep(settings, f, hist, inflight, closest, [n]);
      if validSeeds {
        OfferedAreNamed(f, [n], settings.filter, settings.peerId);
      }
      if finished {
        EndKeepsOffer(settings, atEnd, afterEnd, f, hist, n);
      }
    }

    method AddSeedNode(id: NodeId, addr: Ipv4Address)
      requires Valid()
      modifies `preSeeds, `validSeeds
      ensures Valid() && preSeeds == old(preSeeds) + [PendingNode(id, addr)]
      ensures validSeeds == (old(validSeeds) && Named(PendingNode(id, addr), settings.peerId))
    {
      hide Walk, Results, Phase, Life, WithToken;
      preSeeds := preSeeds + [PendingNode(id, addr)];
      validSeeds := validSeeds && Named(PendingNode(id, addr), settings.peerId);
    }

    /** Offers a list of nodes, last one first. */
    method Feed(ns: seq<PendingNode>)
      requires Core() && !finished && (validSeeds ==> AllNamed(ns, settings.peerId))
      modifies `seen, `pending, `hist
      ensures Core() && Position() == Fed(old(Position()), Backwards(ns), settings.filter)
      ensures hist.answers == old(hist.answers) && hist.timedOut == old(hist.timedOut)
    {
      hide Phase, WalkInv, ResultsInv, NothingLost, EndOk, OfferAll, Offer, Backwards, AllNamed;
      if validSeeds {
        BackwardsAreNamed(ns, settings.peerId);
        OfferedAreNamed(Frontier(seen, pending), Backwards(ns), settings.filter, settings.peerId);
      }
      OfferStep(settings, Frontier(seen, pending), hist, inflight, closest, Backwards(ns));
      AddBackwards(ns);
      hist := hist.Offered(seen);
      assert Walk() && Results() && Ids();
      assert Life();
    }

    /** The nodes that the table gives for a stack of n. */
    ghost function Asked(n: nat): seq<PendingNode>
      requires table.Valid()
      reads table, table.buckets
    {
      if n >= K then [] else FromTable(Routing.Closest(table.id, table.buckets[..], settings.target, K - n))
    }

    method SeedFromTable()
      requires Core() && started && !finished && table.Valid()
      modifies `seen, `pending, `fromTable, `validSeeds, `hist
      ensures Core() && fromTable == (old(fromTable) || |old(pending)| < K)
      ensures Position() == Seeded(settings, table.id, table.buckets[..], old(Position()))
      ensures validSeeds == (old(validSeeds) && AllNamed(Asked(|old(pending)|), settings.peerId))
      ensures hist.answers == old(hist.answers) && hist.timedOut == old(hist.timedOut)
    {
      hide Core, Routing.TableOk, Routing.Total, OfferAll, FromTable, Backwards, Routing.Closest, History.Offered;
      if |pending| >= K {
        return;
      }
      AskTable();
      var need := K - |pending|;
      var nodes := table.ClosestNodes(settings.target, need);
      NoteIds(FromTable(nodes));
      Feed(FromTable(nodes));
    }

    ghost method NoteIds(ns: seq<PendingNode>)
      requires Core()
      modifies `validSeeds
      ensures Core() && validSeeds == (old(validSeeds) && AllNamed(ns, settings.peerId))
    {
      hide Walk, Results, Phase, Life, AllNamed;
      validSeeds := validSeeds && AllNamed(ns, settings.peerId);
    }

    method AskTable()
      requires Core() && started
      modifies `fromTable
      ensures Core() && fromTable
    {
      hide Walk, Results, Phase, NothingLost, EndOk;
      fromTable := true;
      assert Life();
    }

    method Visit(n: PendingNode)
      modifies `inflight, `hist
      ensures inflight == old(inflight) + 1 && hist == old(hist).Visit(n)
    {
      inflight := inflight + 1;
      hist := hist.Visit(n);
    }

    /** Takes the top of the stack and visits it, unless it is no longer closer than the k-th reply. */
    method PopNext()
      requires Core() && started && !finished && !done && pending != [] &&
                inflight < Max(concurrency, SLOWDOWN_CONCURRENCY)
      requires concurrency >= 1
      modifies `pending, `inflight, `hist
      ensures Core() && pending == old(pending)[..|old(pending)| - 1]
      ensures var n := old(pending)[|old(pending)| - 1];
              hist == if WorthVisiting(settings.target, closest, n) then old(hist).Visit(n) else old(hist).Skip(n)
      ensures inflight == old(inflight) +
                (if WorthVisiting(settings.target, closest, old(pending)[|old(pending)| - 1]) then 1 else 0)
      ensures var n := old(pending)[|old(pending)| - 1];
              inflight == old(inflight) <==>
                n.id != ZERO_ID && |closest| >= K && !Nearer(settings.target, n.id, closest[|closest| - 1].fromId)
    {
      hide Phase, WalkInv, ResultsInv, NothingLost, EndOk, WithToken, Routing.TableOk, Routing.Total, Nearer, Named;
      ghost var f := Frontier(seen, pending);
      ResultsAreCapped(settings, hist.answers, |hist.timedOut|, closest, successes, errors);
      var next := pending[|pending| - 1];
      pending := pending[..|pending| - 1];
      if next.id != ZERO_ID && !IsCloser(settings.target, closest, next.id) {
        SkipStep(settings, f, hist, inflight, closest);
        hist := hist.Skip(next);
        return;
      }
      VisitStep(settings, f, hist, inflight, closest);
      Visit(next);
    }

    /** The pop loop of read_more: nodes are taken from the top of the stack until enough visits are
        in flight. */
    method VisitPending(effective: int)
      requires Core() && started && !finished && !done && effective <= Max(concurrency, SLOWDOWN_CONCURRENCY)
      requires concurrency >= 1 || effective <= inflight
      modifies `pending, `inflight, `hist
      ensures Core() && Position() == Popped(settings.target, closest, old(Position()), effective)
    {
      hide Core, WorthVisiting;
      while inflight < effective && pending != []
        invariant Core() && (concurrency >= 1 || effective <= inflight)
        invariant Popped(settings.target, closest, Position(), effective) ==
                  Popped(settings.target, closest, old(Position()), effective)
        decreases |pending|
      {
        PopNext();
      }
    }

    /** The first half of read_more: visits, then the slowdown until something has come back. */
    method Dispatch()
      requires Core() && started && !finished && !done && (concurrency >= 1 || (!slowdown && inflight >= 0))
      modifies `pending, `inflight, `hist, `slowdown
      ensures Core()
      ensures Position() ==
                Dispatched(settings.target, closest, concurrency, successes != 0 || errors != 0, old(Position()))
      ensures concurrency >= 1 && pending != [] ==>
                inflight > 0 && inflight >= (if slowdown then Min(concurrency, SLOWDOWN_CONCURRENCY) else concurrency)
      ensures concurrency <= 0 ==> pending == old(pending) && inflight == old(inflight)
      ensures slowdown == (old(slowdown) || (!fromTable && successes == 0 && errors == 0))
      ensures hist.answers == old(hist).answers && hist.timedOut == old(hist).timedOut
    {
      hide Core, Popped;
      var effective := if slowdown then SLOWDOWN_CONCURRENCY else concurrency;
      ghost var w := Position();
      PoppedKeeps(settings.target, closest, w, effective);
      if concurrency <= 0 {
        NothingIsDispatched(settings.target, closest, concurrency, successes != 0 || errors != 0, w);
      }
      VisitPending(effective);
      if !fromTable && successes == 0 && errors == 0 {
        SetSlowdown();
      }
    }

    method SetSlowdown()
      requires Core() && started
      modifies `slowdown
      ensures Core() && slowdown
    {
      hide Walk, Results, Phase, NothingLost, EndOk;
      slowdown := true;
      assert Life();
    }

    method ClearSlowdown()
      requires Core() && started
      modifies `slowdown
      ensures Core() && !slowdown
    {
      hide Walk, Results, Phase, NothingLost, EndOk;
      slowdown := false;
      assert Life();
    }

    /** Dispatches pending nodes and, when nothing is pending or in flight, falls back to the routing
        table once or ends the walk. The ghost result counts the nested calls. */
    method ReadMore(acts: nat -> CommitAct) returns (ghost depth: nat)
      requires Core() && started && !dispatching && (done || (!finished && !pendingDone)) && table.Valid()
      requires done || concurrency >= 1 || (!slowdown && inflight >= 0 && (fromTable || pending != []))
      modifies `pending, `inflight, `hist, `seen, `fromTable, `validSeeds, `slowdown
      modifies `done, `committing, `commitInflight, `fired, `finished, `atEnd, `destroyed, `pendingDone
      modifies `commits, `commitOutstanding, `doneCalls, `reported, `early
      ensures Core()
      ensures old(done) ==> unchanged(this)
      ensures !old(done) ==> Quiet()
      ensures !old(done) ==> TurnEnded(acts)
      ensures !old(done) ==>
                Position() == ReadOn(settings, table.id, table.buckets[..], closest, concurrency, successes, errors,
                  old(Position()))
      ensures hist.answers == old(hist.answers) && hist.timedOut == old(hist.timedOut)
      ensures fromTable ==> old(fromTable) || successes < K / 4
      ensures 1 <= depth <= if old(fromTable) then 1 else 2
      decreases if fromTable then 0 else 1, 1
    {
      hide Core, Quiet, Dispatched, Seeded, Routing.TableOk, Routing.Total, Routing.Closest, History.Offered,
           CommitsMade;
      depth := 1;
      if done {
        return;
      }
      Dispatch();
      if pending != [] {
        Waits();
        return;
      }
      if inflight > 0 {
        Waits();
        return;
      }
      depth := Resume(acts);
    }

    /** The rest of read_more, with nothing pending and nothing in flight. */
    method Resume(acts: nat -> CommitAct) returns (ghost depth: nat)
      requires Core() && started && !dispatching && !done && !finished && !pendingDone && table.Valid()
      requires pending == [] && inflight <= 0 && (concurrency >= 1 || fromTable)
      modifies `pending, `inflight, `hist, `seen, `fromTable, `validSeeds, `slowdown
      modifies `done, `committing, `commitInflight, `fired, `finished, `atEnd, `destroyed, `pendingDone
      modifies `commits, `commitOutstanding, `doneCalls, `reported, `early
      ensures Core() && Quiet()
      ensures TurnEnded(acts)
      ensures hist.answers == old(hist.answers) && hist.timedOut == old(hist.timedOut)
      ensures fromTable ==> old(fromTable) || successes < K / 4
      ensures var w := old(Position());
              Position() == if w.fromTable || successes >= K / 4 then w
                            else Dispatched(settings.target, closest, concurrency, successes != 0 || errors != 0,
                                            Seeded(settings, table.id, table.buckets[..], w))
      ensures 1 <= depth <= if old(fromTable) then 1 else 2
      decreases if fromTable then 0 else 1, 0
    {
      hide Core, Quiet, Dispatched, Seeded, Routing.TableOk, Routing.Total, Routing.Closest, CommitsMade;
      depth := 1;
      if !fromTable && successes < K / 4 {
        SeedFromTable();
        if fromTable {
          depth := Again(acts);
          depth := depth + 1;
          return;
        }
      }
      MaybeFinish(acts);
    }

    /** The nested call of read_more, once the table has been asked. */
    method Again(acts: nat -> CommitAct) returns (ghost depth: nat)
      requires Core() && started && !dispatching && !done && !finished && !pendingDone && table.Valid() &&
                fromTable && concurrency >= 1
      modifies `pending, `inflight, `hist, `seen, `fromTable, `validSeeds, `slowdown
      modifies `done, `committing, `commitInflight, `fired, `finished, `atEnd, `destroyed, `pendingDone
      modifies `commits, `commitOutstanding, `doneCalls, `reported, `early
      ensures Core() && Quiet()
      ensures TurnEnded(acts)
      ensures hist.answers == old(hist.answers) && hist.timedOut == old(hist.timedOut)
      ensures Position() ==
                Dispatched(settings.target, closest, concurrency, successes != 0 || errors != 0, old(Position()))
      ensures depth == 1
      decreases 0, 2
    {
      hide Core, Quiet, Dispatched, Seeded, Routing.TableOk, Routing.Total, Routing.Closest, CommitsMade;
      DispatchKeepsTable(settings.target, closest, concurrency, successes != 0 || errors != 0, Position());
      depth := ReadMore(acts);
    }

    /** A walk that has something in flight is between events. */
    lemma Waits()
      requires Core() && started && !done && !finished && !dispatching && !pendingDone
      requires concurrency >= 1 ==>
                 inflight > 0 && (pending != [] ==>
                   inflight >= (if slowdown then Min(concurrency, SLOWDOWN_CONCURRENCY) else concurrency))
      ensures Quiet()
    {
      hide Walk, Results, Life, WithToken;
    }

    method FireDoneOnce()
      modifies `fired, `doneCalls, `reported, `early
      ensures fired == (old(fired) || hasOnDone)
      ensures early == (if !old(fired) && hasOnDone then old(EarlyNow()) else old(early))
      ensures !old(fired) && hasOnDone ==> doneCalls == old(doneCalls) + 1 && reported == closest
      ensures old(fired) || !hasOnDone ==> doneCalls == old(doneCalls) && reported == old(reported)
    {
      if !fired && hasOnDone {
        fired := true;
        doneCalls, reported, early := doneCalls + 1, closest, EarlyNow();
      }
    }

    method Complete()
      requires Core() && (finished || destroyed)
      modifies `done, `fired, `doneCalls, `reported, `early
      ensures Core() && done && fired == (old(fired) || hasOnDone)
      ensures early == (if !old(fired) && hasOnDone then old(EarlyNow()) else old(early))
    {
      hide Walk, Results, NothingLost, EndOk, Ids, WithToken;
      done := true;
      FireDoneOnce();
    }

    method MaybeFinish(acts: nat -> CommitAct)
      requires Core() && started && !dispatching && !pendingDone && !done && !finished &&
                (fromTable || successes >= K / 4)
      modifies `done, `committing, `commitInflight, `fired, `finished, `atEnd, `destroyed, `hist
      modifies `pendingDone, `pending, `commits, `commitOutstanding, `doneCalls, `reported, `early
      ensures Core()
      ensures finished == (inflight <= 0 && old(pending) == []) && (done ==> finished)
      ensures finished ==> Quiet()
      ensures finished && hasOnCommit ==> CommitsMade(acts)
      ensures hist == old(hist) && pending == old(pending)
    {
      hide Core, WithToken, CommitsMade;
      NoneInFlight();
      if done || committing {
        return;
      }
      if inflight > 0 {
        return;
      }
      if pending != [] {
        return;
      }
      if hasOnCommit {
        DoCommit(acts);
      } else {
        FinishNow();
      }
    }

    lemma NoneInFlight()
      requires Core()
      ensures inflight == |hist.outstanding| && (inflight <= 0 ==> hist.outstanding == {})
      ensures !done && !finished ==> !committing
    {
      hide WalkOk, CoversAnswers, SkipsOk, Results, Phase, Ids, EndOk, NothingLost;
      if !done && !finished {
        NotDestroyed();
      }
    }

    lemma NotDestroyed()
      requires Core() && !done
      ensures !destroyed
    {
      hide Walk, Results, Life, Ids;
    }

    /** Without a commit callback the query is done when its walk ends. */
    method FinishNow()
      requires Core() && started && !dispatching && !pendingDone && !done && !finished && !hasOnCommit
      requires pending == [] && hist.outstanding == {} && (fromTable || successes >= K / 4)
      modifies `done, `fired, `finished, `atEnd, `doneCalls, `reported, `early
      ensures Core() && Quiet() && finished && atEnd == seen
    {
      hide WalkInv, Results, NothingLost, EndOk, WithToken, Ids;
      NotYetFired();
      WalkSettles(settings, Frontier(seen, pending), hist, inflight, closest, afterEnd);
      finished, done, atEnd := true, true, seen;
      FireDoneOnce();
    }

    method DropPending()
      requires Walk() && Results() && Ids()
      modifies `pending, `hist, `destroyed
      ensures Walk() && Results() && Ids() && pending == [] && destroyed
      ensures EndOk(settings, atEnd, afterEnd, old(hist)) ==> EndOk(settings, atEnd, afterEnd, hist)
      ensures hist.(place := map[]) == old(hist).(place := map[])
      ensures old(pending) == [] ==> hist == old(hist)
    {
      hide WalkInv, ResultsInv, EndOk, History.Drop;
      if EndOk(settings, atEnd, afterEnd, hist) {
        EndKeepsDrop(settings, atEnd, afterEnd, hist);
      }
      DropStep(settings, Frontier(seen, pending), hist, inflight, closest);
      hist := hist.Drop();
      pending := [];
      destroyed := true;
    }

    /** destroy(): the completion callback runs at once, or after the reply being dispatched. */
    method Destroy()
      requires Core()
      modifies `done, `committing, `destroyed, `pending, `hist, `pendingDone, `fired, `doneCalls, `reported, `early
      ensures Core() && done && (old(Quiet()) ==> Quiet())
      ensures destroyed == (old(destroyed) || !old(done)) && committing == (old(committing) || !old(done))
      ensures pendingDone == (old(pendingDone) || (!old(done) && dispatching))
      ensures fired == (old(fired) || (!old(done) && !dispatching && hasOnDone))
      ensures pending == if old(done) then old(pending) else []
      ensures hist.(place := map[]) == old(hist).(place := map[])
      ensures old(done) || old(pending) == [] ==> hist == old(hist)
      ensures early == (if !old(done) && !dispatching && hasOnDone then old(EarlyNow()) else old(early))
      ensures old(Quiet()) && finished && !old(done) && hasOnDone ==> early
    {
      hide Core, NothingLost, EndOk, Due, WithToken;
      if done {
        return;
      }
      MarkDestroyed();
      if dispatching {
        Postpone();
      } else {
        Complete();
      }
    }

    method MarkDestroyed()
      requires Core() && !done
      modifies `done, `committing, `destroyed, `pending, `hist
      ensures Core() && done && destroyed && committing && pending == [] && !fired
      ensures hist.(place := map[]) == old(hist).(place := map[])
      ensures old(pending) == [] ==> hist == old(hist)
    {
      hide Walk, Results, NothingLost, EndOk, Ids;
      done := true;
      DropPending();
      committing := true;
    }

    method Postpone()
      requires Core() && done
      modifies `pendingDone
      ensures Core() && pendingDone
    {
      hide Walk, Results, Life;
      pendingDone := true;
    }

    /** The reply to commit number i. */
    method CommitReply(i: nat)
      requires Core() && finished && i in commitOutstanding
      modifies `commitInflight, `commitOutstanding, `done, `fired, `doneCalls, `reported, `early
      ensures Core() && (old(Quiet()) ==> Quiet()) && commitOutstanding == old(commitOutstanding) - {i}
      ensures done == (old(done) || commitOutstanding == {})
      ensures commitOutstanding == {} && hasOnDone ==> fired
      ensures commitOutstanding != {} ==> fired == old(fired)
      ensures early == (if !old(fired) && hasOnDone && commitOutstanding == {} then |commits| < Due() else old(early))
      ensures old(Quiet()) && hasOnCommit && hasOnDone && !old(done) && done ==> !early
    {
      hide Walk, Results, NothingLost, EndOk, Ids, WithToken;
      commitInflight := commitInflight - 1;
      commitOutstanding := commitOutstanding - {i};
      if commitInflight == 0 {
        Complete();
      }
    }

    method CountCommit(reply: Reply, index: nat)
      requires Core() && finished && committing && index !in commitOutstanding
      modifies `commitInflight, `commits, `commitOutstanding
      ensures Core() && commits == old(commits) + [reply] && commitOutstanding == old(commitOutstanding) + {index}
    {
      hide Walk, Results, NothingLost, EndOk, WithToken;
      commitInflight := commitInflight + 1;
      commits := commits + [reply];
      commitOutstanding := commitOutstanding + {index};
      assert Walk() && Results();
    }

    /** Hands a reply to the commit callback, which may answer commits, or destroy the query, before it
        returns. */
    method Commit(reply: Reply, index: nat, acts: nat -> CommitAct)
      requires Core() && finished && committing && !dispatching && !pendingDone && (done && hasOnDone ==> fired)
      requires index == |commits| && commitOutstanding == OpenAfter(acts, index) && pending == []
      modifies `done, `committing, `commitInflight, `fired, `destroyed, `hist, `pendingDone
      modifies `pending, `commits, `commitOutstanding, `doneCalls, `reported, `early
      ensures Core() && committing && !pendingDone && (done && hasOnDone ==> fired)
      ensures commits == old(commits) + [reply] && commitOutstanding == OpenAfter(acts, index + 1)
      ensures done == (old(done) || EndsIn(acts, index))
      ensures early == (if !old(done) && done && hasOnDone then index + 1 < Due() || DestroysEarly(acts, index)
                        else old(early))
      ensures hist == old(hist) && pending == []
    {
      hide Core, WithToken, Open, EndedBy, DestroysBy;
      OpenFirst(acts, index);
      CountCommit(reply, index);
      NothingEnded(acts, index);
      var s := 0;
      while s < |acts(index)|
        invariant s <= |acts(index)| && Core() && committing && !pendingDone && (done && hasOnDone ==> fired)
        invariant commits == old(commits) + [reply] && commitOutstanding == Open(acts, index, s)
        invariant done == (old(done) || EndedBy(acts, index, s))
        invariant early == (if !old(done) && done && hasOnDone then index + 1 < Due() || DestroysBy(acts, index, s)
                            else old(early))
        invariant hist == old(hist) && pending == []
      {
        MakeStep(acts, index, s, old(done), old(early));
        s := s + 1;
      }
    }

    /** One step of commit callback i. An answer to a commit that is not outstanding does nothing. */
    method MakeStep(acts: nat -> CommitAct, i: nat, s: nat, ghost wasDone: bool, ghost wasEarly: bool)
      requires Core() && finished && committing && !dispatching && !pendingDone && (done && hasOnDone ==> fired)
      requires s < |acts(i)| && |commits| == i + 1 && commitOutstanding == Open(acts, i, s) && pending == []
      requires done == (wasDone || EndedBy(acts, i, s))
      requires early == (if !wasDone && done && hasOnDone then i + 1 < Due() || DestroysBy(acts, i, s) else wasEarly)
      modifies `done, `committing, `commitInflight, `fired, `destroyed, `hist, `pendingDone
      modifies `pending, `commitOutstanding, `doneCalls, `reported, `early
      ensures Core() && committing && !pendingDone && (done && hasOnDone ==> fired)
      ensures commitOutstanding == Open(acts, i, s + 1)
      ensures done == (wasDone || EndedBy(acts, i, s + 1))
      ensures early == (if !wasDone && done && hasOnDone then i + 1 < Due() || DestroysBy(acts, i, s + 1)
                        else wasEarly)
      ensures hist == old(hist) && pending == []
    {
      hide Core, Quiet, WithToken, Open, EndedBy, DestroysBy, Due;
      NotFiredBefore();
      OpenStep(acts, i, s);
      EndedStep(acts, i, s);
      if EndedBy(acts, i, s) {
        DestroysStep(acts, i, s);
      } else {
        NotEnded(acts, i, s);
      }
      match acts(i)[s]
      case ReplyTo(j) =>
        if j in commitOutstanding {
          CommitReply(j);
        }
      case DestroyQuery =>
        Destroy();
    }

    /** One commit per result that came with a token; a destroy() on the way does not stop the rest. */
    method SendCommits(acts: nat -> CommitAct)
      requires Core() && finished && committing && hasOnCommit && !dispatching && !pendingDone && commits == [] &&
               commitOutstanding == {} && !done && pending == []
      modifies `done, `committing, `commitInflight, `fired, `destroyed, `hist, `pendingDone
      modifies `pending, `commits, `commitOutstanding, `doneCalls, `reported, `early
      ensures Core() && committing && !pendingDone && (done && hasOnDone ==> fired)
      ensures commits == WithToken(closest) && commitOutstanding == OpenAfter(acts, |commits|)
      ensures done == Ends(acts, |commits|)
      ensures done && hasOnDone ==> (early <==> EndsEarly(acts, |commits|))
      ensures hist == old(hist) && pending == []
    {
      hide Core, WithToken, OpenAfter, EndsIn, DestroysEarly, Ends, EarlyBy;
      NothingSentYet(acts);
      var i, sent: nat := 0, 0;
      WithTokenStep(closest, 0);
      while i < |closest|
        invariant i <= |closest| && sent == |commits| && Core() && committing && !pendingDone &&
                  (done && hasOnDone ==> fired)
        invariant commits == WithToken(closest[..i]) && commitOutstanding == OpenAfter(acts, sent)
        invariant done == Ends(acts, sent)
        invariant done && hasOnDone ==> (early <==> EarlyBy(acts, sent, Due()))
        invariant hist == old(hist) && pending == []
      {
        var reply := closest[i];
        WithTokenStep(closest, i);
        i := i + 1;
        if reply.token.None? {
          continue;
        }
        WithTokenGrows(closest, i);
        EarlyStep(acts, sent, Due());
        Commit(reply, sent, acts);
        sent := sent + 1;
      }
      WithTokenStep(closest, |closest|);
      AllSent(acts, |commits|);
    }

    method StartCommit()
      requires Core() && started && !finished && !pendingDone && !done && pending == [] && hist.outstanding == {}
      requires fromTable || successes >= K / 4
      modifies `finished, `atEnd, `committing, `commitInflight
      ensures Core() && finished && committing && commits == [] && commitOutstanding == {} && !fired && atEnd == seen
    {
      hide WalkInv, Results, NothingLost, EndOk, Ids;
      NotYetFired();
      WalkSettles(settings, Frontier(seen, pending), hist, inflight, closest, afterEnd);
      finished, committing, atEnd := true, true, seen;
      commitInflight := 0;
    }

    method DoCommit(acts: nat -> CommitAct)
      requires Core() && started && !finished && !dispatching && !pendingDone && !done && !committing && hasOnCommit
      requires pending == [] && hist.outstanding == {} && (fromTable || successes >= K / 4)
      modifies `finished, `atEnd, `done, `committing, `commitInflight, `fired, `destroyed, `hist, `pendingDone
      modifies `pending, `commits, `commitOutstanding, `doneCalls, `reported, `early
      ensures Core() && Quiet() && finished && committing && CommitsMade(acts) && atEnd == seen
      ensures hist == old(hist) && pending == []
    {
      hide Walk, Results, Life, Ids, WithToken, OpenAfter, Ends, EarlyBy;
      NothingSentYet(acts);
      StartCommit();
      if closest == [] {
        WithTokenStep(closest, 0);
        Complete();
        return;
      }
      SendCommits(acts);
      if commits != [] && commitOutstanding == {} {
        LastAnswerEnds(acts, |commits|);
      }
      if commitInflight == 0 {
        Complete();
      }
    }

    /** The counters and the result list after a response. */
    method PushReply(node: PendingNode, resp: Response)
      requires Walk() && Results()
      modifies `successes, `errors, `closest
      ensures var a := Answer(node, resp, table.id);
              && closest == Pushed(settings.target, old(closest), a)
              && SkipsOk(settings.target, hist.skipped, closest)
              && ResultsInv(settings, hist.answers + [a], |hist.timedOut|, closest, successes, errors)
    {
      hide WalkInv, ResultsInv, Capped, Insert, Ascending, SkipsOk;
      PushedStep(settings, Frontier(seen, pending), hist, inflight, closest, Answer(node, resp, table.id), successes,
        errors);
      var isSuccess := IsSuccess(resp);
      if isSuccess {
        successes := successes + 1;
      } else {
        errors := errors + 1;
      }
      var reply := ReplyOf(node, resp);
      if isSuccess && reply.fromId != ZERO_ID {
        closest := PushClosest(settings.target, closest, reply);
      }
    }

    /** The bookkeeping of an answer: state and counters, the result list, the closer nodes. */
    method RecordAnswer(node: PendingNode, resp: Response)
      requires Core() && started && !done && node.addr in hist.outstanding
      modifies `inflight, `seen, `successes, `errors, `closest, `pending, `hist
      ensures Core() && !finished && inflight == old(inflight) - 1
      ensures var a := Answer(node, resp, table.id);
              && closest == Pushed(settings.target, old(closest), a)
              && hist == old(hist).Answer(a).Offered(seen) && hist.answers == old(hist.answers) + [a]
              && Frontier(seen, pending) == OfferAll(Frontier(old(seen)[node.addr := DONE], old(pending)),
                                                    Candidates(resp.closer, table.id, settings.peerId), settings.filter)
    {
      hide Phase, WalkInv, ResultsInv, NothingLost, EndOk, WithToken, Routing.TableOk, Routing.Total, OfferAll, Offer,
           Candidates, WalkOk, History.Answer, History.Offered, Pushed, SkipsOk;
      NotYetFired();
      VisitedAtAll(node.addr);
      var a := Answer(node, resp, table.id);
      PushReply(node, resp);
      FollowCloser(a, old(closest));
    }

    /** The rest of an answer, once the result list has been updated. */
    method FollowCloser(a: Answer, ghost before: seq<Reply>)
      requires Phase() && !fired && !done && started && a.node.addr in hist.outstanding && a.ownId == table.id
      requires WalkInv(settings, Frontier(seen, pending), hist, inflight, before) &&
                SkipsOk(settings.target, hist.skipped, closest)
      requires ResultsInv(settings, hist.answers + [a], |hist.timedOut|, closest, successes, errors)
      requires inflight <= Max(concurrency, SLOWDOWN_CONCURRENCY) && !finished && !committing && !destroyed &&
                NothingLost(hist.place)
      requires concurrency >= 1 && Ids()
      modifies `inflight, `seen, `pending, `hist
      ensures Core() && hist == old(hist).Answer(a).Offered(seen) && hist.answers == old(hist.answers) + [a]
      ensures inflight == old(inflight) - 1
      ensures Frontier(seen, pending) == OfferAll(Frontier(old(seen)[a.node.addr := DONE], old(pending)),
                                                  Candidates(a.resp.closer, table.id, settings.peerId), settings.filter)
    {
      hide Phase, WalkInv, ResultsInv, NothingLost, EndOk, OfferAll, Offer, Candidates, History.Answer, History.Offered,
           SkipsOk, AllNamed;
      AnswerStep(settings, Frontier(seen, pending), hist, inflight, before, a, closest);
      CloserAreNamed(Frontier(seen[a.node.addr := DONE], pending), a.resp.closer);
      inflight := inflight - 1;
      seen := seen[a.node.addr := DONE];
      AddCloser(a.resp.closer);
      AnswerKeeps(hist, a, seen);
      hist := hist.Answer(a).Offered(seen);
      assert Walk() && Results() && Ids();
      assert Life();
    }

    lemma CloserAreNamed(f: Frontier, closer: seq<Ipv4Address>)
      requires Ids() && f.pending == pending
      ensures validSeeds ==>
                AllNamed(OfferAll(f, Candidates(closer, table.id, settings.peerId), settings.filter).pending,
                         settings.peerId)
    {
      hide AllNamed;
      if validSeeds {
        CandidatesAreNamed(closer, table.id, settings.peerId);
        OfferedAreNamed(f, Candidates(closer, table.id, settings.peerId), settings.filter, settings.peerId);
      }
    }

    lemma QuietFlags()
      requires Quiet()
      ensures !dispatching && !pendingDone && (done && hasOnDone ==> fired)
    {
      hide WithToken;
    }

    /** Only a positive concurrency ever puts anything in flight. */
    lemma VisitedAtAll(a: Ipv4Address)
      requires Core() && a in hist.outstanding
      ensures concurrency >= 1 && hist.visited != [] && !finished
    {
      hide Results, Phase, NothingLost, EndOk, CoversAnswers, SkipsOk;
      assert HasAddr(hist.visited, a);
    }

    lemma DoneIsReported()
      requires Valid() && done && hasOnDone
      ensures doneCalls == 1
    {
      hide Walk, Results, Life, Ids, WithToken;
    }

    lemma NothingIsNew()
      requires Core()
      ensures hist.Offered(seen) == hist
    {
      hide Results, Phase, Life, Ids, WalkOk, CoversAnswers, SkipsOk;
      NothingOffered(Frontier(seen, pending), hist);
    }

    lemma NotFiredBefore()
      requires Core()
      ensures !done ==> !fired
    {
      hide Walk, Results, Life, Ids;
    }

    lemma NotYetFired()
      requires Phase() && !done
      ensures !fired && !destroyed
    {
    }

    method AddCloser(closer: seq<Ipv4Address>)
      modifies `seen, `pending
      ensures Frontier(seen, pending) ==
              old(OfferAll(Frontier(seen, pending), Candidates(closer, table.id, settings.peerId), settings.filter))
    {
      hide Offer, OfferAll, Candidates;
      ghost var f := Frontier(seen, pending);
      CandidatesStep(closer, 0, table.id, settings.peerId, f, settings.filter);
      var i := 0;
      while i < |closer|
        invariant i <= |closer|
        invariant Frontier(seen, pending) ==
                  OfferAll(f, Candidates(closer[..i], table.id, settings.peerId), settings.filter)
      {
        CandidatesStep(closer, i, table.id, settings.peerId, f, settings.filter);
        var c := closer[i];
        i := i + 1;
        if c.port == 0 {
          continue;
        }
        var closerId := settings.peerId(c);
        if closerId == table.id {
          continue;
        }
        AddPending(PendingNode(closerId, c));
      }
      CandidatesStep(closer, |closer|, table.id, settings.peerId, f, settings.filter);
    }

    /** A response to a visit. The reply callback may destroy the query. */
    method OnVisitResponse(node: PendingNode, resp: Response, destroyInReply: bool, acts: nat -> CommitAct)
      requires Valid() && started && table.Valid() && node.addr in hist.outstanding
      modifies this
      ensures Valid() && started && (old(done) || !late)
      ensures old(done) ==>
                hist == old(hist).Late(node.addr) && replyCalls == old(replyCalls) && doneCalls == old(doneCalls)
      ensures !old(done) ==> hist.answers == old(hist.answers) + [Answer(node, resp, table.id)]
      ensures !old(done) ==> replyCalls == old(replyCalls) + (if hasOnReply then [ReplyOf(node, resp)] else [])
      ensures !old(done) && hasOnReply ==>
                var n := |old(replyCalls)|;
                && |replyCalls| == n + 1 && replyCalls[..n] == old(replyCalls)
                && replyCalls[n].fromAddr == node.addr && replyCalls[n].closerNodes == resp.closer
                && replyCalls[n].token == resp.token && replyCalls[n].value == resp.value
                && replyCalls[n].fromId == (if resp.id.Some? then resp.id.value else ZERO_ID)
      ensures !old(done) ==> closest == Pushed(settings.target, old(closest), Answer(node, resp, table.id))
      ensures !old(done) && hasOnReply && destroyInReply ==> destroyed && !finished
      ensures !old(done) && !(hasOnReply && destroyInReply) ==> TurnEnded(acts)
      ensures !old(done) && !(hasOnReply && destroyInReply) ==>
                Position() == ReadOn(settings, table.id, table.buckets[..], closest, concurrency, successes, errors,
                                     AfterAnswer(settings, concurrency, successes + errors,
                                       Answer(node, resp, table.id), old(Position())))
    {
      hide Core, Quiet, Routing.TableOk, Routing.Total, AfterAnswer, ReadOn, History.Late, Pushed, CommitsMade;
      if done {
        LateAnswer(node.addr);
        return;
      }
      QuietFlags();
      late := false;
      TakeResponse(node, resp, destroyInReply, acts);
    }

    method TakeResponse(node: PendingNode, resp: Response, destroyInReply: bool, acts: nat -> CommitAct)
      requires Core() && started && table.Valid() && node.addr in hist.outstanding
      requires !dispatching && !done && !pendingDone
      modifies `pending, `inflight, `hist, `seen, `successes, `errors, `closest, `fromTable, `validSeeds, `slowdown
      modifies `done, `committing, `commitInflight, `fired, `finished, `atEnd, `destroyed, `pendingDone
      modifies `commits, `commitOutstanding, `doneCalls, `reported, `early, `dispatching, `replyCalls
      ensures Core() && Quiet() && hist.answers == old(hist.answers) + [Answer(node, resp, table.id)]
      ensures replyCalls == old(replyCalls) + (if hasOnReply then [ReplyOf(node, resp)] else [])
      ensures hasOnReply ==>
                var n := |old(replyCalls)|;
                && |replyCalls| == n + 1 && replyCalls[..n] == old(replyCalls)
                && replyCalls[n].fromAddr == node.addr && replyCalls[n].closerNodes == resp.closer
                && replyCalls[n].token == resp.token && replyCalls[n].value == resp.value
                && replyCalls[n].fromId == (if resp.id.Some? then resp.id.value else ZERO_ID)
      ensures closest == Pushed(settings.target, old(closest), Answer(node, resp, table.id))
      ensures hasOnReply && destroyInReply ==> destroyed && !finished
      ensures !(hasOnReply && destroyInReply) ==> TurnEnded(acts)
      ensures !(hasOnReply && destroyInReply) ==>
                Position() == ReadOn(settings, table.id, table.buckets[..], closest, concurrency, successes, errors,
                                     AfterAnswer(settings, concurrency, successes + errors,
                                       Answer(node, resp, table.id), old(Position())))
    {
      hide Core, Quiet, Routing.TableOk, Routing.Total, AfterAnswer, ReadOn, Pushed, CommitsMade;
      VisitedAtAll(node.addr);
      AcceptResponse(node, resp, destroyInReply);
      GoOn(acts);
    }

    /** The end of a response: the walk goes on, and a postponed completion is reported. */
    method GoOn(acts: nat -> CommitAct)
      requires Core() && started && !dispatching && !finished && done == pendingDone == destroyed &&
                concurrency >= 1 && table.Valid()
      modifies `pending, `inflight, `hist, `seen, `fromTable, `validSeeds, `slowdown
      modifies `done, `committing, `commitInflight, `fired, `finished, `atEnd, `destroyed, `pendingDone
      modifies `commits, `commitOutstanding, `doneCalls, `reported, `early
      ensures Core() && Quiet() && hist.answers == old(hist.answers)
      ensures old(done) ==> destroyed && !finished
      ensures !old(done) ==> TurnEnded(acts)
      ensures !old(done) ==>
                Position() == ReadOn(settings, table.id, table.buckets[..], closest, concurrency, successes, errors,
                  old(Position()))
    {
      hide Core, Quiet, ReadOn, Routing.TableOk, Routing.Total, CommitsMade;
      ghost var depth := ReadMore(acts);
      if !old(done) {
        QuietFlags();
      }
      FireIfPostponed();
    }

    /** The part of a response before the walk goes on. */
    method AcceptResponse(node: PendingNode, resp: Response, destroyInReply: bool)
      requires Core() && started && !done && !dispatching && !pendingDone && node.addr in hist.outstanding
      modifies `inflight, `seen, `successes, `errors, `closest, `pending, `hist, `slowdown, `dispatching, `replyCalls
      modifies `done, `committing, `destroyed, `pendingDone, `fired, `doneCalls, `reported, `early
      ensures Core() && !dispatching && !finished && done == pendingDone == destroyed == (hasOnReply && destroyInReply)
      ensures hist.answers == old(hist.answers) + [Answer(node, resp, table.id)]
      ensures replyCalls == old(replyCalls) + (if hasOnReply then [ReplyOf(node, resp)] else [])
      ensures hasOnReply ==>
                var n := |old(replyCalls)|;
                && |replyCalls| == n + 1 && replyCalls[..n] == old(replyCalls)
                && replyCalls[n].fromAddr == node.addr && replyCalls[n].closerNodes == resp.closer
                && replyCalls[n].token == resp.token && replyCalls[n].value == resp.value
                && replyCalls[n].fromId == (if resp.id.Some? then resp.id.value else ZERO_ID)
      ensures closest == Pushed(settings.target, old(closest), Answer(node, resp, table.id))
      ensures !(hasOnReply && destroyInReply) ==>
                Position() == AfterAnswer(settings, concurrency, successes + errors, Answer(node, resp, table.id),
                  old(Position()))
      ensures slowdown == (old(slowdown) && (fromTable || successes + errors < concurrency))
    {
      hide Walk, Results, Life, AfterAnswer, Pushed;
      TakeAnswer(node, resp);
      if hasOnReply {
        DispatchReply(ReplyOf(node, resp), destroyInReply);
      }
    }

    /** All that an answer changes before its callback. */
    method TakeAnswer(node: PendingNode, resp: Response)
      requires Core() && started && !done && node.addr in hist.outstanding
      modifies `inflight, `seen, `successes, `errors, `closest, `pending, `hist, `slowdown
      ensures Core() && !finished && hist.answers == old(hist.answers) + [Answer(node, resp, table.id)]
      ensures closest == Pushed(settings.target, old(closest), Answer(node, resp, table.id))
      ensures Position() ==
              AfterAnswer(settings, concurrency, successes + errors, Answer(node, resp, table.id), old(Position()))
      ensures slowdown == (old(slowdown) && (fromTable || successes + errors < concurrency))
    {
      hide Walk, Results, Life, OfferAll, Offer, Candidates, History.Offered, Pushed;
      RecordAnswer(node, resp);
      if !fromTable && successes + errors >= concurrency {
        ClearSlowdown();
      }
    }

    /** A completion callback postponed by destroy() runs now. */
    method FireIfPostponed()
      requires Core() && (Quiet() || (done && !finished && !dispatching && pendingDone))
      modifies `pendingDone, `fired, `doneCalls, `reported, `early
      ensures Core() && Quiet()
      ensures !old(pendingDone) ==> early == old(early)
    {
      hide Walk, Results, NothingLost, EndOk, Ids, WithToken;
      if pendingDone {
        pendingDone := false;
        FireDoneOnce();
      }
    }

    /** Calls the reply callback; a destroy() from inside it postpones the completion callback. */
    method DispatchReply(reply: Reply, destroyInReply: bool)
      requires Core() && !dispatching && !done && !finished && !pendingDone
      modifies `dispatching, `replyCalls
      modifies `done, `committing, `destroyed, `pending, `hist, `pendingDone, `fired, `doneCalls, `reported, `early
      ensures Core() && !dispatching && done == pendingDone == destroyed == destroyInReply && fired == old(fired)
      ensures replyCalls == old(replyCalls) + [reply] && hist.answers == old(hist.answers)
      ensures !destroyInReply ==> hist == old(hist) && pending == old(pending)
    {
      hide Walk, Results, NothingLost, EndOk;
      dispatching := true;
      replyCalls := replyCalls + [reply];
      if destroyInReply {
        Destroy();
      }
      dispatching := false;
    }

    method LateAnswer(addr: Ipv4Address)
      requires Valid() && done && addr in hist.outstanding
      modifies `inflight, `hist
      ensures Valid() && hist == old(hist).Late(addr)
    {
      hide WalkInv, ResultsInv, NothingLost, EndOk, WithToken;
      LateStep(settings, Frontier(seen, pending), hist, inflight, closest, addr);
      inflight := inflight - 1;
      hist := hist.Late(addr);
    }

    /** A visit that timed out. */
    method OnVisitTimeout(node: PendingNode, acts: nat -> CommitAct)
      requires Valid() && started && table.Valid() && node.addr in hist.outstanding
      modifies this
      ensures Valid() && started && replyCalls == old(replyCalls) && closest == old(closest)
      ensures old(done) ==> hist == old(hist).Late(node.addr)
      ensures !old(done) ==> hist.timedOut == old(hist.timedOut) + {node.addr} && hist.answers == old(hist.answers)
      ensures !old(done) ==> successes == old(successes) && errors == old(errors) + 1
      ensures !old(done) ==> !late && TurnEnded(acts)
      ensures !old(done) ==>
                Position() == ReadOn(settings, table.id, table.buckets[..], closest, concurrency, successes, errors,
                                     AfterTimeout(node.addr, old(Position())))
    {
      hide Core, Quiet, Routing.TableOk, Routing.Total, History.Late, AfterTimeout, ReadOn, CommitsMade;
      QuietFlags();
      if done {
        LateAnswer(node.addr);
        return;
      }
      late := false;
      TimeOut(node.addr, acts);
    }

    method TimeOut(addr: Ipv4Address, acts: nat -> CommitAct)
      requires Core() && started && table.Valid() && addr in hist.outstanding && !dispatching && !done && !pendingDone
      modifies `pending, `inflight, `hist, `seen, `errors, `fromTable, `validSeeds, `slowdown
      modifies `done, `committing, `commitInflight, `fired, `finished, `atEnd, `destroyed, `pendingDone
      modifies `commits, `commitOutstanding, `doneCalls, `reported, `early
      ensures Core() && Quiet()
      ensures hist.timedOut == old(hist.timedOut) + {addr} && hist.answers == old(hist.answers)
      ensures errors == old(errors) + 1
      ensures TurnEnded(acts)
      ensures Position() == ReadOn(settings, table.id, table.buckets[..], closest, concurrency, successes, errors,
                                   AfterTimeout(addr, old(Position())))
    {
      hide Core, Quiet, Routing.TableOk, Routing.Total, AfterTimeout, ReadOn, CommitsMade;
      VisitedAtAll(addr);
      RecordTimeout(addr);
      Proceed(acts);
    }

    /** The walk goes on after an event. */
    method Proceed(acts: nat -> CommitAct)
      requires Core() && started && !dispatching && !done && !finished && !pendingDone && concurrency >= 1 &&
                table.Valid()
      modifies `pending, `inflight, `hist, `seen, `fromTable, `validSeeds, `slowdown
      modifies `done, `committing, `commitInflight, `fired, `finished, `atEnd, `destroyed, `pendingDone
      modifies `commits, `commitOutstanding, `doneCalls, `reported, `early
      ensures Core() && Quiet() && hist.answers == old(hist.answers) && hist.timedOut == old(hist.timedOut)
      ensures TurnEnded(acts)
      ensures Position() == ReadOn(settings, table.id, table.buckets[..], closest, concurrency, successes, errors,
                old(Position()))
    {
      hide Core, Quiet, ReadOn, Routing.TableOk, Routing.Total, CommitsMade;
      ghost var depth := ReadMore(acts);
    }

    method RecordTimeout(addr: Ipv4Address)
      requires Core() && started && !done && !finished && addr in hist.outstanding
      modifies `inflight, `seen, `errors, `hist
      ensures Core() && Position() == AfterTimeout(addr, old(Position())) && errors == old(errors) + 1
      ensures hist.answers == old(hist.answers) && hist.timedOut == old(hist.timedOut) + {addr}
    {
      hide Phase, WalkInv, ResultsInv, NothingLost, EndOk, WithToken;
      TimeoutStep(settings, Frontier(seen, pending), hist, inflight, closest, addr);
      TimeoutCounted(settings, hist.answers, |hist.timedOut|, closest, successes, errors);
      inflight := inflight - 1;
      seen := seen[addr := DOWN];
      errors := errors + 1;
      hist := hist.TimeOut(addr);
    }

    /** start(): the caller's seeds, then the routing table if they are fewer than K. */
    method Start(acts: nat -> CommitAct)
      requires Valid() && !started && table.Valid()
      modifies this
      ensures Valid() && started && preSeeds == [] && replyCalls == old(replyCalls) && closest == old(closest) && !late
      ensures !old(done) ==> TurnEnded(acts)
      ensures !old(done) ==>
                Position() == ReadOn(settings, table.id, table.buckets[..], [], concurrency, 0, 0,
                                     Stacked(settings, table.id, table.buckets[..], old(preSeeds), old(Position())))
    {
      hide Core, Stacked, ReadOn, WithToken, Routing.TableOk, Routing.Total, CommitsMade;
      QuietFlags();
      late := false;
      BeginTurn(acts);
    }

    method BeginTurn(acts: nat -> CommitAct)
      requires Core() && !started && table.Valid() && !dispatching && !pendingDone && (done && hasOnDone ==> fired)
      modifies `pending, `inflight, `hist, `seen, `fromTable, `validSeeds, `slowdown, `started, `preSeeds
      modifies `done, `committing, `commitInflight, `fired, `finished, `atEnd, `destroyed, `pendingDone
      modifies `commits, `commitOutstanding, `doneCalls, `reported, `early
      ensures Core() && Quiet() && started && preSeeds == []
      ensures !old(done) ==> TurnEnded(acts)
      ensures !old(done) ==>
                Position() == ReadOn(settings, table.id, table.buckets[..], [], concurrency, 0, 0,
                                     Stacked(settings, table.id, table.buckets[..], old(preSeeds), old(Position())))
    {
      hide Core, Stacked, ReadOn, WithToken, Routing.TableOk, Routing.Total, CommitsMade;
      NothingYet();
      Prepare();
      ghost var depth := ReadMore(acts);
    }

    /** The stack of the first turn: the caller's seeds, then the table if they are fewer than K. */
    method Prepare()
      requires Core() && !started && table.Valid()
      modifies `seen, `pending, `hist, `started, `preSeeds, `fromTable, `validSeeds
      ensures Core() && started && preSeeds == [] && !finished && !slowdown && inflight == 0 &&
                (fromTable || pending != [])
      ensures closest == [] && successes == 0 && errors == 0
      ensures Position() == Stacked(settings, table.id, table.buckets[..], old(preSeeds), old(Position()))
    {
      hide Core, Fed, Seeded, Routing.BucketOk, Routing.Total;
      NothingYet();
      AddPreSeeds();
      ClearSeeds();
      if |pending| < K {
        SeedFromTable();
      } else {
        SeededEnough(settings, table.id, table.buckets[..], Position());
      }
    }

    method ClearSeeds()
      requires Core()
      modifies `preSeeds
      ensures Core() && preSeeds == []
    {
      hide Walk, Results, Phase, Life;
      preSeeds := [];
    }

    lemma SeedsAreNamed()
      requires Core()
      ensures validSeeds ==> AllNamed(preSeeds, settings.peerId)
    {
      hide Walk, Results, Phase, Life, AllNamed;
    }

    /** Before start() nothing has happened. */
    lemma NothingYet()
      requires Core() && !started
      ensures !finished && !slowdown && !fromTable && inflight == 0 && closest == [] && successes == 0 && errors == 0
    {
      hide Phase, NothingLost, EndOk, CoversAnswers, SkipsOk, Ascending, Nearer;
      var h := hist;
      forall a ensures a !in h.outstanding && a !in h.timedOut && !HasAnswer(h.answers, a) {
        assert !HasAddr(h.visited, a);
      }
      FirstIsAnswered(h.answers);
      NothingLearned(settings.target, Learned(h.answers), closest);
      assert h.outstanding == {} && h.timedOut == {};
    }

    method AddPreSeeds()
      requires Core() && !started && !finished
      modifies `seen, `pending, `hist, `started
      ensures Core() && started && Position() == Fed(old(Position()), Backwards(preSeeds), settings.filter)
    {
      hide Core, Fed, Backwards, AllNamed;
      SeedsAreNamed();
      Feed(preSeeds);
      BeginWalk();
    }

    method BeginWalk()
      requires Core() && !started
      modifies `started
      ensures Core() && started
    {
      hide Walk, Results, Phase, NothingLost, EndOk;
      started := true;
      assert Life();
    }

    // ----------------------------------------------------------------------------------------
    // What holds after every event of every run
    // ----------------------------------------------------------------------------------------

    /** Frontier closure: when the walk has ended by itself, every address seen until then was answered,
        timed out or skipped (what was seen later came from add_bootstrap), a skipped node is no nearer than
        the last of K results, and, unless the cap on seen addresses was reached, every acceptable closer
        node of every answer had been seen. It does not end with fewer than K/4 successes without having
        asked the routing table. */
    lemma FinishedWalkIsClosed()
      requires Valid() && finished
      ensures forall a :: a in seen ==> a in atEnd || a in afterEnd
      ensures forall a :: a in atEnd ==>
                a in seen && (HasAnswer(hist.answers, a) || a in hist.timedOut || HasAddr(hist.skipped, a))
      ensures forall n :: n in hist.skipped ==> |closest| == K && !Nearer(settings.target, n.id, closest[K - 1].fromId)
      ensures |atEnd| < 4096 ==>
                forall a, c :: a in hist.answers && c in a.resp.closer ==>
                  Acceptable(c, a.ownId, settings.peerId, settings.filter) ==> c in atEnd
      ensures fromTable || CountSuccesses(hist.answers) >= K / 4
    {
      hide KNearest, Phase, Ids, Quiet, Nearer, HasAddr, HasAnswer, DistinctAddrs, DistinctAnswers, NothingLost;
      forall a | a in atEnd
        ensures a in seen && (HasAnswer(hist.answers, a) || a in hist.timedOut || HasAddr(hist.skipped, a))
      {
        assert Final(At(hist.place, a));
      }
    }

    /** What accounts for an address when the walk has ended: its id is reported, or is no nearer than the
        last of K results, or it timed out, or it answered with an error or without an id. */
    ghost predicate Accounted(c: Ipv4Address)
      reads `hist, `closest
    {
      || HasId(closest, settings.peerId(c))
      || (|closest| == K && !Nearer(settings.target, settings.peerId(c), closest[K - 1].fromId))
      || c in hist.timedOut
      || exists b :: b in hist.answers && b.node.addr == c &&
                     (!IsSuccess(b.resp) || b.resp.id == None || b.resp.id == Some(ZERO_ID))
    }

    /** The result over the whole network that was heard of: if the seeds and the answers carried the ids
        that follow from their addresses and the cap was not reached, every acceptable closer node of every
        answer is accounted for. */
    lemma EveryHeardNodeIsAccounted(a: Answer, c: Ipv4Address)
      requires Valid() && finished && validSeeds && |atEnd| < 4096
      requires forall b :: b in hist.answers && b.resp.id.Some? ==> b.resp.id.value == settings.peerId(b.node.addr)
      requires a in hist.answers && c in a.resp.closer && Acceptable(c, a.ownId, settings.peerId, settings.filter)
      ensures Accounted(c)
    {
      hide Walk, Phase, Life, Quiet, Nearer, Learned, KNearest;
      FinishedWalkIsClosed();
      if HasAnswer(hist.answers, c) {
        var b :| b in hist.answers && b.node.addr == c;
        AnsweredIsAccounted(b);
      } else if HasAddr(hist.skipped, c) {
        var n :| n in hist.skipped && n.addr == c;
        SkippedHasId(n);
      }
    }

    lemma SkippedHasId(n: PendingNode)
      requires Core() && n in hist.skipped && validSeeds
      ensures n.id == settings.peerId(n.addr)
    {
      hide Results, Phase, Life, WalkOk, CoversAnswers, Nearer;
    }

    lemma AnsweredIsAccounted(b: Answer)
      requires Valid() && b in hist.answers && (b.resp.id.Some? ==> b.resp.id.value == settings.peerId(b.node.addr))
      ensures Accounted(b.node.addr)
    {
      hide Walk, Phase, Life, Ids, Quiet, Nearer, KNearest, Learned;
      ReportsTheNearestOnce();
      if IsSuccess(b.resp) && b.resp.id.Some? && b.resp.id.value != ZERO_ID {
        AnswerIsLearned(hist.answers, b);
        LearnedIsListed(settings.target, Learned(hist.answers), closest, ReplyOf(b.node, b.resp));
      }
    }

    /** Each address is visited at most once, and no more than the cap are visited in all. */
    lemma VisitsAreBounded()
      requires Valid()
      ensures DistinctAddrs(hist.visited) && |hist.visited| <= 4096
      ensures forall n :: n in hist.visited ==> n.addr in seen
    {
      hide Results, Phase, Life, Quiet, CoversAnswers, SkipsOk;
      forall n | n in hist.visited ensures n.addr in seen {
        assert HasAddr(hist.visited, n.addr);
      }
      DistinctCount(hist.visited, seen.Keys);
    }

    /** The result list is exactly the K nearest of what was learned, also when it is reported, and
        it is reported at most once. */
    lemma ReportsTheNearestOnce()
      requires Valid()
      ensures KNearest(settings.target, Learned(hist.answers), closest)
      ensures doneCalls <= 1
      ensures doneCalls == 1 ==> hasOnDone && done && reported == closest
    {
      hide Walk, Quiet, KNearest, Learned;
    }

    /** With a positive concurrency a running query never idles, and is complete once every visit and every
        commit has been answered; with any other it never visits anything. So a query that is still
        walking has nothing in flight exactly when its concurrency is 0 or less. */
    lemma CompletesWhenAllIsAnswered()
      requires Valid() && started
      ensures concurrency >= 1 && !done && !finished ==>
                inflight > 0 && (pending != [] && !late ==>
                  inflight >= (if slowdown then Min(concurrency, 3) else concurrency))
      ensures inflight == |hist.outstanding| <= Max(concurrency, 3)
      ensures concurrency >= 1 && hist.outstanding == {} && commitOutstanding == {} ==>
                done && (hasOnDone ==> doneCalls == 1 && reported == closest)
      ensures concurrency <= 0 ==> hist.visited == [] && hist.outstanding == {}
      ensures !done && !finished ==> (hist.outstanding == {} <==> concurrency <= 0)
    {
      hide WalkOk, Results, CoversAnswers, SkipsOk, WithToken;
      if concurrency <= 0 {
        NeverVisited();
      }
    }

    lemma NeverVisited()
      requires Core() && concurrency <= 0
      ensures hist.visited == [] && hist.outstanding == {}
    {
      hide Results, Phase, NothingLost, EndOk, CoversAnswers, SkipsOk;
      forall a ensures a !in hist.outstanding {
        assert !HasAddr(hist.visited, a);
      }
    }
  }

  lemma {:induction false} AnswerIsLearned(answers: seq<Answer>, b: Answer)
    requires b in answers && IsSuccess(b.resp) && ReplyOf(b.node, b.resp).fromId != ZERO_ID
    ensures ReplyOf(b.node, b.resp) in Learned(answers)
  {
    if b != answers[|answers| - 1] {
      assert b in answers[..|answers| - 1];
      AnswerIsLearned(answers[..|answers| - 1], b);
    }
  }

  lemma {:induction false} LearnedHasFirst(learned: seq<Reply>, r: Reply)
    requires r in learned
    ensures FirstReply(learned, r.fromId).Some?
  {
    if learned[0].fromId != r.fromId {
      assert r in learned[1..];
      LearnedHasFirst(learned[1..], r);
    }
  }

  lemma LearnedIsListed(t: NodeId, learned: seq<Reply>, closest: seq<Reply>, r: Reply)
    requires KNearest(t, learned, closest) && r in learned
    ensures HasId(closest, r.fromId) || (|closest| == K && !Nearer(t, r.fromId, closest[K - 1].fromId))
  {
    hide Nearer, Ascending, HasId;
    LearnedHasFirst(learned, r);
    if |closest| == K {
      NearerTotal(t, closest[K - 1].fromId, r.fromId);
    }
  }

  lemma {:induction false} DistinctCount(s: seq<PendingNode>, addrs: set<Ipv4Address>)
    requires DistinctAddrs(s) && forall n :: n in s ==> n.addr in addrs
    ensures |s| <= |addrs|
  {
    if s != [] {
      var t, n := s[..|s| - 1], s[|s| - 1];
      assert s == t + [n];
      DistinctAppend(t, n);
      forall m | m in t ensures m.addr in addrs - {n.addr} {
        assert m in s && HasAddr(t, m.addr);
      }
      DistinctCount(t, addrs - {n.addr});
    }
  }
}
