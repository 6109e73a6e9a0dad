/** What a query reports, told from the answers alone (src/query.cpp:281-352, 399-443, 520-549), and in
    which order the nodes it hears of are taken up (src/query.cpp:69-79, 126-161, 330-341). */
module QueryResults {
  import opened Wrappers
  import opened Bytes
  import opened NodeIds
  import opened Addresses
  import opened Closest
  import opened Queries
  import Routing = RoutingTable

  // ------------------------------------------------------------------------------------------
  // The result list, the commits and the counters
  // ------------------------------------------------------------------------------------------

  /** An answer without an error. */
  predicate Succeeds(a: Answer) {
    a.resp.error == None || a.resp.error == Some(0)
  }

  predicate NonZero(id: NodeId) {
    exists i :: 0 <= i < 32 && id[i] != 0
  }

  /** An answer that names the sender x.fromId and brought everything that x holds. */
  ghost predicate Carries(a: Answer, x: Reply) {
    && Succeeds(a) && a.resp.id == Some(x.fromId) && NonZero(x.fromId)
    && x.fromAddr == a.node.addr && x.token == a.resp.token && x.value == a.resp.value
    && x.closerNodes == a.resp.closer
  }

  lemma ZeroIsZero(id: NodeId)
    ensures NonZero(id) <==> id != ZERO_ID
  {
    if !NonZero(id) {
      assert forall i :: 0 <= i < 32 ==> id[i] == ZERO_ID[i];
    }
  }

  /** One more answer: what it adds to the replies learned. */
  lemma LearnedLast(answers: seq<Answer>, a: Answer)
    ensures Learned(answers + [a]) ==
            if Succeeds(a) && a.resp.id.Some? && NonZero(a.resp.id.value)
            then Learned(answers) + [Reply(a.resp.id.value, a.node.addr, a.resp.token, a.resp.value, a.resp.closer)]
            else Learned(answers)
  {
    assert (answers + [a])[..|answers|] == answers;
    ZeroIsZero(ReplyOf(a.node, a.resp).fromId);
    ZeroIsZero(ZERO_ID);
  }

  /** The reply listed for an id comes from answer k, the first successful one that names it. */
  ghost predicate FirstNamed(answers: seq<Answer>, k: nat, x: Reply) {
    && k < |answers| && Carries(answers[k], x)
    && forall j :: 0 <= j < k ==> !(Succeeds(answers[j]) && answers[j].resp.id == Some(x.fromId))
  }

  lemma {:induction false} FirstAnswer(answers: seq<Answer>, id: NodeId) returns (k: nat)
    requires NonZero(id)
    ensures match FirstReply(Learned(answers), id)
            case Some(x) => FirstNamed(answers, k, x) && x.fromId == id
            case None => forall j :: 0 <= j < |answers| ==> !(Succeeds(answers[j]) && answers[j].resp.id == Some(id))
  {
    hide Learned, NonZero, FirstReply;
    k := 0;
    if answers == [] {
      NothingKnown(id);
    } else {
      var n := |answers| - 1;
      var before, a := answers[..n], answers[n];
      assert answers == before + [a];
      k := FirstAnswer(before, id);
      LearnedLast(before, a);
      if Succeeds(a) && a.resp.id.Some? && NonZero(a.resp.id.value) {
        FirstReplyAppend(Learned(before),
          Reply(a.resp.id.value, a.node.addr, a.resp.token, a.resp.value, a.resp.closer), id);
        if FirstReply(Learned(before), id).None? {
          k := n;
        }
      }
    }
  }

  lemma NothingKnown(id: NodeId)
    ensures FirstReply(Learned([]), id) == None
  {
  }

  lemma {:induction false} LearnedIsNonZero(answers: seq<Answer>, x: Reply)
    requires x in Learned(answers)
    ensures NonZero(x.fromId)
  {
    var n := |answers| - 1;
    if x in Learned(answers[..n]) {
      LearnedIsNonZero(answers[..n], x);
    } else {
      ZeroIsZero(x.fromId);
    }
  }

  lemma {:induction false} FirstIsLearned(learned: seq<Reply>, id: NodeId)
    ensures FirstReply(learned, id).Some? ==>
              FirstReply(learned, id).value in learned && FirstReply(learned, id).value.fromId == id
  {
    if learned != [] {
      FirstIsLearned(learned[1..], id);
    }
  }

  /** The results of a query: at most K, in strictly ascending distance; each holds what the first
      successful answer with its id brought; and an answer whose id is not among them is farther away than
      all of K. */
  lemma ResultsAreTheNearestAnswers(q: Query)
    requires q.Valid()
    ensures |q.closest| <= K
    ensures forall i, j :: 0 <= i < j < |q.closest| ==>
              Nearer(q.settings.target, q.closest[i].fromId, q.closest[j].fromId)
    ensures forall x :: x in q.closest ==>
              exists k :: FirstNamed(q.hist.answers, k, x)
    ensures forall a :: a in q.hist.answers && Succeeds(a) && a.resp.id.Some? && NonZero(a.resp.id.value) ==>
              || (exists x :: x in q.closest && x.fromId == a.resp.id.value)
              || (|q.closest| == K && Nearer(q.settings.target, q.closest[K - 1].fromId, a.resp.id.value))
    ensures q.doneCalls == 1 ==> q.reported == q.closest
  {
    hide Nearer, Learned, FirstReply, Carries, NonZero;
    q.ReportsTheNearestOnce();
    var answers := q.hist.answers;
    forall x | x in q.closest ensures exists k :: FirstNamed(answers, k, x) {
      FirstIsLearned(Learned(answers), x.fromId);
      LearnedIsNonZero(answers, x);
      var k := FirstAnswer(answers, x.fromId);
    }
    forall a | a in answers && Succeeds(a) && a.resp.id.Some? && NonZero(a.resp.id.value)
      ensures || (exists x :: x in q.closest && x.fromId == a.resp.id.value)
              || (|q.closest| == K && Nearer(q.settings.target, q.closest[K - 1].fromId, a.resp.id.value))
    {
      var k := FirstAnswer(answers, a.resp.id.value);
    }
  }

  lemma {:induction false} TokensInOrder(t: NodeId, s: seq<Reply>)
    requires Ascending(t, s)
    ensures Ascending(t, WithToken(s))
    ensures forall x :: x in WithToken(s) <==> x in s && x.token.Some?
  {
    hide Nearer;
    if s != [] {
      TokensInOrder(t, s[..|s| - 1]);
      assert s == s[..|s| - 1] + [s[|s| - 1]];
      var before := WithToken(s[..|s| - 1]);
      forall i | 0 <= i < |before| ensures Nearer(t, before[i].fromId, s[|s| - 1].fromId) {
        assert before[i] in s[..|s| - 1];
      }
    }
  }

  /** Once the walk has ended, a commit has been sent for each result with a token and for nothing else,
      nearest first. */
  lemma CommitsAreTheTokens(q: Query)
    requires q.Valid() && q.finished && q.hasOnCommit
    ensures forall x :: x in q.commits <==> x in q.closest && x.token.Some?
    ensures forall i, j :: 0 <= i < j < |q.commits| ==>
              Nearer(q.settings.target, q.commits[i].fromId, q.commits[j].fromId)
  {
    hide Nearer, Learned, FirstReply, WithToken;
    q.ReportsTheNearestOnce();
    TokensInOrder(q.settings.target, q.closest);
  }

  /** The positions of the answers without an error. */
  function Successful(answers: seq<Answer>): set<int> {
    set i | 0 <= i < |answers| && Succeeds(answers[i])
  }

  lemma {:induction false} SuccessesAre(answers: seq<Answer>)
    ensures CountSuccesses(answers) == |Successful(answers)| <= |answers|
  {
    hide Succeeds;
    if answers == [] {
      assert Successful(answers) == {};
    } else {
      var before, a := answers[..|answers| - 1], answers[|answers| - 1];
      SuccessesAre(before);
      SucceedsIs(a);
      assert answers == before + [a];
      OneMoreSuccess(before, a);
    }
  }

  lemma SucceedsIs(a: Answer)
    ensures Succeeds(a) == IsSuccess(a.resp)
  {
  }

  lemma OneMoreSuccess(answers: seq<Answer>, a: Answer)
    ensures |Successful(answers + [a])| == |Successful(answers)| + (if Succeeds(a) then 1 else 0)
  {
    hide Succeeds;
    assert Successful(answers + [a]) == Successful(answers) + (if Succeeds(a) then {|answers|} else {});
  }

  /** The counters: successes are the answers without an error, errors the other answers and the timeouts. */
  lemma CountersAreRight(q: Query)
    requires q.Valid()
    ensures q.successes == |Successful(q.hist.answers)|
    ensures q.errors == |q.hist.answers| - q.successes + |q.hist.timedOut| >= 0
  {
    hide KNearest, Learned;
    SuccessesAre(q.hist.answers);
  }

  /** The state kept for an address: DONE once it has answered, DOWN once it has timed out, PENDING before. */
  lemma StatesAreRight(q: Query)
    requires q.Valid()
    ensures forall a :: a in q.seen && q.seen[a] == DONE <==> HasAnswer(q.hist.answers, a)
    ensures forall a :: a in q.seen && q.seen[a] == DOWN <==> a in q.hist.timedOut
  {
    hide HasAddr, HasAnswer, DistinctAddrs, DistinctAnswers, KNearest, Learned, CoversAnswers, SkipsOk;
  }

  // ------------------------------------------------------------------------------------------
  // The order in which nodes are taken up
  // ------------------------------------------------------------------------------------------

  /** Positions in ascending order. */
  ghost predicate Increasing(at: seq<nat>) {
    forall k, l :: 0 <= k < l < |at| ==> at[k] < at[l]
  }

  /** The positions of the nodes that the frontier takes up. */
  function Taken(f: Frontier, ns: seq<PendingNode>, filter: Filter): seq<nat> {
    if ns == [] then []
    else
      var n := |ns| - 1;
      var seen := OfferAll(f, ns[..n], filter).seen;
      Taken(f, ns[..n], filter) +
      (if ns[n].addr in seen || |seen| >= 4096 || !filter(ns[n].id, ns[n].addr) then [] else [n])
  }

  lemma TakenLast(f: Frontier, ns: seq<PendingNode>, n: PendingNode, filter: Filter)
    ensures var g, h := OfferAll(f, ns, filter), OfferAll(f, ns + [n], filter);
            if n.addr in g.seen || |g.seen| >= 4096 || !filter(n.id, n.addr)
            then h == g && Taken(f, ns + [n], filter) == Taken(f, ns, filter)
            else h == Frontier(g.seen[n.addr := PENDING], g.pending + [n]) &&
                 Taken(f, ns + [n], filter) == Taken(f, ns, filter) + [|ns|]
  {
    assert (ns + [n])[..|ns|] == ns;
  }

  lemma NothingTaken(f: Frontier, filter: Filter)
    ensures OfferAll(f, [], filter) == f && Taken(f, [], filter) == []
  {
  }

  /** Positions in a list, in ascending order. */
  ghost predicate PositionsIn(at: seq<nat>, ns: seq<PendingNode>) {
    Increasing(at) && forall k :: 0 <= k < |at| ==> at[k] < |ns|
  }

  /** The nodes at some positions of a list. */
  ghost function Picked(ns: seq<PendingNode>, at: seq<nat>): seq<PendingNode>
    requires PositionsIn(at, ns)
  {
    seq(|at|, k requires 0 <= k < |at| => ns[at[k]])
  }

  lemma PickedMore(ns: seq<PendingNode>, n: PendingNode, at: seq<nat>)
    requires PositionsIn(at, ns)
    ensures PositionsIn(at, ns + [n]) && Picked(ns + [n], at) == Picked(ns, at)
    ensures PositionsIn(at + [|ns|], ns + [n]) && Picked(ns + [n], at + [|ns|]) == Picked(ns, at) + [n]
  {
  }

  /** The stack grows by the nodes taken up, in the order in which they were offered. */
  lemma {:induction false} TakenInOrder(f: Frontier, ns: seq<PendingNode>, filter: Filter)
    ensures PositionsIn(Taken(f, ns, filter), ns)
    ensures OfferAll(f, ns, filter).pending == f.pending + Picked(ns, Taken(f, ns, filter))
  {
    hide OfferAll, Taken, Picked, PositionsIn;
    if ns == [] {
      NothingTaken(f, filter);
      NothingPicked();
    } else {
      var before, n := ns[..|ns| - 1], ns[|ns| - 1];
      assert ns == before + [n];
      TakenInOrder(f, before, filter);
      TakenLast(f, before, n, filter);
      PickedMore(before, n, Taken(f, before, filter));
    }
  }

  lemma NothingPicked()
    ensures PositionsIn([], []) && Picked([], []) == [] && Addrs([]) == {}
  {
  }

  ghost function Addrs(ns: seq<PendingNode>): set<Ipv4Address> {
    set n | n in ns :: n.addr
  }

  /** The seen map grows by their addresses. */
  lemma {:induction false} TakenAreSeen(f: Frontier, ns: seq<PendingNode>, filter: Filter)
    requires PositionsIn(Taken(f, ns, filter), ns)
    ensures OfferAll(f, ns, filter).seen.Keys == f.seen.Keys + Addrs(Picked(ns, Taken(f, ns, filter)))
  {
    hide OfferAll, Taken, Picked, PositionsIn, Addrs;
    if ns == [] {
      NothingTaken(f, filter);
      NothingPicked();
    } else {
      var before, n := ns[..|ns| - 1], ns[|ns| - 1];
      assert ns == before + [n];
      TakenInOrder(f, before, filter);
      TakenAreSeen(f, before, filter);
      TakenLast(f, before, n, filter);
      PickedMore(before, n, Taken(f, before, filter));
      AddrsMore(Picked(before, Taken(f, before, filter)), n);
    }
  }

  /** What is new in it is PENDING, and every other state stays. */
  lemma {:induction false} TakenArePending(f: Frontier, ns: seq<PendingNode>, filter: Filter)
    ensures var g := OfferAll(f, ns, filter);
            && f.seen.Keys <= g.seen.Keys && |g.seen| == |f.seen| + |Taken(f, ns, filter)|
            && forall a :: a in g.seen ==> g.seen[a] == if a in f.seen then f.seen[a] else PENDING
  {
    hide OfferAll, Taken;
    if ns == [] {
      NothingTaken(f, filter);
    } else {
      var before, n := ns[..|ns| - 1], ns[|ns| - 1];
      assert ns == before + [n];
      TakenArePending(f, before, filter);
      TakenLast(f, before, n, filter);
    }
  }

  lemma AddrsMore(ns: seq<PendingNode>, n: PendingNode)
    ensures Addrs(ns + [n]) == Addrs(ns) + {n.addr}
  {
    forall a | a in Addrs(ns) ensures a in Addrs(ns + [n]) {
      var m :| m in ns && m.addr == a;
      assert m in ns + [n];
    }
    assert n in ns + [n];
  }

  /** A node is taken up exactly if its address is not among those seen by then, fewer than 4096 have been
      seen by then, and it passes the filter. */
  lemma {:induction false} TakenExactly(f: Frontier, ns: seq<PendingNode>, filter: Filter, i: nat)
    requires i < |ns|
    ensures i in Taken(f, ns, filter) <==>
            var seen := OfferAll(f, ns[..i], filter).seen;
            ns[i].addr !in seen && |seen| < 4096 && filter(ns[i].id, ns[i].addr)
  {
    hide OfferAll;
    var before := ns[..|ns| - 1];
    if i < |before| {
      TakenExactly(f, before, filter, i);
      assert before[..i] == ns[..i];
    } else {
      TakenInOrder(f, before, filter);
    }
  }

  /** The positions of the closer nodes that are offered. */
  function Followed(closer: seq<Ipv4Address>, ownId: NodeId, peerId: Ipv4Address -> NodeId): seq<nat> {
    if closer == [] then []
    else
      var n := |closer| - 1;
      Followed(closer[..n], ownId, peerId) +
      (if closer[n].port != 0 && peerId(closer[n]) != ownId then [n] else [])
  }

  /** The closer nodes that are offered: in their order exactly those with a port whose id is not our own. */
  lemma {:induction false} CandidatesInOrder(closer: seq<Ipv4Address>, ownId: NodeId, peerId: Ipv4Address -> NodeId)
    ensures var c, at := Candidates(closer, ownId, peerId), Followed(closer, ownId, peerId);
            && Increasing(at) && |c| == |at|
            && (forall k :: 0 <= k < |at| ==>
                  at[k] < |closer| && c[k].addr == closer[at[k]] && c[k].id == peerId(closer[at[k]]))
            && forall i :: 0 <= i < |closer| ==> (i in at <==> closer[i].port != 0 && peerId(closer[i]) != ownId)
  {
    if closer != [] {
      CandidatesInOrder(closer[..|closer| - 1], ownId, peerId);
      assert closer == closer[..|closer| - 1] + [closer[|closer| - 1]];
    }
  }

  /** Seeds and table nodes are offered last one first, so that the nearest ends up on top. */
  lemma {:induction false} BackwardsIs(ns: seq<PendingNode>)
    ensures |Backwards(ns)| == |ns|
    ensures forall i :: 0 <= i < |ns| ==> Backwards(ns)[i] == ns[|ns| - 1 - i]
  {
    if ns != [] {
      BackwardsIs(ns[..|ns| - 1]);
    }
  }

  /** start() offers the caller's seeds, last one first, and then asks the table if fewer than K are on the
      stack. */
  lemma SeedsAreOffered(s: Settings, id: NodeId, view: Routing.View, preSeeds: seq<PendingNode>, w: Walker,
                        offered: seq<PendingNode>)
    requires |view| == 256 && |offered| == |preSeeds|
    requires forall i :: 0 <= i < |preSeeds| ==> offered[i] == preSeeds[|preSeeds| - 1 - i]
    ensures var r, g := Stacked(s, id, view, preSeeds, w), OfferAll(Frontier(w.seen, w.pending), offered, s.filter);
            && r.inflight == w.inflight && r.slowdown == w.slowdown
            && r.fromTable == (w.fromTable || |g.pending| < K)
            && (|g.pending| >= K ==> r.seen == g.seen && r.pending == g.pending)
            && (|g.pending| < K ==> r == Seeded(s, id, view, w.(seen := g.seen, pending := g.pending,
                                                               hist := w.hist.Offered(g.seen))))
  {
    hide OfferAll, Backwards, FromTable, History.Offered;
    BackwardsIs(preSeeds);
    assert offered == Backwards(preSeeds);
  }

  /** The table gives as many nodes as the stack lacks, nearest first; they are offered last one first. */
  lemma TableIsOffered(s: Settings, id: NodeId, view: Routing.View, w: Walker, offered: seq<PendingNode>)
    requires |view| == 256 && |w.pending| < K
    requires var ns := Routing.Closest(id, view, s.target, K - |w.pending|);
             |offered| == |ns| && forall i :: 0 <= i < |ns| ==>
               && offered[i].id == ns[|ns| - 1 - i].id
               && offered[i].addr == Parse4(ns[|ns| - 1 - i].host, ns[|ns| - 1 - i].port % 65536)
    ensures var r, g := Seeded(s, id, view, w), OfferAll(Frontier(w.seen, w.pending), offered, s.filter);
            && r.seen == g.seen && r.pending == g.pending && r.hist == w.hist.Offered(g.seen)
            && r.fromTable && r.inflight == w.inflight && r.slowdown == w.slowdown
  {
    hide OfferAll, Backwards, History.Offered, Routing.Closest, Parse4;
    var ns := Routing.Closest(id, view, s.target, K - |w.pending|);
    BackwardsIs(FromTable(ns));
    assert offered == Backwards(FromTable(ns));
  }

  /** A running walk asks the table exactly if it has not done so, fewer than K/4 answers were successful,
      nothing is in flight and nothing on the stack is worth visiting. */
  lemma TableIsAskedExactly(s: Settings, id: NodeId, view: Routing.View, closest: seq<Reply>, concurrency: int,
                            successes: int, errors: int, w: Walker)
    requires |view| == 256 && concurrency >= 1 && w.inflight >= 0
    ensures ReadOn(s, id, view, closest, concurrency, successes, errors, w).fromTable == (
              || w.fromTable
              || (successes < K / 4 && w.inflight == 0 && Chosen(s.target, closest, w.pending, true) == []))
  {
    hide Popped, Chosen, Seeded, History.Offered;
    var heard := successes != 0 || errors != 0;
    var limit := if w.slowdown then SLOWDOWN_CONCURRENCY else concurrency;
    PoppedKeeps(s.target, closest, w, limit);
    PoppedInFlight(s.target, closest, w, limit);
    var d := Dispatched(s.target, closest, concurrency, heard, w);
    SeededAsks(s, id, view, d);
    DispatchKeepsTable(s.target, closest, concurrency, heard, Seeded(s, id, view, d));
  }

  lemma SeededAsks(s: Settings, id: NodeId, view: Routing.View, w: Walker)
    requires |view| == 256
    ensures Seeded(s, id, view, w).fromTable == (w.fromTable || |w.pending| < K)
    ensures Seeded(s, id, view, w).slowdown == w.slowdown
    ensures w.seen.Keys <= Seeded(s, id, view, w).seen.Keys
    ensures forall b :: b in w.seen ==> Seeded(s, id, view, w).seen[b] == w.seen[b]
  {
    hide OfferAll, Backwards, History.Offered, Routing.Closest;
    if |w.pending| < K {
      var ns := Backwards(FromTable(Routing.Closest(id, view, s.target, K - |w.pending|)));
      TakenArePending(Frontier(w.seen, w.pending), ns, s.filter);
    }
  }

  /** What a turn leaves alone: the states of the addresses seen, and, once anything has come back, the
      slowdown. */
  lemma TurnKeeps(s: Settings, id: NodeId, view: Routing.View, closest: seq<Reply>, concurrency: int,
                  successes: int, errors: int, w: Walker)
    requires |view| == 256
    ensures var r := ReadOn(s, id, view, closest, concurrency, successes, errors, w);
            && (forall b :: b in w.seen ==> b in r.seen && r.seen[b] == w.seen[b])
            && (successes != 0 || errors != 0 ==> r.slowdown == w.slowdown)
            && (successes == 0 && errors == 0 ==> r.slowdown == (w.slowdown || !w.fromTable))
  {
    hide Popped, Seeded, History.Offered, Routing.Closest;
    var heard := successes != 0 || errors != 0;
    var limit := if w.slowdown then SLOWDOWN_CONCURRENCY else concurrency;
    PoppedKeeps(s.target, closest, w, limit);
    var d := Dispatched(s.target, closest, concurrency, heard, w);
    SeededAsks(s, id, view, d);
    var again := if d.slowdown then SLOWDOWN_CONCURRENCY else concurrency;
    PoppedKeeps(s.target, closest, Seeded(s, id, view, d), again);
  }

  /** A timeout marks its address DOWN, leaves every other state and the slowdown as they are, and counts
      among the timeouts. */
  lemma TimeoutThenOn(s: Settings, id: NodeId, view: Routing.View, closest: seq<Reply>, concurrency: int,
                      successes: int, errors: int, a: Ipv4Address, w: Walker)
    requires |view| == 256 && errors != 0
    ensures var r := ReadOn(s, id, view, closest, concurrency, successes, errors, AfterTimeout(a, w));
            && r.slowdown == w.slowdown && a in r.seen && r.seen[a] == DOWN
            && (forall b :: b in w.seen && b != a ==> b in r.seen && r.seen[b] == w.seen[b])
  {
    hide ReadOn;
    TurnKeeps(s, id, view, closest, concurrency, successes, errors, AfterTimeout(a, w));
  }

  /** An answer marks its address DONE, leaves every other state as it is, and ends the slowdown once as many
      answers and timeouts as the concurrency have come back, unless the table was asked. */
  lemma AnswerThenOn(s: Settings, id: NodeId, view: Routing.View, closest: seq<Reply>, concurrency: int,
                     successes: int, errors: int, a: Answer, w: Walker)
    requires |view| == 256 && (successes != 0 || errors != 0)
    ensures var r := ReadOn(s, id, view, closest, concurrency, successes, errors,
                            AfterAnswer(s, concurrency, successes + errors, a, w));
            && r.slowdown == (w.slowdown && (w.fromTable || successes + errors < concurrency))
            && a.node.addr in r.seen && r.seen[a.node.addr] == DONE
            && (forall b :: b in w.seen && b != a.node.addr ==> b in r.seen && r.seen[b] == w.seen[b])
  {
    hide ReadOn, OfferAll, Candidates;
    var f := Frontier(w.seen[a.node.addr := DONE], w.pending);
    var ns := Candidates(a.resp.closer, a.ownId, s.peerId);
    TakenArePending(f, ns, s.filter);
    TurnKeeps(s, id, view, closest, concurrency, successes, errors,
      AfterAnswer(s, concurrency, successes + errors, a, w));
  }
}
