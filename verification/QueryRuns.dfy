/** A run of the query in which completion is reported too early (src/query.cpp:520-549). */
module QueryRuns {
  import opened Wrappers
  import opened Bytes
  import opened NodeIds
  import opened Addresses
  import opened Closest
  import opened Commits
  import opened Queries
  import Routing = RoutingTable

  function TokenFrom(id: NodeId, token: bytes): Response {
    Response(Some(id), None, Some(token), None, [])
  }

  ghost predicate NoNodes(v: Routing.View) {
    |v| == ID_BITS && forall i :: 0 <= i < |v| ==> v[i] == []
  }

  lemma NothingStored(id: NodeId, v: Routing.View, target: NodeId, count: nat)
    requires NoNodes(v)
    ensures Routing.Closest(id, v, target, count) == []
  {
    hide Prefix, Nearer;
    Routing.EmptyTable(id, v);
    Routing.ClosestByZones(id, v, target, count);
  }

  /** An empty table adds nothing to a stack. */
  lemma NothingSeeded(s: Settings, id: NodeId, v: Routing.View, w: Walker)
    requires NoNodes(v) && w.hist.Offered(w.seen) == w.hist
    ensures Seeded(s, id, v, w) == w.(fromTable := w.fromTable || |w.pending| < K)
  {
    hide Routing.Closest, NoNodes;
    if |w.pending| < K {
      NothingStored(id, v, s.target, K - |w.pending|);
    }
  }

  lemma TwoAreVisited(s: Settings, id: NodeId, v: Routing.View, a: Ipv4Address, b: Ipv4Address, w: Walker)
    requires NoNodes(v) && w.hist.Offered(w.seen) == w.hist
    requires w.pending == [PendingNode(ZERO_ID, a), PendingNode(ZERO_ID, b)]
    requires w.inflight == 0 && !w.fromTable && !w.slowdown && w.hist.outstanding == {}
    ensures var r := ReadOn(s, id, v, [], 2, 0, 0, Stacked(s, id, v, [], w));
            r.pending == [] && r.inflight == 2 && r.hist.outstanding == {a, b}
  {
    hide Seeded;
    assert Fed(w, Backwards([]), s.filter) == w;
    NothingSeeded(s, id, v, w);
    var w0 := Stacked(s, id, v, [], w);
    var w1 := AfterTop(s.target, [], w0);
    assert w1.pending == [PendingNode(ZERO_ID, a)];
    var w2 := AfterTop(s.target, [], w1);
    assert Popped(s.target, [], w0, 2) == Popped(s.target, [], w1, 2) == Popped(s.target, [], w2, 2) == w2;
  }

  lemma OfferedAgain(h: History, seen: map<Ipv4Address, NodeState>)
    ensures h.Offered(seen).Offered(seen) == h.Offered(seen)
  {
    assert h.Offered(seen).Offered(seen).place == h.Offered(seen).place;
  }

  /** An answer without closer nodes leaves a walk with an empty stack and table where it was. */
  lemma AnswerOnly(s: Settings, id: NodeId, v: Routing.View, closest: seq<Reply>, successes: int, errors: int,
                   heard: int, a: Answer, w: Walker)
    requires NoNodes(v) && a.resp.closer == [] && w.pending == [] && w.inflight >= 1
    ensures var r := ReadOn(s, id, v, closest, 2, successes, errors, AfterAnswer(s, 2, heard, a, w));
            && r.pending == [] && r.inflight == w.inflight - 1
            && r.hist.outstanding == w.hist.outstanding - {a.node.addr}
  {
    hide Seeded;
    var w1 := AfterAnswer(s, 2, heard, a, w);
    OfferedAgain(w.hist.Answer(a), w1.seen);
    var d := Dispatched(s.target, closest, 2, successes != 0 || errors != 0, w1);
    NothingSeeded(s, id, v, d);
  }

  lemma TwoTokens(t: NodeId, own: NodeId, a: Ipv4Address, b: Ipv4Address, ra: Response, rb: Response)
    requires IsSuccess(ra) && IsSuccess(rb) && ra.id.Some? && rb.id.Some? && ra.token.Some? && rb.token.Some?
    requires ra.id.value != rb.id.value && ra.id.value != ZERO_ID && rb.id.value != ZERO_ID
    ensures var one := Pushed(t, [], Answer(PendingNode(ZERO_ID, a), ra, own));
            var two := Pushed(t, one, Answer(PendingNode(ZERO_ID, b), rb, own));
            |WithToken(two)| == 2
  {
    hide Nearer, WithToken, Insert;
    var x, y := ReplyOf(PendingNode(ZERO_ID, a), ra), ReplyOf(PendingNode(ZERO_ID, b), rb);
    TwoInserted(t, x, y);
    BothHaveTokens(x, y);
    BothHaveTokens(y, x);
  }

  lemma TwoInserted(t: NodeId, x: Reply, y: Reply)
    requires x.fromId != y.fromId
    ensures Capped(Insert(t, [], x)) == [x]
    ensures Capped(Insert(t, [x], y)) == [x, y] || Capped(Insert(t, [x], y)) == [y, x]
  {
    hide Nearer;
    assert 2 <= K && [x][1..] == [] && Insert(t, [], y) == [y];
    assert Insert(t, [x], y) == [x] + [y] || Insert(t, [x], y) == [y] + [x];
  }

  lemma BothHaveTokens(x: Reply, y: Reply)
    requires x.token.Some? && y.token.Some?
    ensures |WithToken([x, y])| == 2
  {
    assert [x, y][..1] == [x] && [x][..0] == [];
    assert WithToken([x]) == [x];
  }

  lemma TwoOffered(filter: Filter, a: Ipv4Address, b: Ipv4Address)
    requires a != b && forall id, addr :: filter(id, addr)
    ensures var one := Offer(Frontier(map[], []), PendingNode(ZERO_ID, a), filter);
            var two := Offer(one, PendingNode(ZERO_ID, b), filter);
            two.pending == [PendingNode(ZERO_ID, a), PendingNode(ZERO_ID, b)]
  {
    var seen: map<Ipv4Address, NodeState> := map[];
    assert |seen[a := PENDING]| == 1;
  }

  lemma NothingInFlightYet(h: History, seen: map<Ipv4Address, NodeState>)
    ensures h.Offered(seen).outstanding == h.outstanding
  {
  }

  /** A query that knows two bootstrap nodes and an empty table. */
  method TwoBootstraps(target: NodeId, table: Routing.Table, a: Ipv4Address, b: Ipv4Address, someId: NodeId)
    returns (q: Query)
    requires a != b
    ensures fresh(q) && q.Valid() && !q.started && !q.done && q.preSeeds == [] && q.closest == []
    ensures q.settings.target == target && q.table == table && q.concurrency == 2
    ensures !q.hasOnReply && q.hasOnDone && q.hasOnCommit
    ensures var w := q.Position();
            && w.pending == [PendingNode(ZERO_ID, a), PendingNode(ZERO_ID, b)]
            && w.inflight == 0 && !w.fromTable && !w.slowdown && w.hist.outstanding == {}
            && w.hist.Offered(w.seen) == w.hist
  {
    hide Query.Core, Query.Quiet, Offer, History.Offered;
    q := new Query(Settings(target, (_, _) => true, _ => someId), table, 2, false, true, true);
    TwoOffered(q.settings.filter, a, b);
    q.AddBootstrap(a);
    NothingInFlightYet(NO_HISTORY, q.seen);
    ghost var h := q.hist;
    q.AddBootstrap(b);
    NothingInFlightYet(h, q.seen);
    q.NothingIsNew();
  }

  /** Both nodes are visited when the query starts. */
  method TwoVisits(target: NodeId, table: Routing.Table, a: Ipv4Address, b: Ipv4Address, someId: NodeId,
                   acts: nat -> CommitAct)
    returns (q: Query)
    requires a != b && table.Valid() && NoNodes(table.buckets[..])
    ensures fresh(q) && q.Valid() && q.started && !q.done && q.closest == []
    ensures q.settings.target == target && q.table == table && q.concurrency == 2
    ensures !q.hasOnReply && q.hasOnDone && q.hasOnCommit
    ensures q.pending == [] && q.inflight == 2 && q.hist.outstanding == {a, b}
  {
    hide Query.Core, Query.Quiet, Query.CommitsMade, Stacked, ReadOn, Routing.TableOk, Routing.Total, NoNodes;
    q := TwoBootstraps(target, table, a, b, someId);
    TwoAreVisited(q.settings, table.id, table.buckets[..], a, b, q.Position());
    q.Start(acts);
  }

  /** A node answers a walk of two visits with a token and without closer nodes. */
  method TakeToken(q: Query, node: PendingNode, id: NodeId, token: bytes, acts: nat -> CommitAct)
    requires q.Valid() && q.started && !q.done && !q.hasOnReply && q.hasOnCommit && q.concurrency == 2
    requires q.table.Valid() && NoNodes(q.table.buckets[..])
    requires q.pending == [] && q.inflight >= 1 && node.addr in q.hist.outstanding
    modifies q
    ensures q.Valid() && q.started && q.pending == [] && q.inflight == old(q.inflight) - 1
    ensures q.hist.outstanding == old(q.hist.outstanding) - {node.addr}
    ensures q.closest == Pushed(q.settings.target, old(q.closest), Answer(node, TokenFrom(id, token), q.table.id))
    ensures q.finished == (q.inflight <= 0) && (q.finished ==> q.CommitsMade(acts)) && (!q.finished ==> !q.done)
  {
    hide Query.Core, Query.Quiet, Query.CommitsMade, AfterAnswer, ReadOn, Pushed, Routing.TableOk, Routing.Total,
         NoNodes;
    ghost var w := q.Position();
    q.OnVisitResponse(node, TokenFrom(id, token), false, acts);
    AnswerOnly(q.settings, q.table.id, q.table.buckets[..], q.closest, q.successes, q.errors,
               q.successes + q.errors, Answer(node, TokenFrom(id, token), q.table.id), w);
  }

  /** Two nodes answer with tokens, and the first commit is answered from inside its callback: the query
      reports its completion before the second commit is sent, which then waits for an answer. */
  method CompletesTooEarly(target: NodeId, id: NodeId, a: Ipv4Address, b: Ipv4Address, ida: NodeId, idb: NodeId,
                           token: bytes)
    returns (q: Query)
    requires a != b && ida != idb && ida != ZERO_ID && idb != ZERO_ID
    ensures fresh(q) && q.Valid() && q.finished && q.done && q.doneCalls == 1 && q.early
    ensures |q.commits| == 2 && q.commitOutstanding == {1}
  {
    var table := new Routing.Table(id);
    assert NoNodes(table.buckets[..]);
    hide Query.Core, Query.Quiet, Pushed, WithToken, Routing.TableOk, Routing.Total, OpenAfter, Ends, EarlyBy, NoNodes;
    var acts := (i: nat) => if i == 0 then [ReplyTo(0)] else [];
    q := TwoVisits(target, table, a, b, ida, acts);
    TakeToken(q, PendingNode(ZERO_ID, a), ida, token, acts);
    TakeToken(q, PendingNode(ZERO_ID, b), idb, token, acts);
    TwoTokens(target, id, a, b, TokenFrom(ida, token), TokenFrom(idb, token));
    FirstAnsweredAtOnce(acts, 2);
    EarlyIsEnd(acts, 2);
    SecondWaits(acts);
    q.DoneIsReported();
  }
}
