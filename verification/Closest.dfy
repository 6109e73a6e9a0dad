/** The sorted list of the K nearest replies of a query (src/query.cpp:399-443). */
module Closest {
  import opened Wrappers
  import opened Bytes
  import opened NodeIds
  import opened Addresses
  import Routing = RoutingTable

  const K: nat := Routing.K

  datatype Reply = Reply(fromId: NodeId, fromAddr: Ipv4Address, token: Option<bytes>, value: Option<bytes>,
                         closerNodes: seq<Ipv4Address>)

  ghost predicate HasId(s: seq<Reply>, id: NodeId) {
    exists x :: x in s && x.fromId == id
  }

  ghost predicate Ascending(t: NodeId, s: seq<Reply>) {
    forall i, j :: 0 <= i < j < |s| ==> Nearer(t, s[i].fromId, s[j].fromId)
  }

  /** The first reply with an id. */
  function FirstReply(learned: seq<Reply>, id: NodeId): Option<Reply> {
    if learned == [] then None
    else if learned[0].fromId == id then Some(learned[0])
    else FirstReply(learned[1..], id)
  }

  /** s holds, in strictly ascending distance, exactly the K nearest distinct ids of all replies
      learned so far, each with the first reply that carried it. */
  ghost predicate KNearest(t: NodeId, learned: seq<Reply>, s: seq<Reply>) {
    && Ascending(t, s)
    && |s| <= K
    && (forall x :: x in s ==> FirstReply(learned, x.fromId) == Some(x))
    && forall id :: FirstReply(learned, id).Some? ==> HasId(s, id) || (|s| == K && Nearer(t, s[K - 1].fromId, id))
  }

  function Insert(t: NodeId, s: seq<Reply>, r: Reply): seq<Reply> {
    if s == [] then [r]
    else if s[0].fromId == r.fromId then s
    else if Nearer(t, s[0].fromId, r.fromId) then [s[0]] + Insert(t, s[1..], r)
    else [r] + s
  }

  function Capped(s: seq<Reply>): seq<Reply> {
    if |s| > K then s[..K] else s
  }

  lemma WithFirst(s: seq<Reply>, at: nat, r: Reply)
    requires 0 < at <= |s|
    ensures [s[0]] + s[1..] == s
    ensures [s[0]] + (s[1..][..at - 1] + [r] + s[1..][at - 1..]) == s[..at] + [r] + s[at..]
  {
    assert s[..at] == [s[0]] + s[1..][..at - 1] && s[1..][at - 1..] == s[at..];
  }

  lemma {:induction false} InsertAt(t: NodeId, s: seq<Reply>, r: Reply, at: nat)
    requires at <= |s|
    requires forall k :: 0 <= k < at ==> Nearer(t, s[k].fromId, r.fromId)
    requires at < |s| ==> s[at].fromId == r.fromId || Nearer(t, r.fromId, s[at].fromId)
    ensures Insert(t, s, r) == if at < |s| && s[at].fromId == r.fromId then s else s[..at] + [r] + s[at..]
  {
    hide Nearer;
    if at > 0 {
      NearerTotal(t, s[0].fromId, r.fromId);
      forall k | 0 <= k < at - 1 ensures Nearer(t, s[1..][k].fromId, r.fromId) {
        assert s[1..][k] == s[k + 1];
      }
      InsertAt(t, s[1..], r, at - 1);
      WithFirst(s, at, r);
    } else if s != [] {
      NearerTotal(t, s[0].fromId, r.fromId);
    }
  }

  function With(s: seq<Reply>, at: nat, r: Reply): seq<Reply>
    requires at <= |s|
  {
    s[..at] + [r] + s[at..]
  }

  lemma WithSwapped(s: seq<Reply>, i: nat, r: Reply)
    requires i < |s|
    ensures var w := With(s, i + 1, r);
            && w[i] == s[i] && w[i + 1] == r
            && w[i := r][i + 1 := s[i]] == With(s, i, r)
            && w[..i + 1] + w[i + 2..] == s
  {
  }

  /** push_closest: the new reply bubbles towards the front; a duplicate is taken out where it
      stands; the list is cut at K. */
  method PushClosest(t: NodeId, closest: seq<Reply>, reply: Reply) returns (r: seq<Reply>)
    requires Ascending(t, closest) && |closest| <= K
    ensures r == Capped(Insert(t, closest, reply))
  {
    hide Nearer, Insert, With, Capped, Ascending;
    CutAtEnd(closest);
    r := closest + [reply];
    WithLast(closest, reply);
    var i := |r| - 2;
    while i >= 0
      invariant -1 <= i < |closest|
      invariant r == With(closest, i + 1, reply) && |r| == |closest| + 1
      invariant i + 1 < |closest| ==> Nearer(t, reply.fromId, closest[i + 1].fromId)
    {
      WithSwapped(closest, i, reply);
      var cmp := CompareDistance(t, r[i].fromId, reply.fromId);
      if cmp < 0 {
        break;
      }
      if cmp == 0 {
        FrontIsNearer(t, closest, i, reply);
        InsertAt(t, closest, reply, i);
        r := r[..i + 1] + r[i + 2..];
        return;
      }
      r := r[i := r[i + 1]][i + 1 := r[i]];
      i := i - 1;
    }
    FrontIsNearer(t, closest, i, reply);
    InsertAt(t, closest, reply, i + 1);
    if i + 1 < |closest| {
      NearerTotal(t, reply.fromId, closest[i + 1].fromId);
    }
    WithIs(closest, i + 1, reply);
    assert r == Insert(t, closest, reply);
    CutAtEnd(r);
    if |r| > K {
      r := r[..|r| - 1];
    }
  }

  /** Everything in front of an entry that is nearer than the reply, or the reply's own, is nearer. */
  lemma FrontIsNearer(t: NodeId, s: seq<Reply>, i: int, r: Reply)
    requires Ascending(t, s) && -1 <= i < |s|
    requires i >= 0 ==> s[i].fromId == r.fromId || Nearer(t, s[i].fromId, r.fromId)
    ensures forall k :: 0 <= k < i ==> Nearer(t, s[k].fromId, r.fromId)
  {
    hide Nearer;
    forall k | 0 <= k < i ensures Nearer(t, s[k].fromId, r.fromId) {
      if s[i].fromId != r.fromId {
        NearerTransitive(t, s[k].fromId, s[i].fromId, r.fromId);
      }
    }
  }

  lemma CutAtEnd(s: seq<Reply>)
    requires |s| <= K + 1
    ensures Capped(s) == if |s| > K then s[..|s| - 1] else s
  {
  }

  lemma WithLast(s: seq<Reply>, r: Reply)
    ensures s + [r] == With(s, |s|, r)
  {
  }

  lemma WithIs(s: seq<Reply>, at: nat, r: Reply)
    requires at <= |s|
    ensures With(s, at, r) == s[..at] + [r] + s[at..]
  {
  }

  lemma {:induction false} FirstReplyAppend(learned: seq<Reply>, r: Reply, id: NodeId)
    ensures FirstReply(learned + [r], id) ==
            if FirstReply(learned, id).Some? then FirstReply(learned, id) else if r.fromId == id then Some(r) else None
  {
    if learned != [] {
      FirstReplyAppend(learned[1..], r, id);
      assert (learned + [r])[1..] == learned[1..] + [r];
    }
  }

  lemma {:induction false} FirstReplyHasId(learned: seq<Reply>, id: NodeId)
    ensures FirstReply(learned, id).Some? ==> FirstReply(learned, id).value.fromId == id
  {
    if learned != [] {
      FirstReplyHasId(learned[1..], id);
    }
  }

  /** The insertion point of an id in an ascending list. */
  function Position(t: NodeId, s: seq<Reply>, id: NodeId): (at: nat)
    ensures at <= |s|
  {
    if s != [] && s[0].fromId != id && Nearer(t, s[0].fromId, id) then 1 + Position(t, s[1..], id) else 0
  }

  lemma {:induction false} PositionSplits(t: NodeId, s: seq<Reply>, id: NodeId)
    requires Ascending(t, s)
    ensures var at := Position(t, s, id);
            && (forall k :: 0 <= k < at ==> Nearer(t, s[k].fromId, id))
            && (at < |s| ==> s[at].fromId == id || Nearer(t, id, s[at].fromId))
            && (at < |s| && s[at].fromId != id ==> forall k :: at <= k < |s| ==> Nearer(t, id, s[k].fromId))
            && (HasId(s, id) <==> at < |s| && s[at].fromId == id)
  {
    hide Nearer;
    if s != [] {
      NearerTotal(t, s[0].fromId, id);
      if s[0].fromId != id && Nearer(t, s[0].fromId, id) {
        PositionSplits(t, s[1..], id);
        assert forall x :: x in s <==> x == s[0] || x in s[1..];
      } else if s[0].fromId != id {
        forall k | 0 < k < |s| ensures Nearer(t, id, s[k].fromId) {
          NearerTransitive(t, id, s[0].fromId, s[k].fromId);
        }
        NearerTotal(t, id, id);
      } else {
        assert s[0] in s;
      }
    }
  }

  lemma InsertNew(t: NodeId, s: seq<Reply>, r: Reply) returns (at: nat)
    requires Ascending(t, s) && !HasId(s, r.fromId)
    ensures at <= |s| && Insert(t, s, r) == s[..at] + [r] + s[at..]
    ensures forall k :: 0 <= k < at ==> Nearer(t, s[k].fromId, r.fromId)
    ensures forall k :: at <= k < |s| ==> Nearer(t, r.fromId, s[k].fromId) && !Nearer(t, s[k].fromId, r.fromId)
  {
    hide Nearer;
    at := Position(t, s, r.fromId);
    PositionSplits(t, s, r.fromId);
    InsertAt(t, s, r, at);
    forall k | at <= k < |s| ensures !Nearer(t, s[k].fromId, r.fromId) {
      NearerTotal(t, s[k].fromId, r.fromId);
    }
  }

  /** A known id changes nothing. */
  lemma InsertKnown(t: NodeId, s: seq<Reply>, r: Reply)
    requires Ascending(t, s) && HasId(s, r.fromId)
    ensures Insert(t, s, r) == s
  {
    hide Nearer;
    PositionSplits(t, s, r.fromId);
    InsertAt(t, s, r, Position(t, s, r.fromId));
  }

  /** Pushing a reply keeps the list the K nearest of everything learned, keeps it full once it is
      full, and never moves its last entry farther away. */
  lemma PushKeepsKNearest(t: NodeId, learned: seq<Reply>, s: seq<Reply>, r: Reply)
    requires KNearest(t, learned, s)
    ensures KNearest(t, learned + [r], Capped(Insert(t, s, r)))
    ensures |s| == K ==> var c := Capped(Insert(t, s, r));
            |c| == K && (c[K - 1] == s[K - 1] || Nearer(t, c[K - 1].fromId, s[K - 1].fromId))
  {
    hide Nearer, Capped, Insert, FirstReply;
    var c := Capped(Insert(t, s, r));
    if HasId(s, r.fromId) {
      InsertKnown(t, s, r);
      assert c == s by { CappedIs(s); }
      KnownKeeps(t, learned, s, r);
    } else {
      var at := InsertNew(t, s, r);
      CappedIs(Insert(t, s, r));
      if at == K {
        assert c == s;
        FarKeeps(t, learned, s, r);
      } else {
        NewKeeps(t, learned, s, r, at, c);
      }
    }
  }

  lemma CappedIs(s: seq<Reply>)
    ensures Capped(s) == if |s| > K then s[..K] else s
  {
  }

  lemma KnownKeeps(t: NodeId, learned: seq<Reply>, s: seq<Reply>, r: Reply)
    requires KNearest(t, learned, s) && HasId(s, r.fromId)
    ensures KNearest(t, learned + [r], s)
  {
    hide Nearer, FirstReply, Ascending;
    forall id ensures FirstReply(learned + [r], id).Some? ==> FirstReply(learned, id).Some? || id == r.fromId {
      FirstReplyAppend(learned, r, id);
    }
    forall x | x in s ensures FirstReply(learned + [r], x.fromId) == Some(x) {
      FirstReplyAppend(learned, r, x.fromId);
    }
  }

  lemma FarKeeps(t: NodeId, learned: seq<Reply>, s: seq<Reply>, r: Reply)
    requires KNearest(t, learned, s) && !HasId(s, r.fromId) && |s| == K && Nearer(t, s[K - 1].fromId, r.fromId)
    ensures KNearest(t, learned + [r], s)
  {
    hide Nearer, FirstReply, Ascending;
    forall id ensures FirstReply(learned + [r], id).Some? ==> FirstReply(learned, id).Some? || id == r.fromId {
      FirstReplyAppend(learned, r, id);
    }
    forall x | x in s ensures FirstReply(learned + [r], x.fromId) == Some(x) {
      FirstReplyAppend(learned, r, x.fromId);
    }
  }

  lemma NewShape(t: NodeId, s: seq<Reply>, r: Reply, at: nat, c: seq<Reply>)
    requires Ascending(t, s) && at <= |s| <= K && at < K
    requires forall k :: 0 <= k < at ==> Nearer(t, s[k].fromId, r.fromId)
    requires forall k :: at <= k < |s| ==> Nearer(t, r.fromId, s[k].fromId)
    requires var ins := s[..at] + [r] + s[at..]; c == if |ins| > K then ins[..K] else ins
    ensures Ascending(t, c)
    ensures |c| == if |s| == K then K else |s| + 1
    ensures r in c && forall x :: x in c ==> x == r || x in s
    ensures forall x :: x in s ==> x in c || (|s| == K && x == s[K - 1])
    ensures |s| == K ==> Nearer(t, c[K - 1].fromId, s[K - 1].fromId)
  {
    hide Nearer;
    assert c[at] == r;
    forall k | 0 <= k < |s| ensures s[k] in c || (|s| == K && k == K - 1) {
      assert k < at ==> c[k] == s[k];
      assert at <= k && k + 1 < |c| ==> c[k + 1] == s[k];
    }
  }

  lemma NewKeeps(t: NodeId, learned: seq<Reply>, s: seq<Reply>, r: Reply, at: nat, c: seq<Reply>)
    requires KNearest(t, learned, s) && !HasId(s, r.fromId)
    requires at <= |s| && at < K
    requires forall k :: 0 <= k < at ==> Nearer(t, s[k].fromId, r.fromId)
    requires forall k :: at <= k < |s| ==> Nearer(t, r.fromId, s[k].fromId) && !Nearer(t, s[k].fromId, r.fromId)
    requires var ins := s[..at] + [r] + s[at..]; c == if |ins| > K then ins[..K] else ins
    ensures KNearest(t, learned + [r], c)
    ensures |s| == K ==> |c| == K && (c[K - 1] == s[K - 1] || Nearer(t, c[K - 1].fromId, s[K - 1].fromId))
  {
    hide Nearer, FirstReply, Ascending;
    NewShape(t, s, r, at, c);
    forall x | x in c ensures FirstReply(learned + [r], x.fromId) == Some(x) {
      FirstReplyAppend(learned, r, x.fromId);
    }
    forall id | FirstReply(learned + [r], id).Some?
      ensures HasId(c, id) || (|c| == K && Nearer(t, c[K - 1].fromId, id))
    {
      FirstReplyAppend(learned, r, id);
      if id != r.fromId && !HasId(s, id) {
        NearerTransitive(t, c[K - 1].fromId, s[K - 1].fromId, id);
      }
    }
  }

  /** What the list holds is determined by what was learned. */
  lemma KNearestIsUnique(t: NodeId, learned: seq<Reply>, a: seq<Reply>, b: seq<Reply>)
    requires KNearest(t, learned, a) && KNearest(t, learned, b)
    ensures a == b
  {
    hide Nearer, FirstReply;
    if |a| <= |b| {
      SameFront(t, learned, a, b, |a|);
      if |a| < |b| {
        NextIsKnown(t, learned, a, b, |a|);
      }
    } else {
      SameFront(t, learned, b, a, |b|);
      NextIsKnown(t, learned, b, a, |b|);
    }
  }

  lemma {:induction false} SameFront(t: NodeId, learned: seq<Reply>, a: seq<Reply>, b: seq<Reply>, n: nat)
    requires KNearest(t, learned, a) && KNearest(t, learned, b) && n <= |a| && n <= |b|
    ensures a[..n] == b[..n]
  {
    hide Nearer, FirstReply;
    if n > 0 {
      SameFront(t, learned, a, b, n - 1);
      NextIsKnown(t, learned, a, b, n - 1);
      NextIsKnown(t, learned, b, a, n - 1);
      NearerTotal(t, a[n - 1].fromId, b[n - 1].fromId);
      assert a[n - 1] in a && b[n - 1] in b;
      assert a[..n] == a[..n - 1] + [a[n - 1]] && b[..n] == b[..n - 1] + [b[n - 1]];
    }
  }

  /** After a common front, the next entry of one list is no nearer than the next of the other. */
  lemma NextIsKnown(t: NodeId, learned: seq<Reply>, a: seq<Reply>, b: seq<Reply>, n: nat)
    requires KNearest(t, learned, a) && KNearest(t, learned, b) && n <= |a| && n < |b| && a[..n] == b[..n]
    ensures n < |a| && !Nearer(t, b[n].fromId, a[n].fromId)
  {
    hide Nearer, FirstReply;
    var id := b[n].fromId;
    assert b[n] in b;
    if HasId(a, id) {
      var x :| x in a && x.fromId == id;
      var j :| 0 <= j < |a| && a[j] == x;
      if j < n {
        assert b[j] == a[..n][j];
        NearerTotal(t, id, id);
      }
      if j > n {
        NearerTotal(t, a[n].fromId, id);
      } else {
        NearerTotal(t, id, id);
      }
    } else {
      LastIsFarthest(t, a, n);
      if n < |a| && Nearer(t, id, a[n].fromId) {
        if n < K - 1 {
          NearerTransitive(t, id, a[n].fromId, a[K - 1].fromId);
        }
        NearerTotal(t, id, a[K - 1].fromId);
      }
    }
  }

  lemma LastIsFarthest(t: NodeId, a: seq<Reply>, n: nat)
    requires Ascending(t, a) && n < |a|
    ensures n < |a| - 1 ==> Nearer(t, a[n].fromId, a[|a| - 1].fromId)
  {
    hide Nearer;
  }
}
