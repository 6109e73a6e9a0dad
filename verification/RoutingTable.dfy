/** Kademlia routing table: 256 sorted buckets of at most K nodes (src/routing_table.cpp). */
module RoutingTable {
  import opened Wrappers
  import opened NodeIds

  /** The capacity of a bucket: 20, or 10 on embedded builds. */
  type BucketSize = n: nat | n >= 2 witness 20
  const K: BucketSize

  /** The metadata counters of a node play no part in the table's decisions and are not modelled. */
  datatype Node = Node(id: NodeId, host: string, port: nat)

  // ------------------------------------------------------------------------------------------
  // Buckets as values
  // ------------------------------------------------------------------------------------------

  ghost predicate Sorted(s: seq<Node>) {
    forall i, j :: 0 <= i < j < |s| ==> IdLess(s[i].id, s[j].id)
  }

  ghost predicate HasId(s: seq<Node>, id: NodeId) {
    exists n :: n in s && n.id == id
  }

  /** Insertion before the first node whose id is not smaller. */
  function SortedInsert(s: seq<Node>, node: Node): seq<Node> {
    if s != [] && IdLess(s[0].id, node.id) then [s[0]] + SortedInsert(s[1..], node) else [node] + s
  }

  function RemoveId(s: seq<Node>, id: NodeId): seq<Node> {
    if s == [] then [] else (if s[0].id == id then [] else [s[0]]) + RemoveId(s[1..], id)
  }

  lemma {:induction false} SortedInsertSplits(s: seq<Node>, node: Node, at: nat)
    requires at <= |s|
    requires forall k :: 0 <= k < at ==> IdLess(s[k].id, node.id)
    requires forall k :: at <= k < |s| ==> !IdLess(s[k].id, node.id)
    ensures SortedInsert(s, node) == s[..at] + [node] + s[at..]
  {
    hide Nearer, Prefix;
    if at > 0 {
      SortedInsertSplits(s[1..], node, at - 1);
      assert s[..at] == [s[0]] + s[1..][..at - 1];
    }
  }

  /** Inserting a new id keeps the order, adds exactly this node and keeps the others. */
  lemma {:induction false} SortedInsertKeepsOrder(s: seq<Node>, node: Node)
    requires Sorted(s) && !HasId(s, node.id)
    ensures Sorted(SortedInsert(s, node))
    ensures |SortedInsert(s, node)| == |s| + 1
    ensures forall n :: n in SortedInsert(s, node) <==> n == node || n in s
  {
    hide Nearer, Prefix;
    if s != [] && IdLess(s[0].id, node.id) {
      assert forall n :: n in s <==> n == s[0] || n in s[1..];
      SortedInsertKeepsOrder(s[1..], node);
      var r := SortedInsert(s[1..], node);
      forall k | 0 <= k < |r| ensures IdLess(s[0].id, r[k].id) {
        assert r[k] in r;
        if r[k] != node {
          var j :| 0 <= j < |s[1..]| && s[1..][j] == r[k];
          assert s[j + 1] == r[k];
        }
      }
    } else if s != [] {
      assert s[0] in s;
      NearerTotal(ZERO_ID, node.id, s[0].id);
      forall k | 0 < k < |s| ensures IdLess(node.id, s[k].id) {
        NearerTransitive(ZERO_ID, node.id, s[0].id, s[k].id);
      }
    }
  }

  lemma {:induction false} RemoveIdAbsent(s: seq<Node>, id: NodeId)
    requires forall k :: 0 <= k < |s| ==> s[k].id != id
    ensures RemoveId(s, id) == s
  {
    hide Nearer, Prefix;
    if s != [] {
      RemoveIdAbsent(s[1..], id);
    }
  }

  lemma {:induction false} RemoveIdAt(s: seq<Node>, id: NodeId, at: nat)
    requires at < |s| && s[at].id == id
    requires forall k :: 0 <= k < |s| && k != at ==> s[k].id != id
    ensures RemoveId(s, id) == s[..at] + s[at + 1..]
  {
    hide Nearer, Prefix;
    if at == 0 {
      RemoveIdAbsent(s[1..], id);
    } else {
      RemoveIdAt(s[1..], id, at - 1);
      assert s[..at] == [s[0]] + s[1..][..at - 1];
    }
  }

  /** Binary search in a bucket: the position of `id`, or the one at which it would be inserted. */
  method FindIndex(nodes: seq<Node>, id: NodeId) returns (lo: nat)
    requires Sorted(nodes)
    ensures lo <= |nodes|
    ensures forall k :: 0 <= k < lo ==> IdLess(nodes[k].id, id)
    ensures forall k :: lo <= k < |nodes| ==> !IdLess(nodes[k].id, id)
    ensures HasId(nodes, id) <==> lo < |nodes| && nodes[lo].id == id
    ensures forall k :: 0 <= k < |nodes| && k != lo ==> nodes[k].id != id
  {
    hide Nearer, Prefix;
    lo := 0;
    var hi := |nodes|;
    while lo < hi
      invariant lo <= hi <= |nodes|
      invariant forall k :: 0 <= k < lo ==> IdLess(nodes[k].id, id)
      invariant forall k :: hi <= k < |nodes| ==> !IdLess(nodes[k].id, id)
    {
      var mid := lo + (hi - lo) / 2;
      if IdLess(nodes[mid].id, id) {
        forall k | 0 <= k < mid ensures IdLess(nodes[k].id, id) {
          NearerTransitive(ZERO_ID, nodes[k].id, nodes[mid].id, id);
        }
        lo := mid + 1;
      } else {
        forall k | mid < k < |nodes| ensures !IdLess(nodes[k].id, id) {
          if IdLess(nodes[k].id, id) {
            NearerTransitive(ZERO_ID, nodes[mid].id, nodes[k].id, id);
          }
        }
        hi := mid;
      }
    }
    forall k | 0 <= k < |nodes| && k != lo ensures nodes[k].id != id {
      NearerTotal(ZERO_ID, id, id);
      if k > lo {
        assert IdLess(nodes[lo].id, nodes[k].id);
      }
    }
  }

  method BucketAdd(nodes: seq<Node>, node: Node) returns (r: seq<Node>, added: bool)
    requires Sorted(nodes)
    ensures added <==> !HasId(nodes, node.id) && |nodes| < K
    ensures r == if added then SortedInsert(nodes, node) else nodes
  {
    hide Nearer, Prefix;
    var idx := FindIndex(nodes, node.id);
    if idx < |nodes| && nodes[idx].id == node.id {
      return nodes, false;
    }
    if |nodes| >= K {
      return nodes, false;
    }
    SortedInsertSplits(nodes, node, idx);
    r, added := nodes[..idx] + [node] + nodes[idx..], true;
  }

  method BucketRemove(nodes: seq<Node>, id: NodeId) returns (r: seq<Node>, removed: bool)
    requires Sorted(nodes)
    ensures removed <==> HasId(nodes, id)
    ensures r == RemoveId(nodes, id) && Sorted(r)
    ensures |r| == |nodes| - (if removed then 1 else 0)
  {
    hide Nearer, Prefix;
    var idx := FindIndex(nodes, id);
    if idx < |nodes| && nodes[idx].id == id {
      RemoveIdAt(nodes, id, idx);
      return nodes[..idx] + nodes[idx + 1..], true;
    }
    RemoveIdAbsent(nodes, id);
    r, removed := nodes, false;
  }

  method BucketGet(nodes: seq<Node>, id: NodeId) returns (r: Option<Node>)
    requires Sorted(nodes)
    ensures r.Some? <==> HasId(nodes, id)
    ensures r.Some? ==> r.value in nodes && r.value.id == id
  {
    hide Nearer, Prefix;
    var idx := FindIndex(nodes, id);
    if idx < |nodes| && nodes[idx].id == id {
      return Some(nodes[idx]);
    }
    r := None;
  }

  // ------------------------------------------------------------------------------------------
  // The table as a value: the contents of its buckets, in bucket order
  // ------------------------------------------------------------------------------------------

  type View = seq<seq<Node>>

  function Total(v: View): nat {
    if v == [] then 0 else Total(v[..|v| - 1]) + |v[|v| - 1]|
  }

  ghost predicate BucketOk(id: NodeId, b: nat, s: seq<Node>) {
    && Sorted(s)
    && |s| <= K
    && forall n :: n in s ==> Prefix(id, n.id) == b
  }

  ghost predicate TableOk(id: NodeId, v: View) {
    |v| == ID_BITS && forall b :: 0 <= b < ID_BITS ==> BucketOk(id, b, v[b])
  }

  ghost predicate Stored(v: View, n: Node) {
    exists b :: 0 <= b < |v| && n in v[b]
  }

  lemma TotalUpdate(v: View, b: nat, s: seq<Node>)
    requires b < |v|
    ensures Total(v[b := s]) == Total(v) - |v[b]| + |s|
  {
    hide Nearer, Prefix;
    var w := v[b := s];
    if b == |v| - 1 {
      assert w[..|v| - 1] == v[..|v| - 1];
    } else {
      TotalUpdate(v[..|v| - 1], b, s);
      assert w[..|v| - 1] == v[..|v| - 1][b := s];
    }
  }

  lemma BucketOfTable(id: NodeId, v: View, b: nat)
    requires TableOk(id, v) && b < ID_BITS
    ensures Sorted(v[b]) && |v[b]| <= K && BucketOk(id, b, v[b])
    ensures forall c, n :: 0 <= c < ID_BITS && n in v[c] && Prefix(id, n.id) == b ==> c == b
  {
    assert BucketOk(id, b, v[b]);
  }

  lemma BucketOkInsert(id: NodeId, s: seq<Node>, node: Node)
    requires BucketOk(id, Prefix(id, node.id), s) && |s| < K && !HasId(s, node.id)
    ensures BucketOk(id, Prefix(id, node.id), SortedInsert(s, node))
    ensures |SortedInsert(s, node)| == |s| + 1
  {
    hide Nearer, Prefix;
    SortedInsertKeepsOrder(s, node);
  }

  lemma BucketOkRemove(id: NodeId, b: nat, s: seq<Node>, x: NodeId)
    requires BucketOk(id, b, s) && Sorted(RemoveId(s, x))
    ensures BucketOk(id, b, RemoveId(s, x))
  {
    hide Nearer, Prefix;
    RemoveIdKeeps(s, x);
  }

  lemma TableOkUpdate(id: NodeId, v: View, b: nat, s: seq<Node>)
    requires TableOk(id, v) && b < ID_BITS && BucketOk(id, b, s)
    ensures TableOk(id, v[b := s])
    ensures Total(v[b := s]) == Total(v) - |v[b]| + |s|
    ensures Total(v) >= |v[b]|
  {
    TotalUpdate(v, b, s);
    TotalAtLeast(v, b);
  }

  lemma EmptyTable(id: NodeId, v: View)
    requires |v| == ID_BITS && forall b :: 0 <= b < |v| ==> v[b] == []
    ensures TableOk(id, v) && Total(v) == 0
  {
    TotalEmpty(v);
  }

  lemma TotalEmpty(v: View)
    requires forall b :: 0 <= b < |v| ==> v[b] == []
    ensures Total(v) == 0
  {
  }

  // ------------------------------------------------------------------------------------------
  // closest(): visiting order and visit zones
  // ------------------------------------------------------------------------------------------

  function Take(s: seq<Node>, n: nat): seq<Node> {
    if n <= |s| then s[..n] else s
  }

  /** The buckets d, d + 1, ..., hi - 1, one after the other. */
  function Up(v: View, d: nat, hi: nat): seq<Node>
    requires d <= hi <= |v|
    decreases hi
  {
    if hi == d then [] else Up(v, d, hi - 1) + v[hi - 1]
  }

  /** The buckets below d, from d - 1 down to lo. */
  function Down(v: View, lo: nat, d: nat): seq<Node>
    requires lo <= d <= |v|
    decreases d - lo
  {
    if lo == d then [] else Down(v, lo + 1, d) + v[lo]
  }

  /** The order in which closest() visits the stored nodes. */
  function VisitOrder(v: View, d: nat): seq<Node>
    requires d <= |v|
  {
    Up(v, d, |v|) + Down(v, 0, d)
  }

  function InsertByDistance(t: NodeId, s: seq<Node>, n: Node): seq<Node> {
    if s != [] && Nearer(t, s[0].id, n.id) then [s[0]] + InsertByDistance(t, s[1..], n) else [n] + s
  }

  /** The library sort by XOR distance. */
  function SortByDistance(t: NodeId, s: seq<Node>): seq<Node> {
    if s == [] then [] else InsertByDistance(t, SortByDistance(t, s[1..]), s[0])
  }

  function TargetBucket(local: NodeId, target: NodeId): (d: nat)
    ensures d < ID_BITS
  {
    var d := Prefix(local, target);
    if d >= ID_BITS then ID_BITS - 1 else d
  }

  function Closest(local: NodeId, v: View, target: NodeId, count: nat): seq<Node>
    requires |v| == ID_BITS
  {
    SortByDistance(target, Take(VisitOrder(v, TargetBucket(local, target)), count))
  }

  /** The visit zone of a bucket: the target's bucket d, then all buckets beyond it together,
      then the buckets below it one by one. */
  function Zone(d: nat, b: nat): nat {
    if b == d then 0 else if b > d then 1 else d + 1 - b
  }

  function ZoneOf(local: NodeId, target: NodeId, n: Node): nat {
    Zone(TargetBucket(local, target), Prefix(local, n.id))
  }

  ghost predicate Ascending(t: NodeId, s: seq<Node>) {
    forall i, j :: 0 <= i < j < |s| ==> Nearer(t, s[i].id, s[j].id)
  }

  ghost predicate DistinctIds(s: seq<Node>) {
    forall i, j :: 0 <= i < j < |s| ==> s[i].id != s[j].id
  }

  /** Every node of an earlier zone is nearer to the target than every node of a later one. */
  lemma EarlierZoneIsNearer(local: NodeId, target: NodeId, x: Node, y: Node)
    requires x.id != local && y.id != local
    requires ZoneOf(local, target, x) < ZoneOf(local, target, y)
    ensures Nearer(target, x.id, y.id)
  {
    hide Nearer, Prefix;
    FullPrefixIffEqual(local, x.id);
    FullPrefixIffEqual(local, y.id);
    FullPrefixIffEqual(local, target);
    PrefixThroughLocal(local, target, x.id);
    PrefixThroughLocal(local, target, y.id);
    LongerPrefixIsNearer(target, x.id, y.id);
  }

  lemma {:induction false} InsertByDistanceSorts(t: NodeId, s: seq<Node>, n: Node)
    requires Ascending(t, s) && forall m :: m in s ==> m.id != n.id
    ensures Ascending(t, InsertByDistance(t, s, n))
    ensures multiset(InsertByDistance(t, s, n)) == multiset(s) + multiset{n}
  {
    hide Nearer, Prefix;
    if s != [] && Nearer(t, s[0].id, n.id) {
      assert s == [s[0]] + s[1..];
      InsertByDistanceSorts(t, s[1..], n);
      var r := InsertByDistance(t, s[1..], n);
      forall k | 0 <= k < |r| ensures Nearer(t, s[0].id, r[k].id) {
        assert r[k] in multiset(r);
        if r[k] != n {
          assert r[k] in s[1..];
        }
      }
    } else if s != [] {
      NearerTotal(t, s[0].id, n.id);
      forall k | 0 < k < |s| ensures Nearer(t, n.id, s[k].id) {
        NearerTransitive(t, n.id, s[0].id, s[k].id);
      }
    }
  }

  lemma {:induction false} SortByDistanceSorts(t: NodeId, s: seq<Node>)
    requires DistinctIds(s)
    ensures Ascending(t, SortByDistance(t, s))
    ensures multiset(SortByDistance(t, s)) == multiset(s)
  {
    hide Nearer, Prefix;
    if s != [] {
      assert s == [s[0]] + s[1..];
      SortByDistanceSorts(t, s[1..]);
      var r := SortByDistance(t, s[1..]);
      forall m | m in r ensures m.id != s[0].id {
        assert m in multiset(r);
        assert m in s[1..];
      }
      InsertByDistanceSorts(t, r, s[0]);
    }
  }

  /** Nodes of distinct ids, all from buckets in [lo, hi), listed zone after zone. */
  ghost predicate ZoneOrdered(local: NodeId, d: nat, s: seq<Node>, lo: nat, hi: nat) {
    && DistinctIds(s)
    && (forall n :: n in s ==> lo <= Prefix(local, n.id) < hi)
    && forall i, j :: 0 <= i < j < |s| ==> Zone(d, Prefix(local, s[i].id)) <= Zone(d, Prefix(local, s[j].id))
  }

  lemma SortedHasDistinctIds(s: seq<Node>)
    requires Sorted(s)
    ensures DistinctIds(s)
  {
    hide Nearer, Prefix;
    forall i, j | 0 <= i < j < |s| ensures s[i].id != s[j].id {
      NearerTotal(ZERO_ID, s[i].id, s[j].id);
    }
  }

  lemma {:induction false} UpwardZones(local: NodeId, v: View, d: nat, hi: nat)
    requires TableOk(local, v) && d <= hi <= ID_BITS
    ensures ZoneOrdered(local, d, Up(v, d, hi), d, hi)
    ensures |Up(v, d, hi)| == Total(v[d..hi])
    ensures forall n :: n in Up(v, d, hi) <==> exists b :: d <= b < hi && n in v[b]
    decreases hi
  {
    hide Nearer, Prefix;
    if hi > d {
      UpwardZones(local, v, d, hi - 1);
      assert v[d..hi][..hi - d - 1] == v[d..hi - 1];
      AppendZone(local, d, Up(v, d, hi - 1), d, hi - 1, v[hi - 1], hi - 1);
    }
  }

  /** Appending a bucket of a zone at least as late keeps the list ordered by zone. */
  lemma AppendZone(local: NodeId, d: nat, a: seq<Node>, lo: nat, hi: nat, c: seq<Node>, b: nat)
    requires ZoneOrdered(local, d, a, lo, hi) && BucketOk(local, b, c)
    requires lo <= hi && ((d == lo && b == hi) || (hi == d && b + 1 == lo))
    ensures ZoneOrdered(local, d, a + c, if b < lo then b else lo, if b < lo then hi else b + 1)
  {
    hide Nearer, Prefix;
    SortedHasDistinctIds(c);
    forall i, j | 0 <= i < j < |a + c|
      ensures (a + c)[i].id != (a + c)[j].id
      ensures Zone(d, Prefix(local, (a + c)[i].id)) <= Zone(d, Prefix(local, (a + c)[j].id))
    {
      assert (a + c)[i] in a || (a + c)[i] in c;
      if j >= |a| {
        assert (a + c)[j] in c;
      }
    }
  }

  lemma {:induction false} DownwardZones(local: NodeId, v: View, lo: nat, d: nat)
    requires TableOk(local, v) && lo <= d <= ID_BITS
    ensures ZoneOrdered(local, d, Down(v, lo, d), lo, d)
    ensures |Down(v, lo, d)| == Total(v[lo..d])
    ensures forall n :: n in Down(v, lo, d) <==> exists b :: lo <= b < d && n in v[b]
    decreases d - lo
  {
    hide Nearer, Prefix;
    if lo < d {
      DownwardZones(local, v, lo + 1, d);
      TotalSplitsFirst(v[lo..d]);
      assert v[lo..d][1..] == v[lo + 1..d];
      AppendZone(local, d, Down(v, lo + 1, d), lo + 1, d, v[lo], lo);
    }
  }

  lemma {:induction false} TotalSplitsFirst(v: View)
    requires v != []
    ensures Total(v) == |v[0]| + Total(v[1..])
    decreases |v|
  {
    hide Nearer, Prefix;
    if |v| > 1 {
      TotalSplitsFirst(v[..|v| - 1]);
      assert v[..|v| - 1][1..] == v[1..][..|v| - 2];
    }
  }

  lemma {:induction false} TotalSplits(v: View, d: nat)
    requires d <= |v|
    ensures Total(v) == Total(v[..d]) + Total(v[d..])
    decreases |v|
  {
    hide Nearer, Prefix;
    if d < |v| {
      TotalSplits(v[..|v| - 1], d);
      assert v[..|v| - 1][..d] == v[..d] && v[..|v| - 1][d..] == v[d..][..|v| - d - 1];
    } else {
      assert v[..d] == v;
    }
  }

  /** The visiting order lists every stored node once, zone after zone. */
  lemma VisitOrderIsComplete(local: NodeId, v: View, target: NodeId)
    requires TableOk(local, v)
    ensures var order := VisitOrder(v, TargetBucket(local, target));
            && |order| == Total(v)
            && DistinctIds(order)
            && (forall n :: n in order <==> Stored(v, n))
            && (forall n :: n in order ==> n.id != local)
            && forall i, j :: 0 <= i < j < |order| ==>
               ZoneOf(local, target, order[i]) <= ZoneOf(local, target, order[j])
  {
    hide Nearer, Prefix, BucketOk, Total;
    var d := TargetBucket(local, target);
    assert v[d..] == v[d..ID_BITS] && v[..d] == v[0..d];
    UpwardZones(local, v, d, ID_BITS);
    DownwardZones(local, v, 0, d);
    TotalSplits(v, d);
    var up: seq<Node>, down: seq<Node> := Up(v, d, ID_BITS), Down(v, 0, d);
    forall n | n in up + down ensures n.id != local {
      FullPrefixIffEqual(local, n.id);
    }
    forall i, j | 0 <= i < |up| && |up| <= j < |up + down|
      ensures (up + down)[i].id != (up + down)[j].id
      ensures ZoneOf(local, target, (up + down)[i]) <= ZoneOf(local, target, (up + down)[j])
    {
      assert (up + down)[i] in up && (up + down)[j] in down;
    }
  }

  lemma {:induction false} UpPosition(v: View, d: nat, hi: nat, b: nat, k: nat)
    requires d <= b < hi <= |v| && k < |v[b]|
    ensures Total(v[d..b]) + k < |Up(v, d, hi)| && Up(v, d, hi)[Total(v[d..b]) + k] == v[b][k]
    ensures |Up(v, d, hi)| == Total(v[d..hi])
    decreases hi
  {
    UpLength(v, d, hi - 1);
    assert v[d..hi][..hi - 1 - d] == v[d..hi - 1];
    if b < hi - 1 {
      UpPosition(v, d, hi - 1, b, k);
    }
  }

  lemma {:induction false} UpLength(v: View, d: nat, hi: nat)
    requires d <= hi <= |v|
    ensures |Up(v, d, hi)| == Total(v[d..hi])
    decreases hi
  {
    if d < hi {
      UpLength(v, d, hi - 1);
      assert v[d..hi][..hi - 1 - d] == v[d..hi - 1];
    }
  }

  lemma {:induction false} DownLength(v: View, lo: nat, d: nat)
    requires lo <= d <= |v|
    ensures |Down(v, lo, d)| == Total(v[lo..d])
    decreases d - lo
  {
    if lo < d {
      DownLength(v, lo + 1, d);
      TotalSplitsFirst(v[lo..d]);
      assert v[lo..d][1..] == v[lo + 1..d];
    }
  }

  lemma {:induction false} DownPosition(v: View, lo: nat, d: nat, b: nat, k: nat)
    requires lo <= b < d <= |v| && k < |v[b]|
    ensures Total(v[b + 1..d]) + k < |Down(v, lo, d)| && Down(v, lo, d)[Total(v[b + 1..d]) + k] == v[b][k]
    decreases d - lo
  {
    DownLength(v, lo + 1, d);
    if lo < b {
      DownPosition(v, lo + 1, d, b, k);
    }
  }

  /** Where closest() comes to each stored node: it starts with bucket d, goes on with the buckets beyond it in
      ascending order, and then takes those below it in descending order, each in the order in which it
      is stored. */
  lemma VisitPosition(v: View, d: nat, b: nat, k: nat)
    requires d <= |v| && b < |v| && k < |v[b]|
    ensures var at := if b >= d then Total(v[d..b]) else Total(v[d..]) + Total(v[b + 1..d]);
            at + k < |VisitOrder(v, d)| && VisitOrder(v, d)[at + k] == v[b][k]
  {
    UpLength(v, d, |v|);
    assert v[d..|v|] == v[d..];
    if b >= d {
      UpPosition(v, d, |v|, b, k);
    } else {
      DownPosition(v, 0, d, b, k);
    }
  }

  /** The result of closest() holds the first nodes of the visiting order, in ascending distance. */
  lemma ClosestTakesFront(local: NodeId, v: View, target: NodeId, count: nat, order: seq<Node>, n: nat)
    requires TableOk(local, v) && order == VisitOrder(v, TargetBucket(local, target))
    requires n == if count < |order| then count else |order|
    ensures var r := Closest(local, v, target, count);
            && |r| == n
            && Ascending(target, r)
            && (forall i :: 0 <= i < |order| ==> (order[i] in r <==> i < n))
            && forall x :: x in r ==> x in order[..n]
  {
    hide Nearer, Prefix;
    VisitOrderIsComplete(local, v, target);
    var taken, r := order[..n], Closest(local, v, target, count);
    assert taken == Take(order, count);
    SortByDistanceSorts(target, taken);
    assert |multiset(r)| == |multiset(taken)|;
    forall x ensures x in r <==> x in taken {
      assert x in multiset(r) <==> x in multiset(taken);
    }
    forall i | 0 <= i < |order| ensures order[i] in r <==> i < n {
      if i >= n {
        forall j | 0 <= j < n ensures taken[j].id != order[i].id {
          assert order[j].id != order[i].id;
        }
      } else {
        assert order[i] == taken[i];
      }
    }
  }

  /** What closest() guarantees on every table: min(count, size) stored nodes in strictly ascending
      distance, and a stored node that it leaves out although it is nearer than a returned one lies
      in the same visit zone as that one. */
  lemma ClosestByZones(local: NodeId, v: View, target: NodeId, count: nat)
    requires TableOk(local, v)
    ensures var r := Closest(local, v, target, count);
            && |r| == (if count < Total(v) then count else Total(v))
            && Ascending(target, r)
            && (forall x :: x in r ==> Stored(v, x))
            && (count >= Total(v) ==> forall y :: Stored(v, y) ==> y in r)
            && forall x, y :: x in r && Stored(v, y) && y !in r && Nearer(target, y.id, x.id) ==>
                 ZoneOf(local, target, x) == ZoneOf(local, target, y)
  {
    hide Nearer, Prefix, ZoneOf, VisitOrder, Closest, BucketOk, Total, DistinctIds, Ascending;
    var order := VisitOrder(v, TargetBucket(local, target));
    var n := if count < |order| then count else |order|;
    VisitOrderIsComplete(local, v, target);
    ClosestTakesFront(local, v, target, count, order, n);
    var r := Closest(local, v, target, count);
    forall x | x in r ensures Stored(v, x) {
      var i :| 0 <= i < n && order[..n][i] == x;
      assert order[i] == x;
    }
    forall y | Stored(v, y) && count >= Total(v) ensures y in r {
      var j :| 0 <= j < |order| && order[j] == y;
    }
    forall x, y | x in r && Stored(v, y) && y !in r && Nearer(target, y.id, x.id)
      ensures ZoneOf(local, target, x) == ZoneOf(local, target, y)
    {
      var i :| 0 <= i < n && order[i] == x;
      var j :| 0 <= j < |order| && order[j] == y;
      if ZoneOf(local, target, x) < ZoneOf(local, target, y) {
        EarlierZoneIsNearer(local, target, x, y);
        NearerTotal(target, x.id, y.id);
      }
    }
  }

  ghost predicate TrulyNearest(v: View, target: NodeId, r: seq<Node>) {
    forall x, y :: x in r && Stored(v, y) && y !in r ==> Nearer(target, x.id, y.id)
  }

  /** Inside the one zone that the cut of the visiting order runs through, every node before the cut
      is nearer than every node after it. */
  ghost predicate CutZoneIsSplitByDistance(local: NodeId, target: NodeId, order: seq<Node>, count: nat)
    requires count < |order|
  {
    forall i, j :: 0 <= i < count <= j < |order| &&
                   ZoneOf(local, target, order[i]) == ZoneOf(local, target, order[count]) ==
                     ZoneOf(local, target, order[j]) ==>
      Nearer(target, order[i].id, order[j].id)
  }

  lemma CutZone(local: NodeId, v: View, target: NodeId, order: seq<Node>, count: nat, i: nat, j: nat)
    requires TableOk(local, v) && order == VisitOrder(v, TargetBucket(local, target))
    requires i < count <= j < |order|
    ensures ZoneOf(local, target, order[i]) == ZoneOf(local, target, order[count]) == ZoneOf(local, target, order[j])
         || Nearer(target, order[i].id, order[j].id)
  {
    hide Nearer, Prefix, ZoneOf, VisitOrder;
    VisitOrderIsComplete(local, v, target);
    assert order[i] in order && order[j] in order;
    assert ZoneOf(local, target, order[i]) <= ZoneOf(local, target, order[count]);
    assert ZoneOf(local, target, order[count]) <= ZoneOf(local, target, order[j]);
    if ZoneOf(local, target, order[i]) < ZoneOf(local, target, order[j]) {
      EarlierZoneIsNearer(local, target, order[i], order[j]);
    }
  }

  /** When something is cut off, closest() returns the truly nearest nodes exactly when the cut zone
      is split by distance; in particular whenever the cut falls between two zones. */
  lemma ClosestIsTrueIffCutZoneIs(local: NodeId, v: View, target: NodeId, order: seq<Node>, count: nat)
    requires TableOk(local, v) && order == VisitOrder(v, TargetBucket(local, target)) && count < |order|
    ensures TrulyNearest(v, target, Closest(local, v, target, count)) <==>
            CutZoneIsSplitByDistance(local, target, order, count)
    ensures 0 < count && ZoneOf(local, target, order[count - 1]) < ZoneOf(local, target, order[count]) ==>
            CutZoneIsSplitByDistance(local, target, order, count)
  {
    hide Nearer, Prefix, ZoneOf, VisitOrder, Closest, BucketOk, Total, DistinctIds, Ascending;
    VisitOrderIsComplete(local, v, target);
    ClosestTakesFront(local, v, target, count, order, count);
    var r := Closest(local, v, target, count);
    forall i, j | TrulyNearest(v, target, r) && 0 <= i < count <= j < |order|
      ensures Nearer(target, order[i].id, order[j].id)
    {
      assert order[i] in r && order[j] in order && order[j] !in r;
    }
    forall x, y | CutZoneIsSplitByDistance(local, target, order, count) && x in r && Stored(v, y) && y !in r
      ensures Nearer(target, x.id, y.id)
    {
      var i :| 0 <= i < count && order[i] == x;
      var j :| 0 <= j < |order| && order[j] == y;
      CutZone(local, v, target, order, count, i, j);
    }
  }

  /** Two nodes of one bucket, alone in the table: asked for the single node closest to the larger id,
      closest() returns the other node, because a bucket is read in id order. */
  lemma ClosestMissesTheTarget(local: NodeId, x: Node, y: Node, v: View)
    requires Prefix(local, x.id) == Prefix(local, y.id) < ID_BITS && IdLess(x.id, y.id)
    requires v == seq(ID_BITS, b => if b == Prefix(local, y.id) then [x, y] else [])
    ensures TableOk(local, v)
    ensures Closest(local, v, y.id, 1) == [x] && Stored(v, y) && Nearer(y.id, y.id, x.id)
  {
    hide Prefix, Nearer;
    var d := Prefix(local, y.id);
    NearerTotal(ZERO_ID, x.id, y.id);
    NothingNearerThanItself(y.id, x.id);
    PairIsOk(local, x, y, v);
    hide TableOk;
    UpStart(v, d, ID_BITS);
    assert Take(VisitOrder(v, d), 1) == [x];
    assert SortByDistance(y.id, [x]) == InsertByDistance(y.id, SortByDistance(y.id, []), x) == [x];
  }

  lemma PairIsOk(local: NodeId, x: Node, y: Node, v: View)
    requires Prefix(local, x.id) == Prefix(local, y.id) < ID_BITS && IdLess(x.id, y.id)
    requires v == seq(ID_BITS, b => if b == Prefix(local, y.id) then [x, y] else [])
    ensures TableOk(local, v) && v[Prefix(local, y.id)] == [x, y]
  {
    hide Prefix, Nearer;
  }

  /** Such tables exist. */
  lemma TwoNodesOfOneBucketExist()
    ensures exists local: NodeId, a: NodeId, b: NodeId :: Prefix(local, a) == Prefix(local, b) < ID_BITS && IdLess(a, b)
  {
    var a: NodeId := ZERO_ID[0 := 0x80];
    var b: NodeId := a[1 := 0x01];
    PrefixOfExample(a, b);
    assert IdLess(a, b);
  }

  lemma PrefixOfExample(x: NodeId, y: NodeId)
    requires x == ZERO_ID[0 := 0x80] && y == ZERO_ID[0 := 0x80][1 := 0x01]
    ensures Prefix(ZERO_ID, x) == Prefix(ZERO_ID, y) == 0
    ensures Prefix(x, y) == 15 && !Bit(x, 15) && !Bit(ZERO_ID, 15)
  {
    assert ByteBit(0x80, 0) && !ByteBit(0, 0) && !ByteBit(0, 7) && ByteBit(0x01, 7);
    PrefixIs(ZERO_ID, x, 0);
    PrefixIs(ZERO_ID, y, 0);
    forall j | 0 <= j < 15 ensures Bit(x, j) == Bit(y, j) {
      if j >= 8 {
        LowBits(j % 8);
      }
    }
    PrefixIs(x, y, 15);
  }

  lemma LowBits(j: nat)
    requires j < 7
    ensures ByteBit(0x01, j) == ByteBit(0, j) == false
  {
  }

  lemma {:induction false} UpStart(v: View, d: nat, hi: nat)
    requires d < hi <= |v|
    ensures v[d] <= Up(v, d, hi)
    decreases hi
  {
    if d + 1 < hi {
      UpStart(v, d, hi - 1);
    }
  }

  /** With enough room nothing is left out. */
  lemma ClosestOfAll(local: NodeId, v: View, target: NodeId, count: nat)
    requires TableOk(local, v) && count >= Total(v)
    ensures TrulyNearest(v, target, Closest(local, v, target, count))
  {
    hide Nearer, Prefix, ZoneOf, VisitOrder, Closest, BucketOk, Total, DistinctIds, Ascending;
    ClosestByZones(local, v, target, count);
  }

  // ------------------------------------------------------------------------------------------
  // The table
  // ------------------------------------------------------------------------------------------

  class Table {
    var id: NodeId
    const buckets: array<seq<Node>>
    var size: nat
    var hasOnFull: bool
    /** The calls made to the bucket-full callback, in order. */
    var fullCalls: seq<(nat, Node)>

    ghost predicate Valid()
      reads this, buckets
    {
      TableOk(id, buckets[..]) && size == Total(buckets[..])
    }

    constructor (localId: NodeId)
      ensures Valid() && id == localId && size == 0 && fullCalls == [] && !hasOnFull && fresh(buckets)
      ensures |buckets[..]| == ID_BITS && forall b :: 0 <= b < ID_BITS ==> buckets[..][b] == []
    {
      id, size, hasOnFull, fullCalls := localId, 0, false, [];
      buckets := new seq<Node>[ID_BITS](_ => []);
      new;
      EmptyTable(id, buckets[..]);
    }

    method Add(node: Node) returns (added: bool)
      requires Valid()
      modifies this, buckets
      ensures Valid() && id == old(id) && hasOnFull == old(hasOnFull)
      ensures var v, b := old(buckets[..]), Prefix(id, node.id);
              && (added <==> node.id != id && b < ID_BITS && !HasId(v[b], node.id) && |v[b]| < K)
              && buckets[..] == (if added then v[b := SortedInsert(v[b], node)] else v)
              && fullCalls == old(fullCalls) + (if node.id != id && !added && hasOnFull then [(b, node)] else [])
      ensures var v, b := old(buckets[..]), Prefix(id, node.id);
              node.id != id ==>
                b < ID_BITS && (fullCalls != old(fullCalls) && |v[b]| < K <==>
                                hasOnFull && HasId(v[b], node.id) && |v[b]| < K)
    {
      hide Nearer, Prefix, Sorted;
      FullPrefixIffEqual(id, node.id);
      if node.id == id {
        return false;
      }
      var idx := BucketIndex(id, node.id);
      if idx >= ID_BITS {
        return false;
      }
      ghost var v := buckets[..];
      BucketOfTable(id, v, idx);
      var nodes;
      nodes, added := BucketAdd(buckets[idx], node);
      buckets[idx] := nodes;
      assert buckets[..] == v[idx := nodes];
      assert !added ==> buckets[..] == v;
      if added {
        BucketOkInsert(id, v[idx], node);
        TableOkUpdate(id, v, idx, nodes);
        size := size + 1;
        return true;
      }
      if hasOnFull {
        fullCalls := fullCalls + [(idx, node)];
      }
    }

    method Remove(nodeId: NodeId) returns (removed: bool)
      requires Valid()
      modifies this, buckets
      ensures Valid() && id == old(id) && hasOnFull == old(hasOnFull) && fullCalls == old(fullCalls)
      ensures var v, b := old(buckets[..]), Prefix(id, nodeId);
              && (removed <==> b < ID_BITS && HasId(v[b], nodeId))
              && buckets[..] == (if b < ID_BITS then v[b := RemoveId(v[b], nodeId)] else v)
    {
      hide Nearer, Prefix, Sorted;
      var idx := BucketIndex(id, nodeId);
      if idx >= ID_BITS {
        return false;
      }
      ghost var v := buckets[..];
      BucketOfTable(id, v, idx);
      var nodes;
      nodes, removed := BucketRemove(buckets[idx], nodeId);
      BucketOkRemove(id, idx, v[idx], nodeId);
      TableOkUpdate(id, v, idx, nodes);
      buckets[idx] := nodes;
      assert buckets[..] == v[idx := nodes];
      if removed {
        size := size - 1;
      }
    }

    /** An id is found exactly when some bucket stores it. */
    method Get(nodeId: NodeId) returns (r: Option<Node>)
      requires Valid()
      ensures r.Some? <==> exists n :: Stored(buckets[..], n) && n.id == nodeId
      ensures r.Some? ==> Stored(buckets[..], r.value) && r.value.id == nodeId
    {
      hide Nearer, Prefix, Sorted;
      var idx := BucketIndex(id, nodeId);
      if idx >= ID_BITS {
        return None;
      }
      BucketOfTable(id, buckets[..], idx);
      r := BucketGet(buckets[idx], nodeId);
      assert r.Some? ==> r.value in buckets[..][idx];
    }

    method CollectFrom(b: nat, count: nat, result: seq<Node>) returns (r: seq<Node>)
      requires Valid() && b < ID_BITS && |result| <= count
      ensures r == Take(result + buckets[b], count)
    {
      r := result;
      var nodes := buckets[b];
      var k := 0;
      while k < |nodes|
        invariant k <= |nodes| && |r| <= count && r == result + nodes[..k]
      {
        if |r| >= count {
          assert (result + nodes)[..count] == r;
          return;
        }
        assert nodes[..k + 1] == nodes[..k] + [nodes[k]];
        r := r + [nodes[k]];
        k := k + 1;
      }
      assert nodes[..k] == nodes && (result + nodes)[..|r|] == r;
    }

    method CollectUp(d: nat, count: nat) returns (r: seq<Node>)
      requires Valid() && d <= ID_BITS
      ensures r == Take(Up(buckets[..], d, ID_BITS), count)
    {
      ghost var v := buckets[..];
      assert |v| == ID_BITS && Up(v, d, d) == [];
      hide TableOk, Total, Up;
      r := [];
      var i: nat := d;
      while i < ID_BITS && |r| < count
        invariant d <= i <= ID_BITS && r == Take(Up(v, d, i), count)
      {
        OneBucketUp(v, d, i, count);
        r := CollectFrom(i, count, r);
        i := i + 1;
      }
      UpIsEnough(v, d, i, count);
    }

    method CollectDown(d: nat, count: nat, first: seq<Node>) returns (r: seq<Node>)
      requires Valid() && d <= ID_BITS && |first| <= count
      ensures r == Take(first + Down(buckets[..], 0, d), count)
    {
      ghost var v := buckets[..];
      assert |v| == ID_BITS;
      assert first + Down(v, d, d) == first;
      hide TableOk, Total, Down;
      r := first;
      var i: nat := d;
      while i > 0 && |r| < count
        invariant i <= d && r == Take(first + Down(v, i, d), count)
      {
        i := i - 1;
        OneBucketDown(v, i, d, first, count);
        r := CollectFrom(i, count, r);
      }
      DownIsEnough(v, i, d, first, count);
    }

    /** Start with bucket d and the buckets beyond it, then take the ones below it. */
    method ClosestNodes(target: NodeId, count: nat) returns (r: seq<Node>)
      requires Valid()
      ensures r == Closest(id, buckets[..], target, count)
    {
      var d := BucketIndex(id, target);
      if d >= ID_BITS {
        d := ID_BITS - 1;
      }
      r := CollectUp(d, count);
      TakeMore(Up(buckets[..], d, ID_BITS), Down(buckets[..], 0, d), count);
      r := CollectDown(d, count, r);
      r := SortByDistance(target, r);
    }

    method Snapshot() returns (allNodes: seq<Node>)
      requires Valid()
      ensures allNodes == Up(buckets[..], 0, ID_BITS)
    {
      hide Nearer, Prefix, Sorted, BucketOk;
      allNodes := [];
      var i := 0;
      while i < ID_BITS
        invariant i <= ID_BITS && allNodes == Up(buckets[..], 0, i)
      {
        allNodes := allNodes + buckets[i];
        i := i + 1;
      }
    }

    method ReAdd(allNodes: seq<Node>)
      requires Valid() && !hasOnFull && DistinctIds(allNodes)
      requires forall b :: 0 <= b < ID_BITS ==> buckets[b] == []
      modifies this, buckets
      ensures Valid() && id == old(id) && !hasOnFull && fullCalls == old(fullCalls)
      ensures Refilled(buckets[..], allNodes, id)
    {
      assert buckets.Length == |buckets[..]| == ID_BITS;
      NothingRefilled(buckets[..], id);
      assert allNodes[..0] == [];
      hide Nearer, Prefix, TableOk, Total, DistinctIds, Refilled, SortedInsert;
      var i := 0;
      while i < |allNodes|
        invariant i <= |allNodes|
        invariant Valid() && id == old(id) && !hasOnFull && fullCalls == old(fullCalls)
        invariant Refilled(buckets[..], allNodes[..i], id)
      {
        ReAddOne(allNodes, i);
        i := i + 1;
      }
      assert allNodes[..i] == allNodes;
    }

    method ReAddOne(allNodes: seq<Node>, i: nat)
      requires Valid() && !hasOnFull && DistinctIds(allNodes) && i < |allNodes|
      requires Refilled(buckets[..], allNodes[..i], id)
      modifies this, buckets
      ensures Valid() && id == old(id) && !hasOnFull && fullCalls == old(fullCalls)
      ensures Refilled(buckets[..], allNodes[..i + 1], id)
    {
      assert buckets.Length == |buckets[..]| == ID_BITS;
      hide Nearer, Prefix, TableOk, Total, DistinctIds, Refilled, SortedInsert;
      ghost var before := buckets[..];
      var added := Add(allNodes[i]);
      RefilledStep(before, allNodes, i, id, added, buckets[..]);
    }

    /** Every node is re-added under the new id, with the callback suppressed meanwhile. Of the
        old nodes that belong into a new bucket the first K stay, in the order of the old buckets. */
    method RebuildWithId(newId: NodeId)
      requires Valid()
      modifies this, buckets
      ensures Valid() && id == newId && hasOnFull == old(hasOnFull) && fullCalls == old(fullCalls)
      ensures Refilled(buckets[..], Up(old(buckets[..]), 0, ID_BITS), newId)
    {
      hide Nearer, Prefix, Sorted;
      var allNodes := Snapshot();
      UpwardZones(id, buckets[..], 0, ID_BITS);
      forall b | 0 <= b < ID_BITS {
        buckets[b] := [];
      }
      size := 0;
      id := newId;
      EmptyTable(id, buckets[..]);
      var savedOnFull := hasOnFull;
      hasOnFull := false;
      ReAdd(allNodes);
      hasOnFull := savedOnFull;
    }
  }

  /** The callback for a full bucket is made for a bucket of one node, to which that node is added again. */
  method FullWithOneNode(id: NodeId, node: Node) returns (table: Table)
    requires node.id != id
    ensures var b := Prefix(id, node.id);
            && fresh(table) && table.Valid() && b < |table.buckets[..]| && table.buckets[..][b] == [node]
            && 1 < K && table.fullCalls == [(b, node)]
  {
    hide Nearer, Prefix, Sorted, TableOk, Total;
    FullPrefixIffEqual(id, node.id);
    table := new Table(id);
    table.hasOnFull := true;
    var first := table.Add(node);
    assert SortedInsert([], node) == [node] && HasId([node], node.id) by {
      assert node in [node];
    }
    var second := table.Add(node);
  }

  /** Each bucket holds exactly the first K nodes of s that belong into it, all of them if there are fewer. */
  ghost predicate Refilled(v: View, s: seq<Node>, id: NodeId) {
    forall b :: 0 <= b < |v| ==> Holds(v[b], Mapped(s, id, b))
  }

  ghost predicate Holds(bucket: seq<Node>, candidates: seq<Node>) {
    |bucket| == MinK(|candidates|) && forall n :: n in bucket <==> n in Take(candidates, K)
  }

  lemma NothingRefilled(v: View, id: NodeId)
    requires forall b :: 0 <= b < |v| ==> v[b] == []
    ensures Refilled(v, [], id)
  {
  }

  lemma {:induction false} MappedAreOld(s: seq<Node>, id: NodeId, b: nat)
    ensures forall n :: n in Mapped(s, id, b) ==> n in s && n.id != id && Prefix(id, n.id) == b
  {
    if s != [] {
      MappedAreOld(s[1..], id, b);
    }
  }

  /** One more candidate goes in exactly while there is room. */
  lemma HoldsMore(bucket: seq<Node>, candidates: seq<Node>, node: Node)
    requires Holds(bucket, candidates) && Sorted(bucket) && !HasId(bucket, node.id)
    ensures |bucket| < K ==> Holds(SortedInsert(bucket, node), candidates + [node])
    ensures |bucket| >= K ==> Holds(bucket, candidates + [node])
  {
    hide Nearer, Prefix, SortedInsert;
    SortedInsertKeepsOrder(bucket, node);
    if |bucket| < K {
      assert Take(candidates, K) == candidates && Take(candidates + [node], K) == candidates + [node];
    } else {
      assert Take(candidates + [node], K) == Take(candidates, K);
    }
  }

  lemma RefilledStep(v: View, all: seq<Node>, i: nat, id: NodeId, added: bool, w: View)
    requires TableOk(id, v) && i < |all| && DistinctIds(all) && Refilled(v, all[..i], id)
    requires var node := all[i];
             var b := Prefix(id, node.id);
             && (added <==> node.id != id && b < ID_BITS && !HasId(v[b], node.id) && |v[b]| < K)
             && w == if added then v[b := SortedInsert(v[b], node)] else v
    ensures Refilled(w, all[..i + 1], id)
  {
    hide Nearer, Prefix, Sorted, Mapped, SortedInsert;
    var node := all[i];
    var home := Prefix(id, node.id);
    FullPrefixIffEqual(id, node.id);
    assert all[..i + 1] == all[..i] + [node];
    if home < ID_BITS {
      MappedAreOld(all[..i], id, home);
      forall n | n in v[home] ensures n.id != node.id {
        var j :| 0 <= j < i && all[..i][j] == n;
        assert all[j] == n;
      }
      assert BucketOk(id, home, v[home]);
      SortedInsertKeepsOrder(v[home], node);
    }
    forall b | 0 <= b < ID_BITS ensures Holds(w[b], Mapped(all[..i + 1], id, b)) {
      MappedAppend(all[..i], node, id, b);
      assert Mapped(all[..i], id, b) + [] == Mapped(all[..i], id, b);
      if b == home && node.id != id {
        HoldsMore(v[b], Mapped(all[..i], id, b), node);
      }
    }
  }

  // ------------------------------------------------------------------------------------------
  // Auxiliary facts
  // ------------------------------------------------------------------------------------------

  function MinK(n: nat): nat {
    if n < K then n else K
  }

  /** The nodes, other than the table's own id, that belong into bucket b under id. */
  function Mapped(s: seq<Node>, id: NodeId, b: nat): seq<Node> {
    if s == [] then []
    else (if s[0].id != id && Prefix(id, s[0].id) == b then [s[0]] else []) + Mapped(s[1..], id, b)
  }

  lemma {:induction false} MappedAppend(s: seq<Node>, n: Node, id: NodeId, b: nat)
    ensures Mapped(s + [n], id, b) == Mapped(s, id, b) + (if n.id != id && Prefix(id, n.id) == b then [n] else [])
  {
    hide Nearer, Prefix, Sorted;
    if s != [] {
      MappedAppend(s[1..], n, id, b);
      assert (s + [n])[1..] == s[1..] + [n];
    } else {
      assert s + [n] == [n];
    }
  }

  lemma {:induction false} RemoveIdKeeps(s: seq<Node>, id: NodeId)
    ensures |RemoveId(s, id)| <= |s|
    ensures forall n :: n in RemoveId(s, id) <==> n in s && n.id != id
  {
    hide Nearer, Prefix, Sorted;
    if s != [] {
      assert forall n :: n in s <==> n == s[0] || n in s[1..];
      RemoveIdKeeps(s[1..], id);
    }
  }

  lemma TotalAtLeast(v: View, b: nat)
    requires b < |v|
    ensures Total(v) >= |v[b]|
  {
    hide Nearer, Prefix, Sorted;
    if b < |v| - 1 {
      TotalAtLeast(v[..|v| - 1], b);
    }
  }

  lemma TakeMore(a: seq<Node>, b: seq<Node>, count: nat)
    ensures Take(Take(a, count) + b, count) == Take(a + b, count)
  {
  }

  lemma OneBucketUp(v: View, d: nat, i: nat, count: nat)
    requires d <= i < |v|
    ensures Take(Take(Up(v, d, i), count) + v[i], count) == Take(Up(v, d, i + 1), count)
  {
    hide Take;
    TakeMore(Up(v, d, i), v[i], count);
  }

  lemma UpIsEnough(v: View, d: nat, i: nat, count: nat)
    requires d <= i <= |v| && (i == |v| || |Take(Up(v, d, i), count)| >= count)
    ensures Take(Up(v, d, i), count) == Take(Up(v, d, |v|), count)
  {
    UpPrefix(v, d, i);
  }

  lemma OneBucketDown(v: View, i: nat, d: nat, first: seq<Node>, count: nat)
    requires i < d <= |v|
    ensures Take(Take(first + Down(v, i + 1, d), count) + v[i], count) == Take(first + Down(v, i, d), count)
  {
    hide Take;
    TakeMore(first + Down(v, i + 1, d), v[i], count);
    assert first + Down(v, i + 1, d) + v[i] == first + Down(v, i, d);
  }

  lemma DownIsEnough(v: View, i: nat, d: nat, first: seq<Node>, count: nat)
    requires i <= d <= |v| && |first| <= count && (i == 0 || |Take(first + Down(v, i, d), count)| >= count)
    ensures Take(first + Down(v, i, d), count) == Take(first + Down(v, 0, d), count)
  {
    hide Down;
    DownPrefix(v, 0, i, d);
  }

  lemma {:induction false} UpPrefix(v: View, d: nat, i: nat)
    requires d <= i <= |v|
    ensures Up(v, d, i) <= Up(v, d, |v|)
    decreases |v| - i
  {
    if i < |v| {
      UpPrefix(v, d, i + 1);
    }
  }

  lemma {:induction false} DownPrefix(v: View, lo: nat, mid: nat, d: nat)
    requires lo <= mid <= d <= |v|
    ensures Down(v, mid, d) <= Down(v, lo, d)
    decreases mid - lo
  {
    hide Nearer, Prefix, Sorted;
    if lo < mid {
      DownPrefix(v, lo + 1, mid, d);
    }
  }
}
