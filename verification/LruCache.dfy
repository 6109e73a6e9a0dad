/** The LRU cache (include/hyperdht/lru_cache.hpp:26-84): a list of entries, newest use first, and a map
    from keys to list nodes that have to agree. */
module LruCache {
  import opened Wrappers

  /** A list node. Its number stands for the iterator kept in the map. */
  datatype Entry<K, V> = Entry(node: nat, key: K, value: V, createdAt: nat)

  ghost predicate DistinctKeys<K, V>(s: seq<Entry<K, V>>) {
    forall i, j :: 0 <= i < j < |s| ==> s[i].key != s[j].key
  }

  /** The map holds exactly the keys of the list, each with its node. */
  ghost predicate Agree<K, V>(s: seq<Entry<K, V>>, index: map<K, nat>) {
    && (forall e :: e in s ==> e.key in index && index[e.key] == e.node)
    && (forall k :: k in index ==> HasKey(s, k))
  }

  ghost predicate HasKey<K, V>(s: seq<Entry<K, V>>, k: K) {
    exists e :: e in s && e.key == k
  }

  ghost predicate DistinctNodes<K, V>(s: seq<Entry<K, V>>, next: nat) {
    (forall e :: e in s ==> e.node < next) && (forall i, j :: 0 <= i < j < |s| ==> s[i].node != s[j].node)
  }

  /** The list is ordered by the time of last use, latest first. */
  ghost predicate Recent<K, V>(s: seq<Entry<K, V>>, lastUse: map<K, nat>, clock: nat) {
    && (forall e :: e in s ==> e.key in lastUse && lastUse[e.key] < clock)
    && (forall i, j :: 0 <= i < j < |s| ==> lastUse[s[i].key] > lastUse[s[j].key])
  }

  ghost predicate ListOk<K, V>(s: seq<Entry<K, V>>, index: map<K, nat>, next: nat, lastUse: map<K, nat>, clock: nat) {
    DistinctKeys(s) && DistinctNodes(s, next) && Agree(s, index) && Recent(s, lastUse, clock)
  }

  /** The list without the entry of a key. */
  function Without<K(==), V>(s: seq<Entry<K, V>>, k: K): seq<Entry<K, V>> {
    if s == [] then [] else if s[0].key == k then s[1..] else [s[0]] + Without(s[1..], k)
  }

  function Position<K, V>(s: seq<Entry<K, V>>, node: nat): (i: nat)
    ensures i <= |s|
    ensures i < |s| ==> s[i].node == node
    ensures forall j :: 0 <= j < i ==> s[j].node != node
  {
    if s == [] || s[0].node == node then 0 else 1 + Position(s[1..], node)
  }

  predicate Expired<K, V>(e: Entry<K, V>, now: nat, maxAge: nat) {
    now >= e.createdAt && now - e.createdAt > maxAge
  }

  /** The entries that have not expired, in their order. */
  function Fresh<K, V>(s: seq<Entry<K, V>>, now: nat, maxAge: nat): seq<Entry<K, V>> {
    if s == [] then []
    else Fresh(s[..|s| - 1], now, maxAge) + (if Expired(s[|s| - 1], now, maxAge) then [] else [s[|s| - 1]])
  }

  lemma {:induction false} FreshIs<K, V>(s: seq<Entry<K, V>>, now: nat, maxAge: nat)
    ensures forall e :: e in Fresh(s, now, maxAge) <==> e in s && now <= e.createdAt + maxAge
  {
    if s != [] {
      FreshIs(s[..|s| - 1], now, maxAge);
      assert s == s[..|s| - 1] + [s[|s| - 1]];
    }
  }

  /** Those that have not expired keep their order. */
  lemma {:induction false} FreshInOrder<K, V>(s: seq<Entry<K, V>>, t: seq<Entry<K, V>>, now: nat, maxAge: nat)
    ensures Fresh(s + t, now, maxAge) == Fresh(s, now, maxAge) + Fresh(t, now, maxAge)
  {
    if t == [] {
      assert s + t == s;
    } else {
      FreshInOrder(s, t[..|t| - 1], now, maxAge);
      assert (s + t)[..|s + t| - 1] == s + t[..|t| - 1];
    }
  }

  lemma CutAt<T>(s: seq<T>, i: nat, r: seq<T>)
    requires i < |s| && r == s[..i] + s[i + 1..]
    ensures |r| == |s| - 1
    ensures forall j :: 0 <= j < |r| ==> r[j] == if j < i then s[j] else s[j + 1]
    ensures forall j :: 0 <= j < |s| && j != i ==> s[j] in r
  {
    forall j | 0 <= j < |s| && j != i ensures s[j] in r {
      assert s[j] == r[if j < i then j else j - 1];
    }
  }

  lemma RemoveKeepsAgreement<K, V>(s: seq<Entry<K, V>>, index: map<K, nat>, i: nat, r: seq<Entry<K, V>>)
    requires DistinctKeys(s) && Agree(s, index) && i < |s| && r == s[..i] + s[i + 1..]
    ensures Agree(r, index - {s[i].key})
  {
    CutAt(s, i, r);
    forall k | k in index && k != s[i].key ensures HasKey(r, k) {
      var e :| e in s && e.key == k;
      var j :| 0 <= j < |s| && s[j] == e;
    }
    forall e | e in r ensures e in s && e.key != s[i].key {
      var j :| 0 <= j < |r| && r[j] == e;
    }
  }

  /** Removing one position keeps everything in step. */
  lemma RemoveKeepsList<K, V>(s: seq<Entry<K, V>>, index: map<K, nat>, next: nat, lastUse: map<K, nat>, clock: nat,
                              i: nat)
    requires ListOk(s, index, next, lastUse, clock) && i < |s|
    ensures ListOk(s[..i] + s[i + 1..], index - {s[i].key}, next, lastUse, clock)
  {
    hide Agree;
    var r := s[..i] + s[i + 1..];
    RemoveKeepsAgreement(s, index, i, r);
    CutAt(s, i, r);
    forall e | e in r ensures e in s {
      var j :| 0 <= j < |r| && r[j] == e;
    }
  }

  lemma LastIsOldest<K, V>(s: seq<Entry<K, V>>, index: map<K, nat>, next: nat, lastUse: map<K, nat>, clock: nat)
    requires ListOk(s, index, next, lastUse, clock) && s != []
    ensures forall e :: e in s[..|s| - 1] ==> e.key in lastUse && lastUse[e.key] > lastUse[s[|s| - 1].key]
    ensures s[|s| - 1].key in index && s[|s| - 1].key in lastUse
  {
    assert s[|s| - 1] in s;
  }

  lemma FrontKeepsList<K, V>(s: seq<Entry<K, V>>, index: map<K, nat>, next: nat, lastUse: map<K, nat>, clock: nat,
                             e: Entry<K, V>)
    requires ListOk(s, index, next, lastUse, clock) && e.key !in index
    requires e.node < next && forall x :: x in s ==> x.node != e.node
    ensures ListOk([e] + s, index[e.key := e.node], next, lastUse[e.key := clock], clock + 1)
  {
    assert forall x :: x in s ==> x.key != e.key;
    FrontIsDistinct(s, e, next);
    FrontAgrees(s, index, e);
    FrontIsRecent(s, lastUse, clock, e);
  }

  lemma FrontIsDistinct<K, V>(s: seq<Entry<K, V>>, e: Entry<K, V>, next: nat)
    requires DistinctKeys(s) && DistinctNodes(s, next) && e.node < next
    requires forall x :: x in s ==> x.key != e.key && x.node != e.node
    ensures DistinctKeys([e] + s) && DistinctNodes([e] + s, next)
  {
    assert forall i :: 0 <= i < |s| ==> s[i] in s;
  }

  lemma FrontAgrees<K, V>(s: seq<Entry<K, V>>, index: map<K, nat>, e: Entry<K, V>)
    requires Agree(s, index) && e.key !in index
    ensures Agree([e] + s, index[e.key := e.node])
  {
    assert e in [e] + s;
    forall k | k in index[e.key := e.node] ensures HasKey([e] + s, k) {
      if k != e.key {
        var x :| x in s && x.key == k;
        assert x in [e] + s;
      }
    }
  }

  lemma FrontIsRecent<K, V>(s: seq<Entry<K, V>>, lastUse: map<K, nat>, clock: nat, e: Entry<K, V>)
    requires Recent(s, lastUse, clock) && forall x :: x in s ==> x.key != e.key
    ensures Recent([e] + s, lastUse[e.key := clock], clock + 1)
  {
    assert forall i :: 0 <= i < |s| ==> s[i] in s;
  }

  lemma {:induction false} WithoutIs<K, V>(s: seq<Entry<K, V>>, i: nat)
    requires DistinctKeys(s) && i < |s|
    ensures Without(s, s[i].key) == s[..i] + s[i + 1..]
  {
    if i > 0 {
      WithoutIs(s[1..], i - 1);
      assert s[..i] == [s[0]] + s[1..][..i - 1];
    }
  }

  /** Every entry was used later than key k. */
  ghost predicate Later<K, V>(s: seq<Entry<K, V>>, k: K, lastUse: map<K, nat>)
    requires k in lastUse
  {
    forall e :: e in s ==> e.key in lastUse && lastUse[e.key] > lastUse[k]
  }

  /** The keys that have gone were all used before the ones that are left. */
  ghost predicate Older<K, V>(before: map<K, nat>, after: map<K, nat>, s: seq<Entry<K, V>>, lastUse: map<K, nat>) {
    forall k :: k in before && k !in after ==> k in lastUse && Later(s, k, lastUse)
  }

  lemma NoneGone<K, V>(index: map<K, nat>, s: seq<Entry<K, V>>, lastUse: map<K, nat>)
    ensures Older(index, index, s, lastUse)
  {
  }

  lemma StillOlder<K, V>(before: map<K, nat>, index: map<K, nat>, s: seq<Entry<K, V>>,
                         after: map<K, nat>, left: seq<Entry<K, V>>, gone: K, lastUse: map<K, nat>)
    requires Older(before, index, s, lastUse) && after == index - {gone} && (forall e :: e in left ==> e in s)
    requires gone in lastUse && Later(left, gone, lastUse)
    ensures Older(before, after, left, lastUse)
  {
  }

  function Cap(max: nat): nat {
    if max == 0 then 1 else max
  }

  class LruCache<K(==), V> {
    const maxSize: nat
    var entries: seq<Entry<K, V>>
    var index: map<K, nat>
    var nextNode: nat

    // History
    ghost var lastUse: map<K, nat>
    ghost var clock: nat

    ghost predicate Valid()
      reads this
    {
      ListOk(entries, index, nextNode, lastUse, clock) && |entries| <= Cap(maxSize)
    }

    constructor (maxSize: nat)
      ensures Valid() && this.maxSize == maxSize && entries == [] && index == map[]
    {
      this.maxSize, entries, index, nextNode, lastUse, clock := maxSize, [], map[], 0, map[], 0;
    }

    /** Takes the entry with a key out of the list. */
    method Detach(key: K) returns (e: Entry<K, V>)
      requires Valid() && key in index
      modifies `entries, `index
      ensures Valid() && e in old(entries) && e.key == key && e.node == old(index)[key] && e.node < nextNode
      ensures entries == Without(old(entries), key) && index == old(index) - {key} && |entries| == |old(entries)| - 1
      ensures forall x :: x in entries ==> x.node != e.node
    {
      hide Without, Recent;
      var i := Position(entries, index[key]);
      Located(key, i);
      e := entries[i];
      WithoutIs(entries, i);
      RemoveKeepsList(entries, index, nextNode, lastUse, clock, i);
      entries := entries[..i] + entries[i + 1..];
      index := index - {key};
    }

    lemma Located(key: K, i: nat)
      requires Valid() && key in index && i == Position(entries, index[key])
      ensures i < |entries| && entries[i].key == key
    {
      var e :| e in entries && e.key == key;
      var j :| 0 <= j < |entries| && entries[j] == e;
      assert entries[i] in entries;
    }

    /** Inserts at the front, which counts as a use. */
    method PushFront(e: Entry<K, V>)
      requires Valid() && e.key !in index && |entries| < Cap(maxSize)
      requires e.node < nextNode && forall x :: x in entries ==> x.node != e.node
      modifies `entries, `index, `lastUse, `clock
      ensures Valid() && entries == [e] + old(entries) && index == old(index)[e.key := e.node]
      ensures lastUse == old(lastUse)[e.key := old(clock)] && clock == old(clock) + 1
    {
      hide ListOk;
      FrontKeepsList(entries, index, nextNode, lastUse, clock, e);
      entries := [e] + entries;
      index := index[e.key := e.node];
      lastUse := lastUse[e.key := clock];
      clock := clock + 1;
    }

    /** Evicts from the back until there is room. */
    method MakeRoom()
      requires Valid()
      modifies `entries, `index
      ensures Valid() && |entries| == (if |old(entries)| < Cap(maxSize) then |old(entries)| else Cap(maxSize) - 1)
      ensures entries == old(entries)[..|entries|]
      ensures index.Keys <= old(index).Keys
      ensures Older(old(index), index, entries, lastUse)
    {
      NoneGone(index, entries, lastUse);
      hide ListOk, Older;
      ghost var before, map0 := entries, index;
      while |entries| >= maxSize && entries != []
        invariant Valid() && entries == before[..|entries|] && index.Keys <= map0.Keys
        invariant |entries| == |before| || |entries| >= Cap(maxSize) - 1
        invariant Older(map0, index, entries, lastUse)
        decreases |entries|
      {
        ghost var s, m := entries, index;
        EvictLast();
        StillOlder(map0, m, s, index, entries, s[|s| - 1].key, lastUse);
      }
    }

    /** The last entry goes: the one whose last use is the oldest. */
    method EvictLast()
      requires Valid() && entries != []
      modifies `entries, `index
      ensures Valid() && entries == old(entries)[..|old(entries)| - 1]
      ensures var k := old(entries)[|old(entries)| - 1].key;
              index == old(index) - {k} && k in lastUse && Later(entries, k, lastUse)
    {
      hide ListOk;
      var last := |entries| - 1;
      LastIsOldest(entries, index, nextNode, lastUse, clock);
      RemoveKeepsList(entries, index, nextNode, lastUse, clock, last);
      assert entries[..last] + entries[last + 1..] == entries[..last];
      index := index - {entries[last].key};
      entries := entries[..last];
    }

    method Put(key: K, value: V, now: nat)
      requires Valid()
      modifies this
      ensures Valid() && entries != [] && entries[0].key == key && entries[0].value == value &&
                entries[0].createdAt == now
      ensures key in old(index) ==> entries[1..] == Without(old(entries), key)
      ensures key !in old(index) ==>
                entries[1..] == old(entries)[..if |old(entries)| < Cap(maxSize) then |old(entries)|
                  else Cap(maxSize) - 1]
      ensures forall k :: k in old(index) ==> k in old(lastUse)
      ensures forall k, e :: k in old(index) && k !in index && e in entries && e.key != key ==>
                e.key in old(lastUse) && old(lastUse)[e.key] > old(lastUse)[k]
      ensures lastUse == old(lastUse)[key := old(clock)] && clock == old(clock) + 1
      ensures |entries| > maxSize <==> maxSize == 0
      ensures |entries| == if key in old(index) then |old(entries)|
                           else if maxSize == 0 then 1
                           else if |old(entries)| < maxSize then |old(entries)| + 1 else maxSize
    {
      hide Without, ListOk;
      InUse();
      if key in index {
        var e := Detach(key);
        PushFront(e.(value := value, createdAt := now));
        return;
      }
      MakeRoom();
      var node := nextNode;
      NewNode(node);
      nextNode := nextNode + 1;
      PushFront(Entry(node, key, value, now));
    }

    lemma InUse()
      requires Valid()
      ensures forall k :: k in index ==> k in lastUse
      ensures forall e :: e in entries ==> e.key in index && e.key in lastUse
    {
    }

    lemma NewNode(node: nat)
      requires Valid() && node == nextNode
      ensures forall x :: x in entries ==> x.node != node
      ensures ListOk(entries, index, node + 1, lastUse, clock)
    {
    }

    /** A hit counts as a use; a miss changes nothing. */
    method Get(key: K) returns (r: Option<V>)
      requires Valid()
      modifies this
      ensures Valid() && index == old(index)
      ensures r.Some? <==> key in index
      ensures key !in index ==> entries == old(entries) && lastUse == old(lastUse) && clock == old(clock)
      ensures key in index ==> lastUse == old(lastUse)[key := old(clock)] && clock == old(clock) + 1
      ensures key in index ==>
                entries != [] && entries[0] in old(entries) && entries[0].key == key && r == Some(entries[0].value) &&
                entries[1..] == Without(old(entries), key)
    {
      hide Without, ListOk;
      if key !in index {
        return None;
      }
      ghost var was := index;
      var e := Detach(key);
      PushFront(e);
      assert index == was;
      r := Some(e.value);
    }

    method Remove(key: K)
      requires Valid()
      modifies `entries, `index
      ensures Valid() && index == old(index) - {key}
      ensures entries == if key in old(index) then Without(old(entries), key) else old(entries)
    {
      hide Without, ListOk;
      if key !in index {
        return;
      }
      var e := Detach(key);
    }

    /** Exactly the expired entries go; the rest keeps its order. */
    method Gc(now: nat, maxAge: nat)
      requires Valid()
      modifies `entries, `index
      ensures Valid() && entries == Fresh(old(entries), now, maxAge)
    {
      hide ListOk, Fresh;
      ghost var all := entries;
      FreshStep(all, 0, now, maxAge);
      var i := 0;
      ghost var j := 0;
      while i < |entries|
        invariant Valid() && i <= |entries| && j <= |all|
        invariant entries[..i] == Fresh(all[..j], now, maxAge) && entries[i..] == all[j..]
        decreases |entries| - i
      {
        FreshStep(all, j, now, maxAge);
        assert entries[i] == entries[i..][0] == all[j] && entries[i + 1..] == entries[i..][1..];
        if Expired(entries[i], now, maxAge) {
          RemoveKeepsList(entries, index, nextNode, lastUse, clock, i);
          index := index - {entries[i].key};
          entries := entries[..i] + entries[i + 1..];
        } else {
          i := i + 1;
        }
        j := j + 1;
      }
      assert all[..j] == all;
    }
  }

  lemma FreshStep<K, V>(s: seq<Entry<K, V>>, j: nat, now: nat, maxAge: nat)
    requires j <= |s|
    ensures j == 0 ==> Fresh(s[..j], now, maxAge) == []
    ensures j < |s| ==>
              Fresh(s[..j + 1], now, maxAge) ==
              Fresh(s[..j], now, maxAge) + (if Expired(s[j], now, maxAge) then [] else [s[j]])
  {
    if j < |s| {
      assert s[..j + 1][..j] == s[..j];
    }
  }
}
