/** Request bookkeeping of the RPC socket (src/rpc.cpp:87-116, 251-289, 323-412, 468-502, 532-570, 726-743).

    Requests are numbered; a number stands for the request object and for its transaction id, which are
    taken not to wrap around. */
module Rpc {
  import opened Wrappers

  const BUCKETS: nat := 4
  const MAX_PENDING: nat := 640

  // ------------------------------------------------------------------------------------------
  // The congestion window
  // ------------------------------------------------------------------------------------------

  function Sum(w: seq<int>): int {
    if w == [] then 0 else w[0] + Sum(w[1..])
  }

  lemma FourBuckets(w: seq<int>)
    requires |w| == BUCKETS
    ensures Sum(w) == w[0] + w[1] + w[2] + w[3]
  {
    assert w[1..][1..] == w[2..] && w[2..][1..] == w[3..] && w[3..][1..] == [];
    assert Sum(w[3..]) == w[3] && Sum(w[2..]) == w[2] + Sum(w[3..]) && Sum(w[1..]) == w[1] + Sum(w[2..]);
  }

  class CongestionWindow {
    const window: array<int>
    const maxWindow: int
    var i: nat
    var total: int

    /** The total is the sum of four buckets, none of them negative. */
    ghost predicate Valid()
      reads this, window
    {
      window.Length == BUCKETS && i < BUCKETS && total == Sum(window[..]) &&
        forall k :: 0 <= k < BUCKETS ==> window[k] >= 0
    }

    constructor (maxWindow: int)
      ensures Valid() && fresh(window) && this.maxWindow == maxWindow && total == 0
    {
      window := new int[BUCKETS](_ => 0);
      this.maxWindow, i, total := maxWindow, 0, 0;
      new;
      FourBuckets(window[..]);
    }

    /** No request may be sent: the current bucket holds maxWindow, or all four together twice that. */
    predicate IsFull()
      requires window.Length == BUCKETS && i < BUCKETS
      reads this, window
    {
      total >= 2 * maxWindow || window[i] >= maxWindow
    }

    method Send()
      requires Valid()
      modifies this`total, window
      ensures Valid() && total == old(total) + 1
      ensures window[..] == old(window[..])[i := old(window[i]) + 1]
    {
      FourBuckets(window[..]);
      total := total + 1;
      window[i] := window[i] + 1;
      FourBuckets(window[..]);
    }

    /** A reply frees a slot of the current bucket only. */
    method Recv()
      requires Valid()
      modifies this`total, window
      ensures Valid() && total == old(total) - (if old(window[i]) > 0 then 1 else 0)
      ensures window[..] == old(window[..])[i := if old(window[i]) > 0 then old(window[i]) - 1 else 0]
    {
      FourBuckets(window[..]);
      if window[i] > 0 {
        window[i] := window[i] - 1;
        total := total - 1;
      }
      FourBuckets(window[..]);
    }

    /** The next bucket becomes current and is emptied, with the source's clamp of the total. */
    method Rotate()
      requires window.Length == BUCKETS && i < BUCKETS
      modifies this`i, this`total, window
      ensures i == (old(i) + 1) % BUCKETS && window[..] == old(window[..])[i := 0]
      ensures total == if old(total) < old(window[(i + 1) % BUCKETS]) then 0
                else old(total) - old(window[(i + 1) % BUCKETS])
    {
      i := (i + 1) % BUCKETS;
      total := total - window[i];
      if total < 0 {
        total := 0;
      }
      window[i] := 0;
    }

    /** On a consistent window the clamp never fires: the total drops by exactly the emptied bucket. */
    method Drain()
      requires Valid()
      modifies this`i, this`total, window
      ensures Valid() && total == old(total) - old(window[(i + 1) % BUCKETS]) >= 0
      ensures i == (old(i) + 1) % BUCKETS && window[..] == old(window[..])[i := 0]
    {
      FourBuckets(window[..]);
      Rotate();
      FourBuckets(window[..]);
    }
  }

  // ------------------------------------------------------------------------------------------
  // Requests
  // ------------------------------------------------------------------------------------------

  datatype Request = Request(retries: int, sent: int, destroyed: bool)

  datatype Callback = Answered(id: nat) | TimedOut(id: nat)

  ghost predicate Distinct(s: seq<nat>) {
    forall i, j :: 0 <= i < j < |s| ==> s[i] != s[j]
  }

  ghost predicate OncePerRequest(s: seq<Callback>) {
    forall i, j :: 0 <= i < j < |s| ==> s[i].id != s[j].id
  }

  function Limit(retries: int): int {
    if retries < 0 then 1 else retries + 1
  }

  /** swap-and-pop. */
  function SwapPop(s: seq<nat>, i: nat): seq<nat>
    requires i < |s|
  {
    s[i := s[|s| - 1]][..|s| - 1]
  }

  lemma SwapPopRemoves(s: seq<nat>, i: nat)
    requires Distinct(s) && i < |s|
    ensures Distinct(SwapPop(s, i)) && forall x :: x in SwapPop(s, i) <==> x in s && x != s[i]
  {
    var r := SwapPop(s, i);
    forall x | x in s && x != s[i] ensures x in r {
      var j :| 0 <= j < |s| && s[j] == x;
      assert j < |s| - 1 ==> r[j] == x;
      assert j == |s| - 1 ==> r[i] == x;
    }
    forall x | x in r ensures x in s && x != s[i] {
      var j :| 0 <= j < |r| && r[j] == x;
      assert x == if j == i then s[|s| - 1] else s[j];
    }
  }

  /** Every accepted request is in exactly one place: queued and never sent, in flight and sent at most
      retries + 1 times, or finished. */
  ghost predicate PlacesOk(inflight: seq<nat>, pending: seq<nat>, finished: set<nat>, table: map<nat, Request>,
                           accepted: set<nat>,
                           sends: map<nat, int>)
  {
    && Distinct(inflight) && Distinct(pending)
    && (forall x :: x in inflight ==> x !in pending && x !in finished)
    && (forall x :: x in pending ==> x !in finished)
    && (forall x :: x in accepted <==> x in inflight || x in pending || x in finished)
    && (forall x :: x in accepted <==> x in table) && (forall x :: x in table <==> x in sends)
    && (forall x :: x in table ==> sends[x] == table[x].sent <= Limit(table[x].retries))
    && (forall x :: x in pending ==> table[x].sent == 0 && !table[x].destroyed)
    && (forall x :: x in inflight ==> table[x].sent >= 1 && !table[x].destroyed)
  }

  /** A front of the queue has gone into flight, in order. */
  ghost predicate FrontSent(queue: seq<nat>, left: seq<nat>, before: seq<nat>, after: seq<nat>) {
    exists n :: 0 <= n <= |queue| && left == queue[n..] && after == before + queue[..n]
  }

  class RpcSocket {
    const congestion: CongestionWindow
    var closing: bool
    var nextId: nat
    var inflight: seq<nat>
    var pending: seq<nat>
    /** The request objects. */
    var table: map<nat, Request>

    // History
    ghost var accepted: set<nat>
    ghost var finished: set<nat>
    ghost var sends: map<nat, int>
    ghost var callbacks: seq<Callback>

    ghost predicate Places()
      reads this
    {
      PlacesOk(inflight, pending, finished, table, accepted, sends)
    }

    ghost predicate Valid()
      reads this, congestion, congestion.window
    {
      && congestion.Valid() && Places()
      && (forall x :: x in accepted ==> x < nextId)
      && |pending| <= MAX_PENDING
      && OncePerRequest(callbacks) && (forall c :: c in callbacks ==> c.id in finished)
      && (closing ==> inflight == [] && pending == [])
    }

    constructor (maxWindow: int)
      ensures Valid() && fresh(congestion) && fresh(congestion.window) && !closing && accepted == {} && callbacks == []
    {
      congestion := new CongestionWindow(maxWindow);
      closing, nextId, inflight, pending, table := false, 1, [], [], map[];
      accepted, finished, sends, callbacks := {}, {}, map[], [];
    }

    /** send_now: one more transmission of a request in flight. */
    method SendNow(id: nat)
      requires congestion.Valid() && id in table && !table[id].destroyed && !closing
      modifies `table, `sends, congestion`total, congestion.window
      ensures congestion.Valid()
      ensures table == old(table)[id := old(table)[id].(sent := old(table)[id].sent + 1)]
      ensures sends == old(sends)[id := table[id].sent] && congestion.total == old(congestion.total) + 1
      ensures congestion.window[..] ==
              old(congestion.window[..])[congestion.i := old(congestion.window[congestion.i]) + 1]
    {
      var r := table[id];
      table := table[id := r.(sent := r.sent + 1)];
      sends := sends[id := r.sent + 1];
      congestion.Send();
    }

    /** request(): sent at once, queued, or refused when the queue is full or the socket is closing. */
    method MakeRequest(retries: int) returns (id: Option<nat>)
      requires Valid()
      modifies this, congestion`total, congestion.window
      ensures Valid() && callbacks == old(callbacks) && finished == old(finished)
      ensures var w := old(congestion.window[congestion.i]);
              var full := old(congestion.total) >= 2 * congestion.maxWindow || w >= congestion.maxWindow;
              && (id.Some? <==> !closing && !(full && |old(pending)| >= 640))
              && (id.None? ==> accepted == old(accepted) && inflight == old(inflight) && pending == old(pending))
              && (id.Some? ==> id.value !in old(accepted) && accepted == old(accepted) + {id.value})
              && (id.Some? ==> id.value in table && id.value in sends && table[id.value].retries == retries)
              && (id.Some? && full ==>
                    pending == old(pending) + [id.value] && inflight == old(inflight) && sends[id.value] == 0)
              && (id.Some? && !full ==>
                    inflight == old(inflight) + [id.value] && pending == old(pending) && sends[id.value] == 1)
              && congestion.window[..] == old(congestion.window[..])[congestion.i :=
                                            if id.Some? && !full then w + 1 else w]
    {
      hide PlacesOk, Distinct, OncePerRequest;
      if closing {
        return None;
      }
      var n := nextId;
      nextId := nextId + 1;
      if congestion.IsFull() {
        if |pending| >= MAX_PENDING {
          return None;
        }
        Enqueue(n, retries);
      } else {
        Launch(n, retries);
      }
      id := Some(n);
    }

    method Enqueue(n: nat, retries: int)
      requires Places() && n !in accepted
      modifies `pending, `table, `sends, `accepted
      ensures Places() && pending == old(pending) + [n] && accepted == old(accepted) + {n}
      ensures n in sends && sends[n] == 0 && n in table && table[n].retries == retries
    {
      hide PlacesOk;
      AcceptedForLater(n, retries);
      pending := pending + [n];
      table := table[n := Request(retries, 0, false)];
      sends, accepted := sends[n := 0], accepted + {n};
    }

    method Launch(n: nat, retries: int)
      requires Places() && congestion.Valid() && n !in accepted && !closing
      modifies `inflight, `table, `sends, `accepted, congestion`total, congestion.window
      ensures Places() && congestion.Valid() && inflight == old(inflight) + [n] && accepted == old(accepted) + {n}
      ensures n in sends && sends[n] == 1 && n in table && table[n].retries == retries
      ensures congestion.window[..] ==
              old(congestion.window[..])[congestion.i := old(congestion.window[congestion.i]) + 1]
    {
      hide PlacesOk, CongestionWindow.Valid;
      AcceptedAtOnce(n, retries);
      ghost var t, s := table, sends;
      inflight := inflight + [n];
      table := table[n := Request(retries, 0, false)];
      sends, accepted := sends[n := 0], accepted + {n};
      SendNow(n);
      assert table == t[n := Request(retries, 1, false)] && sends == s[n := 1];
    }

    lemma AcceptedForLater(n: nat, retries: int)
      requires Places() && n !in accepted
      ensures PlacesOk(inflight, pending + [n], finished, table[n := Request(retries, 0, false)], accepted + {n},
                sends[n := 0])
    {
    }

    lemma AcceptedAtOnce(n: nat, retries: int)
      requires Places() && n !in accepted
      ensures PlacesOk(inflight + [n], pending, finished, table[n := Request(retries, 1, false)], accepted + {n},
                sends[n := 1])
    {
    }

    /** destroy_request, for a request in flight: gone from the list, with a slot of the window freed. */
    method DestroyRequest(id: nat)
      requires Valid() && id in inflight
      modifies `table, `inflight, `finished, congestion`total, congestion.window
      ensures Valid() && finished == old(finished) + {id} &&
                table == old(table)[id := old(table)[id].(destroyed := true)]
      ensures forall x :: x in inflight <==> x in old(inflight) && x != id
      ensures |inflight| == |old(inflight)| - 1
      ensures congestion.window[..] == old(congestion.window[..])[congestion.i :=
                  if old(congestion.window[congestion.i]) > 0 then old(congestion.window[congestion.i]) - 1 else 0]
    {
      hide PlacesOk, Distinct, OncePerRequest, SwapPop;
      Located(id);
      var i := 0;
      while i < |inflight| && inflight[i] != id
        invariant i <= |inflight| && forall j :: 0 <= j < i ==> inflight[j] != id
      {
        i := i + 1;
      }
      Finished(i);
      Swapped(inflight, i);
      table := table[id := table[id].(destroyed := true)];
      inflight := SwapPop(inflight, i);
      finished := finished + {id};
      congestion.Recv();
    }

    lemma Located(id: nat)
      requires Places() && id in inflight
      ensures id in table && id in accepted && id !in finished && !table[id].destroyed && Distinct(inflight)
    {
    }

    lemma Swapped(s: seq<nat>, i: nat)
      requires Distinct(s) && i < |s|
      ensures |SwapPop(s, i)| == |s| - 1 && forall x :: x in SwapPop(s, i) <==> x in s && x != s[i]
    {
      SwapPopRemoves(s, i);
    }

    lemma Finished(i: nat)
      requires Places() && i < |inflight|
      ensures var id := inflight[i];
              id in table &&
              PlacesOk(SwapPop(inflight, i), pending, finished + {id}, table[id := table[id].(destroyed := true)],
                accepted, sends)
    {
      hide SwapPop;
      SwapPopRemoves(inflight, i);
    }

    method CallBack(c: Callback)
      requires Valid() && c.id in finished && forall x :: x in callbacks ==> x.id != c.id
      modifies `callbacks
      ensures Valid() && callbacks == old(callbacks) + [c]
    {
      hide PlacesOk;
      callbacks := callbacks + [c];
    }

    /** A response: the request is finished before its callback runs. */
    method OnResponse(id: nat)
      requires Valid()
      modifies `table, `inflight, `finished, `callbacks, congestion`total, congestion.window
      ensures Valid()
      ensures closing || id !in old(inflight) ==> callbacks == old(callbacks) && finished == old(finished)
      ensures !closing && id in old(inflight) ==>
                callbacks == old(callbacks) + [Answered(id)] && finished == old(finished) + {id}
      ensures !closing ==> forall x :: x in inflight <==> x in old(inflight) && x != id
      ensures if closing || id !in old(inflight) then congestion.window[..] == old(congestion.window[..])
              else congestion.window[..] == old(congestion.window[..])[congestion.i :=
                  if old(congestion.window[congestion.i]) > 0 then old(congestion.window[congestion.i]) - 1 else 0]
    {
      hide PlacesOk, Distinct, OncePerRequest;
      if closing {
        return;
      }
      if id !in inflight {
        return;
      }
      Located(id);
      NotCalledYet(id);
      DestroyRequest(id);
      CallBack(Answered(id));
    }

    lemma NotCalledYet(id: nat)
      requires Valid() && id !in finished
      ensures forall x :: x in callbacks ==> x.id != id
    {
    }

    /** The timer of a request in flight: another transmission, or the final timeout. */
    method OnRequestTimeout(id: nat)
      requires Valid() && id in table
      modifies `table, `sends, `inflight, `finished, `callbacks, congestion`total, congestion.window
      ensures Valid()
      ensures closing || id !in old(inflight) ==>
                callbacks == old(callbacks) && finished == old(finished) && sends == old(sends)
      ensures !closing && id in old(inflight) ==>
                if old(table)[id].sent > old(table)[id].retries then
                  callbacks == old(callbacks) + [TimedOut(id)] && finished == old(finished) + {id} &&
                    sends == old(sends)
                else
                  callbacks == old(callbacks) && finished == old(finished) && inflight == old(inflight) &&
                  sends == old(sends)[id := old(table)[id].sent + 1]
      ensures if closing || id !in old(inflight) then congestion.window[..] == old(congestion.window[..])
              else if id in inflight then
                congestion.window[..] ==
                old(congestion.window[..])[congestion.i := old(congestion.window[congestion.i]) + 1]
              else
                congestion.window[..] == old(congestion.window[..])[congestion.i :=
                  if old(congestion.window[congestion.i]) > 0 then old(congestion.window[congestion.i]) - 1 else 0]
    {
      hide PlacesOk, Distinct, OncePerRequest;
      if closing || id !in inflight {
        return;
      }
      Located(id);
      if table[id].sent > table[id].retries {
        NotCalledYet(id);
        DestroyRequest(id);
        CallBack(TimedOut(id));
      } else {
        Resent(id);
        SendNow(id);
      }
    }

    lemma Resent(id: nat)
      requires Places() && id in inflight && id in table && table[id].sent <= table[id].retries
      ensures PlacesOk(inflight, pending, finished, table[id := table[id].(sent := table[id].sent + 1)], accepted,
                sends[id := table[id].sent + 1])
    {
    }

    /** Only a request in flight can be cancelled; it gets no callback. */
    method CancelRequest(id: nat) returns (found: bool)
      requires Valid()
      modifies `table, `inflight, `finished, congestion`total, congestion.window
      ensures Valid() && found == (id in old(inflight))
      ensures finished == old(finished) + (if found then {id} else {})
      ensures forall x :: x in inflight <==> x in old(inflight) && x != id
      ensures if !found then congestion.window[..] == old(congestion.window[..])
              else congestion.window[..] == old(congestion.window[..])[congestion.i :=
                  if old(congestion.window[congestion.i]) > 0 then old(congestion.window[congestion.i]) - 1 else 0]
    {
      if id !in inflight {
        return false;
      }
      DestroyRequest(id);
      found := true;
    }

    /** Queued requests are sent, oldest first, while the window has room. */
    method DrainPending()
      requires Valid() && !closing
      modifies `table, `sends, `inflight, `pending, congestion`total, congestion.window
      ensures Valid() && FrontSent(old(pending), pending, old(inflight), inflight)
      ensures congestion.total >= 2 * congestion.maxWindow ||
              congestion.window[congestion.i] >= congestion.maxWindow || pending == []
      ensures var n := |inflight| - |old(inflight)|;
              && congestion.window[..] ==
                 old(congestion.window[..])[congestion.i := old(congestion.window[congestion.i]) + n]
              && (n > 0 ==> congestion.total <= 2 * congestion.maxWindow &&
                            congestion.window[congestion.i] <= congestion.maxWindow)
    {
      hide PlacesOk, Distinct, OncePerRequest;
      ghost var queue, before := pending, inflight;
      ghost var n := 0;
      assert before + queue[..0] == before;
      while !congestion.IsFull() && pending != []
        invariant Valid() && !closing && n <= |queue| && pending == queue[n..] && inflight == before + queue[..n]
        invariant congestion.window[..] ==
                  old(congestion.window[..])[congestion.i := old(congestion.window[congestion.i]) + n]
        invariant n > 0 ==> congestion.total <= 2 * congestion.maxWindow &&
                            congestion.window[congestion.i] <= congestion.maxWindow
        decreases |pending|
      {
        var id := pending[0];
        FirstLeaves();
        pending := pending[1..];
        if !table[id].destroyed {
          inflight := inflight + [id];
          SendNow(id);
        }
        assert queue[..n + 1] == queue[..n] + [queue[n]];
        assert before + queue[..n + 1] == before + queue[..n] + [id];
        n := n + 1;
      }
    }

    /** A queued request is never destroyed, so taking it from the queue always sends it. */
    lemma FirstLeaves()
      requires Places() && pending != []
      ensures var id := pending[0];
              id in table && !table[id].destroyed && table[id].sent == 0 &&
              PlacesOk(inflight + [id], pending[1..], finished, table[id := table[id].(sent := 1)], accepted,
                sends[id := 1])
    {
      var id := pending[0];
      assert forall x :: x in pending <==> x == id || x in pending[1..];
    }

    method OnDrainTick()
      requires Valid()
      modifies `table, `sends, `inflight, `pending, congestion, congestion.window
      ensures Valid()
      ensures !closing ==>
                congestion.total >= 2 * congestion.maxWindow ||
                congestion.window[congestion.i] >= congestion.maxWindow || pending == []
      ensures !closing ==> congestion.i == (old(congestion.i) + 1) % 4
      ensures !closing ==> FrontSent(old(pending), pending, old(inflight), inflight)
      ensures !closing ==>
                var n := |inflight| - |old(inflight)|;
                && congestion.window[..] == old(congestion.window[..])[congestion.i := n]
                && (n > 0 ==> congestion.total <= 2 * congestion.maxWindow && n <= congestion.maxWindow)
      ensures closing ==> inflight == old(inflight) && pending == old(pending)
    {
      hide PlacesOk, Distinct, OncePerRequest, FrontSent;
      if closing {
        return;
      }
      congestion.Drain();
      DrainPending();
    }

    /** Everything in flight or queued ends without a callback. */
    method Close()
      requires Valid()
      modifies `closing, `table, `inflight, `pending, `finished, congestion`total, congestion.window
      ensures Valid() && closing && inflight == [] && pending == [] && callbacks == old(callbacks)
      ensures !old(closing) ==> finished == accepted
      ensures var left := old(congestion.window[congestion.i]) - |old(inflight)|;
              congestion.window[..] == old(congestion.window[..])[congestion.i := if left > 0 then left else 0]
    {
      hide PlacesOk, Distinct, OncePerRequest;
      if closing {
        return;
      }
      while inflight != []
        invariant Valid() && !closing && callbacks == old(callbacks) && |inflight| <= |old(inflight)|
        invariant var left := old(congestion.window[congestion.i]) - (|old(inflight)| - |inflight|);
                  congestion.window[..] == old(congestion.window[..])[congestion.i := if left > 0 then left else 0]
        decreases |inflight|
      {
        DestroyRequest(inflight[0]);
      }
      QueueDropped();
      finished := finished + (set x | x in pending);
      pending := [];
      AllFinished();
      closing := true;
    }

    lemma QueueDropped()
      requires Valid() && inflight == []
      ensures PlacesOk([], [], finished + (set x | x in pending), table, accepted, sends)
    {
    }

    lemma AllFinished()
      requires Places() && inflight == [] && pending == []
      ensures finished == accepted
    {
    }

    /** Every accepted request is in exactly one of queue, flight and finished; it is transmitted at most
        retries + 1 times and gets at most one callback, a response or a timeout but never both; and the
        congestion total is the sum of its buckets. */
    lemma LifeCycle(id: nat)
      requires Valid() && id in accepted
      ensures id in inflight || id in pending || id in finished
      ensures !(id in inflight && id in pending) && !(id in inflight && id in finished) &&
                !(id in pending && id in finished)
      ensures id in table && id in sends
      ensures sends[id] <= if table[id].retries < 0 then 1 else table[id].retries + 1
      ensures forall c, d :: c in callbacks && d in callbacks && c.id == id && d.id == id ==> c == d
      ensures (exists c :: c in callbacks && c.id == id) ==> id in finished
      ensures var w := congestion.window; w.Length == 4 && congestion.total == w[0] + w[1] + w[2] + w[3] >= 0
    {
      FourBuckets(congestion.window[..]);
      forall c, d | c in callbacks && d in callbacks && c.id == id && d.id == id ensures c == d {
        var i :| 0 <= i < |callbacks| && callbacks[i] == c;
        var j :| 0 <= j < |callbacks| && callbacks[j] == d;
        assert i == j;
      }
    }
  }
}
