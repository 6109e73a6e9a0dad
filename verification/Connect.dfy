/** The client's connect pipeline (src/connect.cpp:126-147, 180-334, 472-522).

    Handshakes run through relays as the peer query finds them, two at a time; the first success ends
    the competition. Every callback is a method, so an interleaving is a sequence of calls, and what
    `Valid()` says holds after every one of them. */
module Connect {
  import opened Wrappers
  import opened Addresses

  const MAX_IN_FLIGHT: nat := 2
  const PEER_NOT_FOUND: int := -2
  const PEER_CONNECTION_FAILED: int := -3

  class ConnState {
    var completed: bool
    /** hs_result.success: a handshake has won. */
    var success: bool
    var handshakesInFlight: int
    var handshakesStarted: int
    var pendingRelays: seq<Ipv4Address>
    var queryDone: bool
    var found: bool
    var relays: seq<Ipv4Address>
    var cachedFirewall: bool
    /** The liveness sentinel of the DHT. */
    var alive: bool

    // History
    ghost var routePending: bool
    /** A cached route was tried. */
    ghost var routeTaken: bool
    /** The relays that were known before the query. */
    ghost var known: seq<Ipv4Address>
    ghost var queryStarted: bool
    /** The handshakes awaiting their callback, by the order in which they were started. */
    ghost var outstanding: set<nat>
    /** The relays offered so far, and those a handshake was started through. */
    ghost var offered: seq<Ipv4Address>
    ghost var tried: seq<Ipv4Address>
    /** The runs of on_handshake_success and the calls of the user's callback, with their codes. */
    ghost var wins: nat
    ghost var doneCalls: seq<int>

    ghost predicate Pipeline()
      reads this
    {
      && handshakesInFlight == |outstanding| <= MAX_IN_FLIGHT
      && handshakesStarted == |tried|
      && (forall i :: i in outstanding ==> i < |tried|)
      && (pendingRelays != [] ==> !success && !completed && handshakesInFlight == MAX_IN_FLIGHT)
      && (alive && !success ==> tried + pendingRelays == offered)
      && (pendingRelays != [] || tried != [] ==> found)
      && (routePending ==> !queryStarted && !success && !completed && outstanding == {} && offered == [] && tried == [])
      && (queryDone ==> queryStarted)
      && (found || offered == [])
    }

    ghost predicate Outcome()
      reads this
    {
      && wins == (if success then 1 else 0)
      && |doneCalls| == (if completed then 1 else 0)
      && (completed && !success ==>
            doneCalls[0] == (if found then PEER_CONNECTION_FAILED else PEER_NOT_FOUND) && queryDone &&
              outstanding == {} &&
            pendingRelays == [] && (alive ==> tried == offered))
    }

    /** Nobody waits for nothing. */
    ghost predicate Progress()
      reads this
    {
      && (queryDone && handshakesInFlight == 0 && !success ==> completed)
      && (tried != [] ==> queryStarted || success)
      && (alive && !completed && !success ==> routePending || (queryStarted && !queryDone) || handshakesInFlight > 0)
    }

    /** A peer counts as found through a cached route or a relay; relays come from the cache, then from
        the query. */
    ghost predicate Sources()
      reads this
    {
      (found <==> routeTaken || offered != []) && offered == known + relays
    }

    ghost predicate Valid()
      reads this
    {
      Pipeline() && Outcome() && Progress() && Sources()
    }

    method Complete(err: int)
      requires Pipeline() && Outcome()
      requires success || (queryDone && outstanding == {} && pendingRelays == [] && !routePending)
      requires !success && !completed ==> err == if found then PEER_CONNECTION_FAILED else PEER_NOT_FOUND
      modifies `completed, `doneCalls
      ensures Pipeline() && Outcome() && completed
      ensures doneCalls == if old(completed) then old(doneCalls) else [err]
    {
      if completed {
        return;
      }
      completed := true;
      doneCalls := doneCalls + [err];
    }

    /** Starts a handshake, unless the attempt is over or the DHT is gone. */
    method FireHandshake(relay: Ipv4Address)
      modifies `handshakesInFlight, `handshakesStarted, `outstanding, `tried
      ensures completed || !alive ==>
                handshakesInFlight == old(handshakesInFlight) && handshakesStarted == old(handshakesStarted)
      ensures completed || !alive ==> outstanding == old(outstanding) && tried == old(tried)
      ensures !completed && alive ==>
                && handshakesInFlight == old(handshakesInFlight) + 1 && handshakesStarted == old(handshakesStarted) + 1
                && outstanding == old(outstanding) + {|old(tried)|} && tried == old(tried) + [relay]
    {
      if completed || !alive {
        return;
      }
      handshakesInFlight := handshakesInFlight + 1;
      handshakesStarted := handshakesStarted + 1;
      outstanding := outstanding + {|tried|};
      tried := tried + [relay];
    }

    method CheckExhaustion()
      requires Pipeline() && Outcome() && !routePending && found
      modifies `completed, `doneCalls
      ensures Pipeline() && Outcome()
      ensures completed == (old(completed) || (queryDone && !success && handshakesInFlight == 0 && pendingRelays == []))
      ensures doneCalls == old(doneCalls) + (if completed && !old(completed) then [PEER_CONNECTION_FAILED] else [])
    {
      if completed {
        return;
      }
      if handshakesInFlight > 0 {
        return;
      }
      if pendingRelays != [] {
        return;
      }
      if !queryDone {
        return;
      }
      if success {
        return;
      }
      Complete(PEER_CONNECTION_FAILED);
    }

    /** What holds between the callback of a handshake and the refilling of the pipeline. */
    ghost predicate Draining()
      reads this
    {
      && handshakesInFlight == |outstanding| <= MAX_IN_FLIGHT
      && handshakesStarted == |tried|
      && (forall i :: i in outstanding ==> i < |tried|)
      && (alive ==> tried + pendingRelays == offered)
      && (pendingRelays != [] || tried != [] ==> found)
      && !routePending && (queryDone ==> queryStarted) && (found || offered == [])
    }

    /** Refills the pipeline from the queue. */
    method TryNextRelay()
      requires if completed || success then Pipeline() else Draining()
      requires Outcome() && !routePending && found
      requires tried != [] && !success ==> queryStarted
      requires alive && !completed && !success ==> queryStarted
      modifies `handshakesInFlight, `handshakesStarted, `outstanding, `tried, `pendingRelays, `completed, `doneCalls
      ensures Pipeline() && Outcome()
      ensures old(completed || success) ==>
                pendingRelays == old(pendingRelays) && doneCalls == old(doneCalls) &&
                outstanding == old(outstanding) && tried == old(tried) && completed == old(completed)
      ensures !old(completed || success) ==> Progress()
      ensures forall j :: j in outstanding ==> j in old(outstanding) || j >= |old(tried)|
    {
      if completed {
        return;
      }
      if success {
        return;
      }
      Refill();
      CheckExhaustion();
    }

    method Refill()
      requires Draining() && Outcome() && !completed && !success && found
      requires (alive ==> queryStarted) && (tried != [] ==> queryStarted)
      modifies `handshakesInFlight, `handshakesStarted, `outstanding, `tried, `pendingRelays
      ensures Draining() && Outcome() && (tried != [] ==> queryStarted)
      ensures pendingRelays == [] || handshakesInFlight >= MAX_IN_FLIGHT
      ensures forall j :: j in outstanding ==> j in old(outstanding) || j >= |old(tried)|
    {
      hide Outcome;
      while pendingRelays != [] && handshakesInFlight < MAX_IN_FLIGHT
        invariant Draining() && Outcome() && (tried != [] ==> queryStarted)
        invariant |tried| >= |old(tried)| && forall j :: j in outstanding ==> j in old(outstanding) || j >= |old(tried)|
        decreases |pendingRelays|
      {
        FireNext();
      }
    }

    method FireNext()
      requires Draining() && Outcome() && !completed && !success && found && (alive ==> queryStarted)
      requires pendingRelays != [] && handshakesInFlight < MAX_IN_FLIGHT
      modifies `handshakesInFlight, `handshakesStarted, `outstanding, `tried, `pendingRelays
      ensures Draining() && Outcome() && pendingRelays == old(pendingRelays)[1..]
      ensures tried == (if alive then old(tried) + [old(pendingRelays)[0]] else old(tried))
      ensures outstanding == (if alive then old(outstanding) + {|old(tried)|} else old(outstanding))
    {
      var addr := pendingRelays[0];
      pendingRelays := pendingRelays[1..];
      FireHandshake(addr);
      assert old(pendingRelays) == [addr] + pendingRelays;
    }

    constructor ()
      ensures Pipeline() && Outcome() && alive && !completed && !success && !queryStarted && !routePending
      ensures offered == [] && tried == [] && pendingRelays == [] && outstanding == {} && !found && doneCalls == []
      ensures !routeTaken && known == [] && relays == []
    {
      completed, success, handshakesInFlight, handshakesStarted := false, false, 0, 0;
      pendingRelays, queryDone, found, relays, cachedFirewall, alive := [], false, false, [], false, true;
      routePending, queryStarted, outstanding, offered, tried := false, false, {}, [], [];
      routeTaken, known, wins, doneCalls := false, [], 0, [];
    }

    /** do_connect: a cached route is tried alone; otherwise the cached relays fill the pipeline and the
        peer query starts. */
    method DoConnect(route: bool, cached: seq<Ipv4Address>)
      requires Pipeline() && Outcome() && alive && !completed && !success && !queryStarted && !routePending &&
                !queryDone
      requires offered == [] && tried == [] && pendingRelays == [] && outstanding == {} && !found
      requires !routeTaken && known == [] && relays == []
      modifies this
      ensures Valid() && alive && !completed && !success
      ensures if route then routePending && !queryStarted && offered == []
                else queryStarted && !queryDone && offered == cached
      ensures routeTaken == route && known == offered && relays == []
    {
      if route {
        found := true;
        routePending, routeTaken := true, true;
        return;
      }
      if cached != [] {
        found := true;
        OfferCached(cached);
        known := cached;
      }
      StartFindPeer();
    }

    /** The cached relays go in as if the query had found them. */
    method OfferCached(cached: seq<Ipv4Address>)
      requires Pipeline() && Outcome() && !completed && !success && !routePending && found && offered == []
      modifies `handshakesInFlight, `handshakesStarted, `outstanding, `tried, `pendingRelays, `offered
      ensures Pipeline() && Outcome() && offered == cached
    {
      hide Pipeline, Outcome;
      var i := 0;
      while i < |cached|
        invariant i <= |cached| && Pipeline() && Outcome() && offered == cached[..i]
      {
        assert cached[..i + 1] == cached[..i] + [cached[i]];
        Offer(cached[i]);
        i := i + 1;
      }
      assert cached[..i] == cached;
    }

    lemma NewNumber()
      requires Pipeline()
      ensures |tried| !in outstanding && |outstanding + {|tried|}| == |outstanding| + 1
      ensures handshakesInFlight < MAX_IN_FLIGHT ==> pendingRelays == []
      ensures alive && !success ==> tried + pendingRelays == offered
    {
    }

    /** A relay goes into the pipeline if there is room, into the queue if not. */
    method Offer(relay: Ipv4Address)
      requires Pipeline() && Outcome() && !completed && !success && !routePending && found
      modifies `handshakesInFlight, `handshakesStarted, `outstanding, `tried, `pendingRelays, `offered
      ensures Pipeline() && Outcome() && offered == old(offered) + [relay]
      ensures alive ==>
                handshakesInFlight ==
                (if old(handshakesInFlight) < MAX_IN_FLIGHT then old(handshakesInFlight) + 1 else MAX_IN_FLIGHT)
      ensures handshakesInFlight >= old(handshakesInFlight)
    {
      NewNumber();
      ghost var before, queue := tried, pendingRelays;
      offered := offered + [relay];
      if handshakesInFlight < MAX_IN_FLIGHT {
        FireHandshake(relay);
        assert alive ==> tried + pendingRelays == offered;
        assert Pipeline();
      } else {
        pendingRelays := pendingRelays + [relay];
        assert tried + pendingRelays == before + queue + [relay];
        assert Pipeline();
      }
    }

    method StartFindPeer()
      requires Pipeline() && Outcome() && !routePending && !queryStarted
      modifies `queryStarted
      ensures Pipeline() && Outcome() && queryStarted == (!completed && alive)
    {
      if completed || !alive {
        return;
      }
      queryStarted := true;
    }

    /** A reply of the peer query; one with a value offers a relay. */
    method OnQueryReply(relay: Ipv4Address, hasValue: bool)
      requires Valid() && queryStarted && !queryDone
      modifies `found, `relays, `handshakesInFlight, `handshakesStarted, `outstanding, `tried, `pendingRelays, `offered
      ensures Valid()
      ensures old(completed || success) || !hasValue ==> unchanged(this)
      ensures !old(completed || success) && hasValue ==>
                found && offered == old(offered) + [relay] && relays == old(relays) + [relay]
    {
      if completed {
        return;
      }
      if success {
        return;
      }
      if !hasValue {
        return;
      }
      found := true;
      relays := relays + [relay];
      Offer(relay);
    }

    /** The peer query has finished. */
    method OnQueryDone()
      requires Valid() && queryStarted && !queryDone
      modifies `queryDone, `completed, `doneCalls
      ensures Valid() && queryDone
      ensures !old(completed) && !success ==> completed == (handshakesInFlight == 0)
      ensures completed && !old(completed) ==> doneCalls == [if routeTaken || offered != [] then -3 else -2]
    {
      queryDone := true;
      if completed {
        return;
      }
      if !found && handshakesStarted == 0 {
        NoneOutstanding();
        Complete(PEER_NOT_FOUND);
        return;
      }
      CheckExhaustion();
    }

    lemma NoneOutstanding()
      requires Pipeline() && handshakesStarted == 0
      ensures outstanding == {} && pendingRelays == []
    {
      assert forall i :: i !in outstanding;
    }

    /** The decision tree after a successful handshake: it may complete the connection at once. */
    method OnHandshakeSuccess(outcome: Option<int>)
      requires Pipeline() && success && wins == 0 && !completed && doneCalls == []
      modifies `wins, `completed, `doneCalls
      ensures Pipeline() && Outcome() && wins == 1
      ensures completed == (cachedFirewall || outcome.Some?)
      ensures completed ==> doneCalls == [if cachedFirewall then 0 else outcome.value]
    {
      wins := 1;
      if cachedFirewall && !completed {
        Complete(0);
        return;
      }
      if outcome.Some? {
        Complete(outcome.value);
      }
    }

    /** The callback of handshake number i. */
    method OnHandshakeReply(i: nat, hsSuccess: bool, outcome: Option<int>)
      requires Valid() && i in outstanding
      modifies `handshakesInFlight, `handshakesStarted, `outstanding, `tried, `pendingRelays, `success
      modifies `wins, `completed, `doneCalls
      ensures Valid() && i !in outstanding
      ensures success == (old(success) || (hsSuccess && alive && !old(completed)))
      ensures success && !old(success) ==> wins == 1 && pendingRelays == [] && tried == old(tried)
      ensures success && !old(success) ==>
                completed == (cachedFirewall || outcome.Some?) &&
                (completed ==> doneCalls == [if cachedFirewall then 0 else outcome.value])
      ensures old(completed || success) ==>
                completed == old(completed) && doneCalls == old(doneCalls) && tried == old(tried) &&
                pendingRelays == old(pendingRelays) && outstanding == old(outstanding) - {i}
    {
      handshakesInFlight := handshakesInFlight - 1;
      outstanding := outstanding - {i};
      if completed {
        return;
      }
      if success {
        TryNextRelay();
        return;
      }
      if !alive || !hsSuccess {
        TryNextRelay();
        return;
      }
      Win(outcome);
    }

    /** The first handshake to succeed ends the competition. */
    method Win(outcome: Option<int>)
      requires Draining() && Outcome() && !completed && !success
      modifies `pendingRelays, `success, `wins, `completed, `doneCalls
      ensures Pipeline() && Outcome() && Progress()
      ensures success && wins == 1 && pendingRelays == []
      ensures completed == (cachedFirewall || outcome.Some?)
      ensures completed ==> doneCalls == [if cachedFirewall then 0 else outcome.value]
    {
      success := true;
      pendingRelays := [];
      OnHandshakeSuccess(outcome);
    }

    /** The callback of the handshake through a cached route. */
    method OnRouteReply(hsSuccess: bool, outcome: Option<int>)
      requires Valid() && routePending
      modifies `routePending, `queryStarted, `success, `wins, `completed, `doneCalls
      ensures Valid() && !routePending
      ensures success == (hsSuccess && alive) && queryStarted == (!hsSuccess && alive)
      ensures completed == (success && (cachedFirewall || outcome.Some?))
      ensures completed ==> doneCalls == [if cachedFirewall then 0 else outcome.value]
    {
      routePending := false;
      if completed || !alive {
        return;
      }
      if hsSuccess {
        success := true;
        OnHandshakeSuccess(outcome);
        return;
      }
      StartFindPeer();
    }

    /** The server's first packet: kept until a handshake has succeeded, then it completes the connection.
        Packets that come through the blind relay are none of that. */
    method OnFirewall(fromRelay: bool)
      requires Valid()
      modifies `cachedFirewall, `completed, `doneCalls
      ensures Valid() && completed == (old(completed) || (success && !fromRelay))
      ensures cachedFirewall == (old(cachedFirewall) || (!completed && !success && !fromRelay))
      ensures completed && !old(completed) ==> doneCalls == [0]
    {
      if completed {
        return;
      }
      if fromRelay {
        return;
      }
      if !success {
        cachedFirewall := true;
        return;
      }
      Complete(0);
    }

    /** Any of the paths behind on_handshake_success reports. */
    method OnPathResult(err: int)
      requires Valid() && success
      modifies `completed, `doneCalls
      ensures Valid() && completed && doneCalls == if old(completed) then old(doneCalls) else [err]
    {
      Complete(err);
    }

    /** The DHT is destroyed. */
    method Die()
      requires Valid()
      modifies `alive
      ensures Valid() && !alive
    {
      alive := false;
    }

    /** At most two handshakes are in flight, at most one wins, and a queue means a full pipeline. */
    lemma PipelineIsBounded()
      requires Valid()
      ensures handshakesInFlight == |outstanding| <= 2 && wins <= 1
      ensures pendingRelays != [] ==> handshakesInFlight == 2 && wins == 0 && !completed
      ensures |doneCalls| <= 1
    {
    }

    /** Once the query is done, nothing is in flight and nothing has won, completion with an error has
        happened, which tells whether a route was tried or any relay found; and on a living DHT it means
        that every relay offered was tried and has failed. */
    lemma ExhaustionHasCompleted()
      requires Valid() && queryDone && outstanding == {} && !success
      ensures completed && doneCalls == [if routeTaken || offered != [] then -3 else -2]
      ensures alive ==> tried == offered
    {
    }

    /** While the DHT lives, an unfinished attempt waits for the route, the query, a handshake or a
        path behind the winning handshake. */
    lemma NeverStuck()
      requires Valid() && alive && !completed
      ensures routePending || (queryStarted && !queryDone) || outstanding != {} || success
    {
    }
  }
}
