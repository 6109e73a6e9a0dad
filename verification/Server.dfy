/** The session tables of the listening side (src/server.cpp:215-258, 287-312, 364-545, 553-571,
    809-845, 984-1003, 1104-1195), without the blind-relay branch.

    Four tables describe the sessions between handshake and connection; every handler and every exit
    of a session has to keep them in step. */
module Server {
  import opened Wrappers
  import opened Bytes

  const MAX_PENDING_HANDSHAKES: nat := 256

  /** A session that waits for its connection: the local id of its raw stream, gone once the stream
      has been closed or handed over. */
  datatype Session = Session(stream: Option<nat>)

  /** finalize_handshake: nothing, or a reply, with an error or with a session whose client may be
      reachable directly. */
  datatype Finalized = Failed | Rejected | Accepted(openClient: bool, stream: nat)

  datatype Firewall = Immediate(result: Finalized) | Deferred

  ghost predicate Injective(m: map<bytes, nat>) {
    forall a, b :: a in m && b in m && m[a] == m[b] ==> a == b
  }

  ghost predicate Distinct(s: seq<nat>) {
    forall i, j :: 0 <= i < j < |s| ==> s[i] != s[j]
  }

  /** An injective map into a set is no larger than the set. */
  lemma {:induction false} InjectiveIsSmall(m: map<bytes, nat>, s: set<nat>)
    requires Injective(m) && forall k :: k in m ==> m[k] in s
    ensures |m| <= |s|
    decreases |m|
  {
    if m.Keys != {} {
      var k :| k in m;
      var rest := m - {k};
      assert rest.Keys == m.Keys - {k};
      InjectiveIsSmall(rest, s - {m[k]});
    }
  }

  /** The dedup table leads from different handshakes to different live sessions; raw streams and live
      sessions correspond one to one. */
  ghost predicate TablesOk(c: map<nat, Session>, d: map<bytes, nat>, p: map<nat, nat>) {
    && |c| <= MAX_PENDING_HANDSHAKES
    && Injective(d)
    && (forall k :: k in d ==> d[k] in c)
    && StreamsOk(c, p)
  }

  function Without<K(==)>(m: map<K, nat>, id: nat): map<K, nat> {
    map k | k in m && m[k] != id :: m[k]
  }

  lemma StoreKeepsInjective(d: map<bytes, nat>, noise: bytes, id: nat)
    requires Injective(d) && forall k :: k in d ==> d[k] != id
    ensures Injective(d[noise := id])
  {
  }

  /** Raw streams and live sessions correspond one to one. */
  ghost predicate StreamsOk(c: map<nat, Session>, p: map<nat, nat>) {
    && (forall s :: s in p ==> p[s] in c && c[p[s]].stream == Some(s))
    && (forall i :: i in c ==> c[i].stream.Some? && c[i].stream.value in p && p[c[i].stream.value] == i)
  }

  lemma StoreKeepsStreams(c: map<nat, Session>, p: map<nat, nat>, id: nat, stream: nat)
    requires StreamsOk(c, p) && id !in c && stream !in p
    ensures StreamsOk(c[id := Session(Some(stream))], p[stream := id])
  {
    var c1, p1 := c[id := Session(Some(stream))], p[stream := id];
    forall s | s in p1 ensures p1[s] in c1 && c1[p1[s]].stream == Some(s) {
      if s != stream {
        assert p[s] in c;
      }
    }
    forall i | i in c1 ensures c1[i].stream.Some? && c1[i].stream.value in p1 && p1[c1[i].stream.value] == i {
      if i != id {
        assert c[i].stream.value in p;
      }
    }
  }

  lemma StoreKeepsTables(c: map<nat, Session>, d: map<bytes, nat>, p: map<nat, nat>, id: nat, noise: bytes, stream: nat)
    requires TablesOk(c, d, p) && id !in c && stream !in p && |c| < MAX_PENDING_HANDSHAKES
    ensures TablesOk(c[id := Session(Some(stream))], d[noise := id], p[stream := id])
  {
    hide Injective, StreamsOk;
    assert c[id := Session(Some(stream))].Keys == c.Keys + {id};
    StoreKeepsInjective(d, noise, id);
    StoreKeepsStreams(c, p, id, stream);
  }

  lemma WithoutIs(m: map<nat, nat>, id: nat)
    ensures forall k :: k in Without(m, id) <==> k in m && m[k] != id
    ensures forall k :: k in Without(m, id) ==> Without(m, id)[k] == m[k]
  {
  }

  lemma WithoutKeepsValues<K>(m: map<K, nat>, id: nat)
    ensures id !in Without(m, id).Values
  {
  }

  lemma WithoutKeepsInjective(d: map<bytes, nat>, id: nat)
    requires Injective(d)
    ensures Injective(Without(d, id))
    ensures forall k :: k in Without(d, id) ==> k in d && d[k] == Without(d, id)[k] != id
  {
    forall a, b | a in Without(d, id) && b in Without(d, id) && Without(d, id)[a] == Without(d, id)[b] ensures a == b {
      assert d[a] == d[b];
    }
  }

  /** Forgetting a session in all tables. */
  lemma ForgetKeepsTables(c: map<nat, Session>, d: map<bytes, nat>, p: map<nat, nat>, id: nat)
    requires TablesOk(c, d, p)
    ensures TablesOk(c - {id}, Without(d, id), Without(p, id))
  {
    hide Without, Injective, StreamsOk;
    assert (c - {id}).Keys == c.Keys - {id};
    WithoutKeepsInjective(d, id);
    ForgetKeepsStreams(c, p, id);
  }

  lemma ForgetKeepsStreams(c: map<nat, Session>, p: map<nat, nat>, id: nat)
    requires StreamsOk(c, p)
    ensures StreamsOk(c - {id}, Without(p, id))
  {
    hide Without;
    WithoutIs(p, id);
  }

  lemma ForgottenStream(c: map<nat, Session>, d: map<bytes, nat>, p: map<nat, nat>, id: nat)
    requires TablesOk(c, d, p)
    ensures id in c ==> Without(p, id) == p - {c[id].stream.value}
    ensures id !in c ==> c - {id} == c && Without(d, id) == d && Without(p, id) == p
  {
    hide Injective;
  }

  class Server {
    const hasOnConnection: bool
    var closed: bool
    var suspended: bool
    var nextId: nat
    var connections: map<nat, Session>
    var dedup: map<bytes, nat>
    var punchStreams: map<nat, nat>
    var timers: set<nat>
    /** Handshakes whose firewall decision is awaited. */
    var awaiting: map<nat, bytes>

    // History
    ghost var replies: seq<nat>
    ghost var resent: seq<nat>
    ghost var emitted: seq<nat>

    ghost predicate Tables()
      reads `connections, `dedup, `punchStreams, `timers
    {
      TablesOk(connections, dedup, punchStreams) && timers == connections.Keys
    }

    ghost predicate Ids()
      reads `connections, `awaiting, `emitted, `nextId
    {
      && (forall i :: i in connections ==> i < nextId && i !in emitted)
      && (forall i :: i in awaiting ==> i < nextId && i !in connections && i !in emitted)
      && (forall i :: i in emitted ==> i < nextId)
      && Distinct(emitted)
    }

    ghost predicate Valid()
      reads this
    {
      Tables() && Ids() && (closed ==> connections == map[])
    }

    constructor (hasOnConnection: bool)
      ensures this.hasOnConnection == hasOnConnection
      ensures Valid() && !closed && !suspended && nextId == 1
      ensures connections == map[] && dedup == map[] && punchStreams == map[] && emitted == [] && awaiting == map[] &&
                replies == []
    {
      this.hasOnConnection := hasOnConnection;
      closed, suspended, nextId, connections, dedup, punchStreams := false, false, 1, map[], map[], map[];
      timers, awaiting, replies, resent, emitted := {}, map[], [], [], [];
    }

    /** The dedup table never outgrows the live sessions and never leads to a dead one. */
    lemma DedupIsNeverStale(noise: bytes)
      requires Tables()
      ensures |dedup| <= |connections| <= 256
      ensures noise in dedup ==> dedup[noise] in connections
    {
      InjectiveIsSmall(dedup, connections.Keys);
    }

    /** The size cap on the dedup table and the lookup of a handshake in it; an entry whose session is
        gone is dropped. */
    method FindDuplicate(noise: bytes) returns (session: Option<nat>)
      modifies `dedup
      ensures var d := if |old(dedup)| > 512 && |old(dedup)| > |connections| * 2 then map[] else old(dedup);
              && session == (if noise in d && d[noise] in connections then Some(d[noise]) else None)
              && dedup == (if noise in d && d[noise] !in connections then d - {noise} else d)
      ensures old(Tables()) ==> dedup == old(dedup) && session == (if noise in dedup then Some(dedup[noise]) else None)
    {
      hide TablesOk;
      if Tables() {
        DedupIsNeverStale(noise);
      }
      if |dedup| > 512 && |dedup| > |connections| * 2 {
        dedup := map[];
      }
      if noise in dedup {
        var id := dedup[noise];
        if id in connections {
          return Some(id);
        }
        dedup := dedup - {noise};
      }
      session := None;
    }

    /** Without a connection callback nothing is emitted. */
    method OnSocket(id: nat)
      requires id !in emitted && id !in connections && id !in awaiting && id < nextId && Ids()
      modifies `emitted
      ensures Ids() && emitted == old(emitted) + (if hasOnConnection then [id] else [])
    {
      if !hasOnConnection {
        return;
      }
      emitted := emitted + [id];
    }

    /** What the outcome of a new handshake changes: an error reply changes no table, a client that is
        reachable is connected at once, any other is stored; nothing happens at all when the handshake
        failed or 256 sessions are waiting. */
    ghost predicate Decided(id: nat, noise: bytes, result: Finalized, c: map<nat, Session>, d: map<bytes, nat>,
                            p: map<nat, nat>, e: seq<nat>, r: seq<nat>)
      reads `closed, `suspended, `connections, `dedup, `punchStreams, `replies, `emitted
    {
      var full := |c| >= MAX_PENDING_HANDSHAKES;
      var live := !closed && !suspended && !full && result.Accepted?;
      && replies == r + (if closed || suspended || full || result.Failed? then [] else [id])
      && emitted == e + (if live && result.openClient && hasOnConnection then [id] else [])
      && (if live && !result.openClient then
            connections == c[id := Session(Some(result.stream))] && dedup == d[noise := id] &&
              punchStreams == p[result.stream := id]
          else connections == c && dedup == d && punchStreams == p)
    }

    /** Every outcome of a decision, field by field. */
    lemma OutcomeIs(id: nat, noise: bytes, result: Finalized, c: map<nat, Session>, d: map<bytes, nat>,
                    p: map<nat, nat>, e: seq<nat>, r: seq<nat>)
      requires Decided(id, noise, result, c, d, p, e, r)
      ensures closed || suspended || |c| >= 256 || result == Failed ==>
                connections == c && dedup == d && punchStreams == p && emitted == e && replies == r
      ensures !closed && !suspended && |c| < 256 && result != Failed ==> replies == r + [id]
      ensures result == Rejected ==> connections == c && dedup == d && punchStreams == p && emitted == e
      ensures !closed && !suspended && |c| < 256 && result.Accepted? && result.openClient ==>
                && emitted == e + (if hasOnConnection then [id] else [])
                && connections == c && dedup == d && punchStreams == p
      ensures !closed && !suspended && |c| < 256 && result.Accepted? && !result.openClient ==>
                && emitted == e && connections == c[id := Session(Some(result.stream))]
                && dedup == d[noise := id] && punchStreams == p[result.stream := id]
    {
    }

    lemma NothingDecided(id: nat, noise: bytes)
      ensures Decided(id, noise, Failed, connections, dedup, punchStreams, emitted, replies)
      ensures closed || suspended ==>
                forall r :: Decided(id, noise, r, connections, dedup, punchStreams, emitted, replies)
    {
    }

    /** An incoming handshake. A repeated one gets the reply of its session again. */
    method OnPeerHandshake(noise: bytes, decodes: bool, firewall: Firewall)
      requires Valid()
      requires firewall.Immediate? && firewall.result.Accepted? ==> firewall.result.stream !in punchStreams
      modifies this
      ensures Valid() && closed == old(closed) && suspended == old(suspended)
      ensures closed || suspended ==> unchanged(this)
      ensures !closed && !suspended && noise in old(dedup) ==>
                && resent == old(resent) + [old(dedup)[noise]] && connections == old(connections) && dedup == old(dedup)
                && punchStreams == old(punchStreams) && emitted == old(emitted) && replies == old(replies)
                && nextId == old(nextId) && awaiting == old(awaiting)
      ensures !closed && !suspended && noise !in old(dedup) ==>
                && nextId == old(nextId) + 1 && resent == old(resent)
                && awaiting == (if decodes && firewall.Deferred? then old(awaiting)[old(nextId) := noise]
                   else old(awaiting))
                && Decided(old(nextId), noise, if decodes && firewall.Immediate? then firewall.result else Failed,
                           old(connections), old(dedup), old(punchStreams), old(emitted), old(replies))
    {
      hide Tables, Distinct, Decided;
      if closed || suspended {
        return;
      }
      var session := FindDuplicate(noise);
      if session.Some? {
        resent := resent + [session.value];
        return;
      }
      OnNewHandshake(noise, decodes, firewall);
    }

    method OnNewHandshake(noise: bytes, decodes: bool, firewall: Firewall)
      requires Valid() && !closed && !suspended
      requires firewall.Immediate? && firewall.result.Accepted? ==> firewall.result.stream !in punchStreams
      modifies `nextId, `awaiting, `connections, `dedup, `punchStreams, `timers, `replies, `emitted
      ensures Valid() && nextId == old(nextId) + 1
      ensures awaiting ==
              (if decodes && firewall.Deferred? then old(awaiting)[old(nextId) := noise] else old(awaiting))
      ensures Decided(old(nextId), noise, if decodes && firewall.Immediate? then firewall.result else Failed,
                      old(connections), old(dedup), old(punchStreams), old(emitted), old(replies))
    {
      hide Tables, Distinct, Decided;
      var id := nextId;
      nextId := nextId + 1;
      NothingDecided(id, noise);
      if !decodes {
        return;
      }
      match firewall
      case Deferred =>
        awaiting := awaiting[id := noise];
      case Immediate(result) =>
        OnHandshakeResult(id, noise, result);
    }

    /** The user's answer to a deferred firewall decision. Only the first one counts. */
    method OnFirewallDecision(id: nat, result: Finalized)
      requires Valid() && (result.Accepted? ==> result.stream !in punchStreams)
      modifies this
      ensures Valid() && closed == old(closed) && suspended == old(suspended) && id !in awaiting
      ensures awaiting == old(awaiting) - {id} && nextId == old(nextId) && resent == old(resent)
      ensures Decided(id, if id in old(awaiting) then old(awaiting)[id] else [],
                      if id in old(awaiting) then result else Failed,
                      old(connections), old(dedup), old(punchStreams), old(emitted), old(replies))
    {
      hide Tables, Distinct, Decided;
      if id !in awaiting {
        NothingDecided(id, []);
        return;
      }
      var noise := awaiting[id];
      awaiting := awaiting - {id};
      NothingDecided(id, noise);
      if closed || suspended {
        return;
      }
      OnHandshakeResult(id, noise, result);
    }

    /** After the decision: the reply goes out, and the session is connected at once or stored. */
    method OnHandshakeResult(id: nat, noise: bytes, result: Finalized)
      requires Valid() && id < nextId && id !in connections && id !in emitted && id !in awaiting
      requires result.Accepted? ==> result.stream !in punchStreams
      modifies `connections, `dedup, `punchStreams, `timers, `replies, `emitted
      ensures Valid()
      ensures Decided(id, noise, result, old(connections), old(dedup), old(punchStreams), old(emitted), old(replies))
      ensures closed || suspended || |old(connections)| >= 256 || result.Failed? ==> unchanged(this)
      ensures !closed && !suspended && |old(connections)| < 256 && !result.Failed? ==> replies == old(replies) + [id]
    {
      hide Tables, Ids;
      if closed || suspended {
        return;
      }
      if |connections| >= MAX_PENDING_HANDSHAKES {
        return;
      }
      if result.Failed? {
        return;
      }
      replies := replies + [id];
      if result.Rejected? {
        return;
      }
      if result.openClient {
        OnSocket(id);
        return;
      }
      Store(id, noise, result.stream);
    }

    method Store(id: nat, noise: bytes, stream: nat)
      requires Tables() && Ids() && id < nextId && id !in connections && id !in emitted && id !in awaiting
      requires stream !in punchStreams && |connections| < MAX_PENDING_HANDSHAKES
      modifies `connections, `dedup, `punchStreams, `timers
      ensures Tables() && Ids()
      ensures connections == old(connections)[id := Session(Some(stream))] && dedup == old(dedup)[noise := id]
      ensures punchStreams == old(punchStreams)[stream := id]
    {
      hide TablesOk, Distinct;
      StoreKeepsTables(connections, dedup, punchStreams, id, noise, stream);
      connections := connections[id := Session(Some(stream))];
      dedup := dedup[noise := id];
      punchStreams := punchStreams[stream := id];
      timers := timers + {id};
    }

    /** The loop that drops the dedup entry of a session. */
    method DropDedup(id: nat)
      requires Injective(dedup)
      modifies `dedup
      ensures dedup == Without(old(dedup), id)
    {
      var keys := dedup.Keys;
      while keys != {}
        invariant dedup == old(dedup) && keys <= dedup.Keys && forall k :: k in dedup && k !in keys ==> dedup[k] != id
        decreases keys
      {
        var k :| k in keys;
        if dedup[k] == id {
          dedup := dedup - {k};
          return;
        }
        keys := keys - {k};
      }
    }

    /** Every exit of a session ends here or does the same: all four tables forget it. */
    ghost predicate Forgotten(id: nat, c: map<nat, Session>, d: map<bytes, nat>, p: map<nat, nat>)
      reads this
    {
      && connections == c - {id}
      && timers == c.Keys - {id}
      && dedup == Without(d, id)
      && punchStreams == Without(p, id)
    }

    /** No table knows the session any more, and every other entry is still there. */
    lemma ForgottenIs(id: nat, c: map<nat, Session>, d: map<bytes, nat>, p: map<nat, nat>)
      requires Forgotten(id, c, d, p)
      ensures id !in connections && id !in timers && id !in dedup.Values && id !in punchStreams.Values
      ensures forall i :: i in c && i != id ==> i in connections && connections[i] == c[i] && i in timers
      ensures forall i :: i in connections || i in timers ==> i in c
      ensures forall k :: k in dedup ==> k in d && dedup[k] == d[k]
      ensures forall k :: k in d && d[k] != id ==> k in dedup
      ensures forall s :: s in punchStreams ==> s in p && punchStreams[s] == p[s]
      ensures forall s :: s in p && p[s] != id ==> s in punchStreams
    {
      WithoutKeepsValues(d, id);
      WithoutKeepsValues(p, id);
    }

    /** clear_session, also for a session whose stream is already gone. */
    method Erase(id: nat)
      requires Injective(dedup)
      modifies `connections, `dedup, `punchStreams, `timers
      ensures id !in old(connections) ==>
                connections == old(connections) && dedup == old(dedup) && punchStreams == old(punchStreams) &&
                  timers == old(timers)
      ensures id in old(connections) ==>
                && connections == old(connections) - {id} && timers == old(timers) - {id} &&
                   dedup == Without(old(dedup), id)
                && (var s := old(connections)[id].stream;
                    punchStreams == if s.Some? then old(punchStreams) - {s.value} else old(punchStreams))
    {
      hide Without;
      if id !in connections {
        return;
      }
      DropDedup(id);
      if connections[id].stream.Some? {
        punchStreams := punchStreams - {connections[id].stream.value};
      }
      timers := timers - {id};
      connections := connections - {id};
    }

    /** Run by the session timer and by a veto of the holepunch. */
    method ClearSession(id: nat)
      requires Valid()
      modifies `connections, `dedup, `punchStreams, `timers
      ensures Valid() && Forgotten(id, old(connections), old(dedup), old(punchStreams))
    {
      hide TablesOk, Without, Injective, Distinct;
      ghost var c := connections;
      ForgetKeepsTables(c, dedup, punchStreams, id);
      ForgottenStream(c, dedup, punchStreams, id);
      DedupIsInjective();
      if id in c {
        TablesAre(id);
      }
      Erase(id);
      assert connections == c - {id} && connections.Keys == c.Keys - {id};
      assert Tables();
      assert Ids();
    }

    lemma DedupIsInjective()
      requires Tables()
      ensures Injective(dedup)
    {
    }

    lemma TablesAre(id: nat)
      requires Tables() && id in connections
      ensures Injective(dedup) && connections[id].stream.Some? && connections[id].stream.value in punchStreams
      ensures punchStreams[connections[id].stream.value] == id
    {
    }

    lemma StreamIs(stream: nat)
      requires Tables() && stream in punchStreams
      ensures punchStreams[stream] in connections && connections[punchStreams[stream]].stream == Some(stream)
    {
    }

    /** The puncher got through: the session is taken out of the tables before it is connected. */
    method OnPuncherConnect(id: nat)
      requires Valid()
      modifies `connections, `dedup, `punchStreams, `timers, `emitted
      ensures Valid()
      ensures !closed ==> Forgotten(id, old(connections), old(dedup), old(punchStreams))
      ensures closed ==> unchanged(this)
      ensures emitted == old(emitted) + (if !closed && id in old(connections) && hasOnConnection then [id] else [])
    {
      hide TablesOk, Without, Injective, Distinct;
      if closed {
        return;
      }
      if id !in connections {
        ForgottenStream(connections, dedup, punchStreams, id);
        return;
      }
      ClearSession(id);
      OnSocket(id);
    }

    /** The client's first packet on a raw stream. */
    method OnRawStreamFirewall(stream: nat)
      requires Valid()
      modifies `connections, `dedup, `punchStreams, `timers, `emitted
      ensures Valid()
      ensures closed || stream !in old(punchStreams) ==> unchanged(this)
      ensures !closed && stream in old(punchStreams) ==>
                var id := old(punchStreams)[stream];
                Forgotten(id, old(connections), old(dedup), old(punchStreams)) &&
                  emitted == old(emitted) + (if hasOnConnection then [id] else [])
    {
      hide TablesOk, Without, Injective, Distinct;
      if closed {
        return;
      }
      if stream !in punchStreams {
        return;
      }
      var id := punchStreams[stream];
      StreamIs(stream);
      ForgetKeepsTables(connections, dedup, punchStreams, id);
      ForgottenStream(connections, dedup, punchStreams, id);
      TablesAre(id);
      punchStreams := punchStreams - {stream};
      DropDedup(id);
      timers := timers - {id};
      connections := connections - {id};
      OnSocket(id);
    }

    /** A raw stream closed without a connection. */
    method OnRawStreamClose(stream: nat)
      requires Valid()
      modifies `connections, `dedup, `punchStreams, `timers
      ensures Valid()
      ensures stream !in old(punchStreams) ==> unchanged(this)
      ensures stream in old(punchStreams) ==>
                Forgotten(old(punchStreams)[stream], old(connections), old(dedup), old(punchStreams))
    {
      hide TablesOk, Without, Injective, Distinct;
      if stream !in punchStreams {
        return;
      }
      var id := punchStreams[stream];
      StreamIs(stream);
      ForgetKeepsTables(connections, dedup, punchStreams, id);
      ForgottenStream(connections, dedup, punchStreams, id);
      TablesAre(id);
      punchStreams := punchStreams - {stream};
      ghost var c := connections;
      connections := connections[id := Session(None)];
      Erase(id);
      assert connections == c - {id};
    }

    lemma EmptyTables()
      ensures TablesOk(map[], map[], map[])
    {
    }

    method Clear()
      requires Ids()
      modifies `connections, `dedup, `punchStreams, `timers
      ensures Tables() && Ids() && connections == map[] && dedup == map[] && punchStreams == map[] && timers == {}
    {
      hide TablesOk;
      EmptyTables();
      timers, punchStreams, connections, dedup := {}, map[], map[], map[];
    }

    method Close()
      requires Valid()
      modifies `closed, `connections, `dedup, `punchStreams, `timers
      ensures Valid() && closed && connections == map[] && dedup == map[] && punchStreams == map[]
    {
      if closed {
        NoneLeft();
        return;
      }
      closed := true;
      Clear();
    }

    lemma NoneLeft()
      requires Valid() && connections == map[]
      ensures dedup == map[] && punchStreams == map[]
    {
      assert forall k :: k !in dedup;
      assert forall s :: s !in punchStreams;
    }

    method Suspend()
      requires Valid()
      modifies `suspended, `connections, `dedup, `punchStreams, `timers
      ensures Valid() && suspended
      ensures old(suspended) ==> unchanged(this)
      ensures !old(suspended) ==> connections == map[] && dedup == map[] && punchStreams == map[] && timers == {}
    {
      if suspended {
        return;
      }
      suspended := true;
      Clear();
    }

    method Resume()
      requires Valid()
      modifies `suspended
      ensures Valid() && !suspended
    {
      suspended := false;
    }

    /** Each session leads to at most one connection, and never to one while it is still waiting. */
    lemma EmittedAtMostOnce(i: nat, j: nat)
      requires Valid() && i < |emitted| && j < |emitted| && emitted[i] == emitted[j]
      ensures i == j && emitted[i] !in connections && emitted[i] !in awaiting
    {
    }
  }

  // ------------------------------------------------------------------------------------------
  // Handshakes that are not recognised as repeated
  // ------------------------------------------------------------------------------------------

  method Pending(noise: bytes) returns (server: Server)
    ensures fresh(server) && server.Valid() && !server.closed && !server.suspended
    ensures server.connections == map[] && server.punchStreams == map[] && server.replies == []
    ensures server.awaiting == map[1 := noise, 2 := noise]
  {
    hide Server.Tables, Server.Ids;
    server := new Server(true);
    server.OnPeerHandshake(noise, true, Deferred);
    server.OnPeerHandshake(noise, true, Deferred);
  }

  /** A handshake that comes again while the decision on the first is awaited gets a session of its own. */
  method RepeatedWhilePending(noise: bytes, a: nat, b: nat) returns (server: Server)
    requires a != b
    ensures fresh(server) && server.Valid()
    ensures server.connections == map[1 := Session(Some(a)), 2 := Session(Some(b))] && server.replies == [1, 2]
  {
    hide Server.Tables, Server.Ids;
    server := Pending(noise);
    server.OnFirewallDecision(1, Accepted(false, a));
    assert server.connections == map[1 := Session(Some(a))] && server.punchStreams == map[a := 1];
    assert |server.connections| == 1 && server.awaiting == map[2 := noise];
    server.OnFirewallDecision(2, Accepted(false, b));
  }

  /** A handshake of a client that is reachable directly is never remembered: it is connected each time. */
  method RepeatedByOpenClient(noise: bytes, a: nat, b: nat) returns (server: Server)
    ensures fresh(server) && server.Valid() && server.emitted == [1, 2] && server.dedup == map[]
  {
    hide Server.Tables, Server.Ids;
    server := new Server(true);
    server.OnPeerHandshake(noise, true, Immediate(Accepted(true, a)));
    server.OnPeerHandshake(noise, true, Immediate(Accepted(true, b)));
  }
}
