/** The two-pass encoders and the readers of the storage and lookup messages (src/dht_messages.cpp:77-320). */
module DhtCodec {
  import opened Wrappers
  import opened Bytes
  import opened Varints
  import opened Addresses
  import opened Compact
  import opened Messages
  import opened Fields
  import opened MessageCodec

  // ------------------------------------------------------------------------------------------
  // Peer records
  // ------------------------------------------------------------------------------------------

  method PreRecord(s: State, p: PeerRecord)
    requires RecordOk(p)
    modifies s`end
    ensures s.end == old(s.end) + |EncRecord(p)|
  {
    hide Varint, EncAll;
    s.PreSize(32);
    s.PreV4s(p.relays);
  }

  method PutRecord(s: State, p: PeerRecord, ghost rest: bytes, ghost whole: bytes)
    requires RecordOk(p) && Pending(s, EncRecord(p) + rest, whole)
    modifies s`start, s`error, s.buffer
    ensures Pending(s, rest, whole) && s.buffer == old(s.buffer)
  {
    hide Varint, EncAll;
    ghost var t := EncArray(EncV4, p.relays) + rest;
    assert EncRecord(p) + rest == p.publicKey + t;
    PutFixed(s, p.publicKey, t, whole);
    PutAddresses(s, p.relays, rest, whole);
  }

  method GetRecord(s: State) returns (p: PeerRecord)
    requires s.Reading() && !s.error
    modifies s`start, s`error
    ensures Took(s, old(DecRecord(s.Rest())), p) && p == old(RecordFields(s.Rest())).0
  {
    hide DecFixed, DecArray, ArrayPart;
    p := PeerRecord(Zeros(32), []);
    var publicKey := s.GetFixed(32);
    p := p.(publicKey := publicKey);
    if s.error {
      return;
    }
    var relays := s.GetV4s();
    p := p.(relays := relays);
  }

  /** encode_peer_record: both passes. */
  method WriteRecord(p: PeerRecord) returns (message: bytes)
    requires RecordOk(p)
    ensures message == EncRecord(p)
    ensures forall rest: bytes :: DecRecord(message + rest) == Some((p, rest))
  {
    hide EncRecord;
    var s := new State();
    PreRecord(s, p);
    s.Allocate();
    ghost var whole := EncRecord(p);
    NothingWritten(s, whole);
    assert EncRecord(p) + [] == whole;
    PutRecord(s, p, [], whole);
    AllWritten(s, whole);
    message := s.buffer[..];
    RecordTrips(p);
  }

  /** decode_peer_record. */
  method ReadRecord(data: bytes) returns (p: PeerRecord)
    ensures p == RecordFields(data).0
    ensures DecRecord(data).Some? ==> p == DecRecord(data).value.0
  {
    RecordFieldsAre(data);
    hide DecRecord, RecordFields;
    var s := new State.ForDecode(data);
    p := GetRecord(s);
  }

  // ------------------------------------------------------------------------------------------
  // Announcements
  // ------------------------------------------------------------------------------------------

  /** The first pass of encode_announce_msg. */
  method PreAnnounce(s: State, m: Announce)
    requires (m.peer.Some? ==> RecordOk(m.peer.value)) && IdOk(m.refresh) &&
              (m.signature.Some? ==> |m.signature.value| == 64)
    modifies s`end
    ensures s.end == old(s.end) + |EncodeAnnounce(m)|
  {
    hide Varint, EncRecord, Flags;
    s.PreUint(Flags(m.peer.Some?, m.refresh.Some?, m.signature.Some?, m.bump > 0, false, false, false));
    if m.peer.Some? {
      PreRecord(s, m.peer.value);
    }
    if m.refresh.Some? {
      s.PreSize(32);
    }
    if m.signature.Some? {
      s.PreSize(64);
    }
    if m.bump > 0 {
      s.PreUint(m.bump);
    }
  }

  /** encode_announce_msg: both passes. */
  method WriteAnnounce(m: Announce) returns (message: bytes)
    requires (m.peer.Some? ==> RecordOk(m.peer.value)) && IdOk(m.refresh) &&
              (m.signature.Some? ==> |m.signature.value| == 64)
    ensures message == EncodeAnnounce(m)
    ensures DecodeAnnounce(message) == Some(m)
  {
    hide Varint, EncRecord, EncOpt, Flags, DecodeAnnounce;
    var s := new State();
    PreAnnounce(s, m);
    s.Allocate();
    ghost var whole := EncodeAnnounce(m);
    NothingWritten(s, whole);
    var flags := Flags(m.peer.Some?, m.refresh.Some?, m.signature.Some?, m.bump > 0, false, false, false);
    ghost var t4 := if m.bump > 0 then Varint(m.bump) else [];
    ghost var t3 := EncOpt(EncFixed, m.signature) + t4;
    ghost var t2 := EncOpt(EncFixed, m.refresh) + t3;
    PutUint(s, flags, EncOpt(EncRecord, m.peer) + t2, whole);
    PutOptRecord(s, m.peer, t2, whole);
    PutOptional(s, m.refresh, t3, whole);
    PutOptional(s, m.signature, t4, whole);
    if m.bump > 0 {
      assert t4 == Varint(m.bump) + [];
      PutUint(s, m.bump, [], whole);
    }
    AllWritten(s, whole);
    message := s.buffer[..];
    AnnounceTrip(m);
  }

  method PutOptRecord(s: State, p: Option<PeerRecord>, ghost rest: bytes, ghost whole: bytes)
    requires (p.Some? ==> RecordOk(p.value)) && Pending(s, EncOpt(EncRecord, p) + rest, whole)
    modifies s`start, s`error, s.buffer
    ensures Pending(s, rest, whole) && s.buffer == old(s.buffer)
  {
    hide EncRecord;
    if p.Some? {
      PutRecord(s, p.value, rest, whole);
    } else {
      assert EncOpt(EncRecord, p) + rest == rest;
    }
  }

  method GetOptRecord(s: State, present: bool) returns (p: Option<PeerRecord>)
    requires s.Reading() && !s.error
    modifies s`start, s`error
    ensures Took(s, old(DecOpt(DecRecord, present, s.Rest())), p)
  {
    hide DecRecord;
    p := None;
    if present {
      var x := GetRecord(s);
      p := Some(x);
    }
  }

  method GetOptBump(s: State, present: bool) returns (v: Option<nat>)
    requires s.Reading() && !s.error
    modifies s`start, s`error
    ensures Took(s, old(DecOpt(DecUint, present, s.Rest())), v)
  {
    hide DecUint;
    v := None;
    if present {
      var x := s.GetUint();
      v := Some(x);
    }
  }

  /** decode_announce_msg. */
  method ReadAnnounce(data: bytes) returns (m: Announce)
    ensures m == AnnounceFields(data)
    ensures DecodeAnnounce(data).Some? ==> m == DecodeAnnounce(data).value
  {
    AnnounceFieldsAre(data);
    hide DecUint, DecOpt, Has, DecodeAnnounce;
    var s := new State.ForDecode(data);
    m := Announce(None, None, None, 0);
    var flags := s.GetUint();
    if s.error || flags > 0xFF {
      return;
    }
    var peer := GetOptRecord(s, Has(flags, 1));
    if s.error {
      return;
    }
    m := m.(peer := peer);
    var refresh := GetOptional(s, Has(flags, 2));
    m := m.(refresh := refresh);
    if s.error {
      return;
    }
    var signature := GetOptSignature(s, Has(flags, 4));
    m := m.(signature := signature);
    if s.error {
      return;
    }
    var bump := GetOptBump(s, Has(flags, 8));
    if s.error {
      return;
    }
    m := m.(bump := if bump.Some? then bump.value % 0x1_0000_0000_0000_0000 else 0);
  }

  // ------------------------------------------------------------------------------------------
  // Mutable values
  // ------------------------------------------------------------------------------------------

  /** encode_mutable_put: both passes. */
  method WritePut(m: MutablePut) returns (message: bytes)
    requires |m.publicKey| == 32 && |m.signature| == 64
    ensures message == EncodePut(m)
    ensures DecodePut(message) == Some(m)
  {
    hide Varint, EncBuffer;
    var s := new State();
    s.PreSize(32);
    s.PreUint(m.sequence);
    s.PreBuffer(m.value);
    s.PreSize(64);
    s.Allocate();
    ghost var whole := EncodePut(m);
    NothingWritten(s, whole);
    ghost var t3 := m.signature + [];
    assert m.signature == t3;
    ghost var t2 := EncBuffer(m.value) + t3;
    PutFixed(s, m.publicKey, Varint(m.sequence) + t2, whole);
    PutUint(s, m.sequence, t2, whole);
    PutBuffer(s, m.value, t3, whole);
    PutFixed(s, m.signature, [], whole);
    AllWritten(s, whole);
    message := s.buffer[..];
    PutTrip(m);
  }

  /** decode_mutable_put. */
  method ReadPut(data: bytes) returns (m: MutablePut)
    ensures m == PutFields(data)
  {
    hide DecUint, DecBuffer, DecFixed;
    var s := new State.ForDecode(data);
    m := MutablePut(Zeros(32), 0, [], Zeros(64));
    var publicKey := s.GetFixed(32);
    m := m.(publicKey := publicKey);
    if s.error {
      return;
    }
    var sequence := s.GetUint();
    m := m.(sequence := sequence % 0x1_0000_0000_0000_0000);
    if s.error {
      return;
    }
    var value := GetSmall(s);
    if s.error {
      return;
    }
    m := m.(value := value);
    var signature := s.GetFixed(64);
    m := m.(signature := signature);
  }

  /** encode_mutable_get_resp: both passes. */
  method WriteGet(m: MutableGet) returns (message: bytes)
    requires |m.value| < 0x1_0000_0000_0000_0000
    ensures message == EncodeGet(m)
    ensures |m.signature| == 64 ==> DecodeGet(message) == if |m.value| <= MAX_BUFFER_DECODE then Some(m) else None
  {
    hide Varint, EncBuffer;
    var s := new State();
    s.PreUint(m.sequence);
    s.PreBuffer(m.value);
    s.PreSize(|m.signature|);
    s.Allocate();
    ghost var whole := EncodeGet(m);
    NothingWritten(s, whole);
    ghost var t2 := m.signature + [];
    assert m.signature == t2;
    PutUint(s, m.sequence, EncBuffer(m.value) + t2, whole);
    PutBuffer(s, m.value, t2, whole);
    PutFixed(s, m.signature, [], whole);
    AllWritten(s, whole);
    message := s.buffer[..];
    if |m.signature| == 64 {
      GetTripIffSmall(m);
    }
  }

  /** decode_mutable_get_resp. */
  method ReadGet(data: bytes) returns (m: MutableGet)
    ensures m == GetFields(data)
  {
    hide DecUint, DecBuffer, DecFixed;
    var s := new State.ForDecode(data);
    m := MutableGet(0, [], Zeros(64));
    var sequence := s.GetUint();
    m := m.(sequence := sequence % 0x1_0000_0000_0000_0000);
    if s.error {
      return;
    }
    var value := s.GetBuffer();
    if s.error {
      return;
    }
    m := m.(value := value);
    var signature := s.GetFixed(64);
    m := m.(signature := signature);
  }

  // ------------------------------------------------------------------------------------------
  // Lookup replies
  // ------------------------------------------------------------------------------------------

  /** The counting loop over the records. */
  method PreRecords(s: State, peers: seq<Small>)
    modifies s`end
    ensures s.end == old(s.end) + |EncPeers(peers)|
  {
    hide EncBuffer;
    var i := 0;
    while i < |peers|
      invariant i <= |peers| && s.end == old(s.end) + |EncPeers(peers[..i])|
    {
      EncAllAppend(EncSmall, peers, i);
      s.PreBuffer(peers[i]);
      i := i + 1;
    }
    assert peers[..i] == peers;
  }

  /** The writing loop over the records. */
  method PutRecords(s: State, peers: seq<Small>, ghost rest: bytes, ghost whole: bytes)
    requires Pending(s, EncPeers(peers) + rest, whole)
    modifies s`start, s`error, s.buffer
    ensures Pending(s, rest, whole) && s.buffer == old(s.buffer)
  {
    hide EncBuffer;
    var i := 0;
    while i < |peers|
      invariant i <= |peers| && Pending(s, EncPeers(peers[i..]) + rest, whole) && s.buffer == old(s.buffer)
    {
      assert peers[i..][1..] == peers[i + 1..];
      assert EncPeers(peers[i..]) + rest == EncBuffer(peers[i]) + (EncPeers(peers[i + 1..]) + rest);
      PutBuffer(s, peers[i], EncPeers(peers[i + 1..]) + rest, whole);
      i := i + 1;
    }
    assert EncPeers(peers[i..]) + rest == rest;
  }

  /** encode_lookup_reply: both passes. */
  method WriteLookup(peers: seq<Small>, bump: u64) returns (message: bytes)
    requires |peers| <= MAX_LOOKUP
    ensures message == EncodeLookup(peers, bump)
    ensures DecodeLookup(message) == Lookup(NonEmpty(peers), bump)
  {
    hide Varint, EncPeers, DecodeLookup;
    var s := new State();
    s.PreUint(|peers|);
    PreRecords(s, peers);
    s.PreUint(bump);
    s.Allocate();
    ghost var whole := EncodeLookup(peers, bump);
    NothingWritten(s, whole);
    ghost var t2 := Varint(bump) + [];
    assert Varint(bump) == t2;
    PutUint(s, |peers|, EncPeers(peers) + t2, whole);
    PutRecords(s, peers, t2, whole);
    PutUint(s, bump, [], whole);
    AllWritten(s, whole);
    message := s.buffer[..];
    LookupTrip(peers, bump);
  }

  /** The reading loop: empty records are dropped, and an error ends it with what was read so far. */
  method GetRecords(s: State, count: nat) returns (peers: seq<bytes>)
    requires s.Reading() && !s.error
    modifies s`start, s`error
    ensures s.Reading()
    ensures var (p, left) := old(ReadPeers(count, s.Rest()));
            peers == p && (if left.Some? then !s.error && s.Rest() == left.value else s.error)
  {
    hide DecBuffer, ReadPeers;
    peers := [];
    ghost var b := s.Rest();
    ghost var all := ReadPeers(count, b);
    assert [] + all.0 == all.0;
    var i := 0;
    while i < count
      invariant s.Reading() && !s.error && i <= count
      invariant var r := ReadPeers(count - i, s.Rest()); all == (peers + r.0, r.1)
    {
      RecordStep(peers, count - i, s.Rest());
      var peer := s.GetBuffer();
      if s.error {
        assert peers + [] == peers;
        return;
      }
      if peer != [] {
        peers := peers + [peer];
      }
      i := i + 1;
    }
    NoRecords(s.Rest());
    assert peers + [] == peers;
  }

  lemma NoRecords(b: bytes)
    ensures ReadPeers(0, b) == ([], Some(b))
  {
  }

  lemma RecordStep(peers: seq<bytes>, n: nat, b: bytes)
    requires n > 0
    ensures var r := ReadPeers(n, b);
            match DecBuffer(b)
            case None => r == ([], None)
            case Some((peer, rest)) =>
              var t := ReadPeers(n - 1, rest);
              r.1 == t.1 && peers + r.0 == (if peer == [] then peers else peers + [peer]) + t.0
  {
    hide DecBuffer;
  }

  /** decode_lookup_reply. The bump is optional. */
  method ReadLookup(data: bytes) returns (r: Lookup)
    ensures r == DecodeLookup(data)
  {
    hide DecUint, ReadPeers;
    var s := new State.ForDecode(data);
    r := Lookup([], 0);
    var count := s.GetUint();
    if s.error || count > MAX_LOOKUP {
      return;
    }
    ghost var all := ReadPeers(count, s.Rest());
    var peers := GetRecords(s, count);
    r := Lookup(peers, 0);
    assert peers == all.0 && all.1.Some? == !s.error;
    if s.error {
      assert DecodeLookup(data) == r;
      return;
    }
    NoNumber(s.Rest());
    assert s.start == s.end ==> s.Rest() == [];
    if s.start < s.end {
      var bump := s.GetUint();
      if !s.error {
        r := Lookup(peers, bump % 0x1_0000_0000_0000_0000);
      }
    }
  }

  lemma NoNumber(b: bytes)
    ensures b == [] ==> DecUint(b) == None
  {
  }
}
