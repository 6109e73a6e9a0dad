/** The two-pass encoders and the readers of the handshake payload and its wrapper
    (src/peer_connect.cpp:56-295) and of the holepunch messages (src/holepunch.cpp:155-229, 1125-1173). */
module HandshakeCodec {
  import opened Wrappers
  import opened Bytes
  import opened Varints
  import opened Addresses
  import opened Compact
  import opened Messages
  import opened Fields
  import opened MessageCodec

  // ------------------------------------------------------------------------------------------
  // Relays of a holepunch section
  // ------------------------------------------------------------------------------------------

  /** The counting loop over the relays. */
  method PreRelays(s: State, relays: seq<RelayInfo>)
    requires forall r :: r in relays ==> r.relay.Valid() && r.peer.Valid()
    modifies s`end
    ensures s.end == old(s.end) + |EncAll(EncRelay, relays)|
  {
    var i := 0;
    while i < |relays|
      invariant i <= |relays| && s.end == old(s.end) + |EncAll(EncRelay, relays[..i])|
    {
      RelaySize(relays[i]);
      EncAllAppend(EncRelay, relays, i);
      s.PreSize(6);
      s.PreSize(6);
      i := i + 1;
    }
    assert relays[..i] == relays;
  }

  lemma RelaySize(r: RelayInfo)
    requires r.relay.Valid() && r.peer.Valid()
    ensures |EncRelay(r)| == 12
  {
  }

  /** The writing loop over the relays. */
  method PutRelays(s: State, relays: seq<RelayInfo>, ghost rest: bytes, ghost whole: bytes)
    requires (forall r :: r in relays ==> r.relay.Valid() && r.peer.Valid()) &&
              Pending(s, EncAll(EncRelay, relays) + rest, whole)
    modifies s`start, s`error, s.buffer
    ensures Pending(s, rest, whole) && s.buffer == old(s.buffer)
  {
    hide EncV4;
    var i := 0;
    while i < |relays|
      invariant i <= |relays| && Pending(s, EncAll(EncRelay, relays[i..]) + rest, whole) && s.buffer == old(s.buffer)
    {
      ghost var tail := EncAll(EncRelay, relays[i + 1..]) + rest;
      FirstRelay(relays[i..], rest);
      assert relays[i..][1..] == relays[i + 1..];
      PutAddress(s, relays[i].relay, EncV4(relays[i].peer) + tail, whole);
      PutAddress(s, relays[i].peer, tail, whole);
      i := i + 1;
    }
    assert EncAll(EncRelay, relays[i..]) + rest == rest;
  }

  lemma FirstRelay(relays: seq<RelayInfo>, rest: bytes)
    requires relays != []
    ensures EncAll(EncRelay, relays) + rest ==
            EncV4(relays[0].relay) + (EncV4(relays[0].peer) + (EncAll(EncRelay, relays[1..]) + rest))
  {
    hide EncV4, EncAll;
    RelaysAre(relays);
    Grouped(EncV4(relays[0].relay), EncV4(relays[0].peer), EncAll(EncRelay, relays[1..]), rest);
  }

  lemma RelaysAre(relays: seq<RelayInfo>)
    requires relays != []
    ensures EncAll(EncRelay, relays) == EncV4(relays[0].relay) + EncV4(relays[0].peer) + EncAll(EncRelay, relays[1..])
  {
  }

  lemma Grouped(a: bytes, b: bytes, c: bytes, d: bytes)
    ensures a + b + c + d == a + (b + (c + d))
  {
  }

  /** The reading loop, with an error in the middle of a relay or between two. */
  method GetRelays(s: State, count: nat) returns (relays: seq<RelayInfo>)
    requires s.Reading() && !s.error
    modifies s`start, s`error
    ensures Took(s, old(DecAll(DecRelay, count, s.Rest())), relays)
  {
    hide DecV4, Prepend;
    relays := [];
    ghost var b := s.Rest();
    PrependNothing(DecAll(DecRelay, count, b));
    var i := 0;
    while i < count
      invariant s.Reading() && !s.error && i <= count
      invariant DecAll(DecRelay, count, b) == Prepend(relays, DecAll(DecRelay, count - i, s.Rest()))
    {
      PrependStep(DecRelay, relays, count - i, s.Rest());
      var relay := s.GetV4();
      if s.error {
        return;
      }
      var peer := s.GetV4();
      if s.error {
        return;
      }
      relays := relays + [RelayInfo(relay, peer)];
      i := i + 1;
    }
    PrependEnd(DecRelay, relays, s.Rest());
  }

  // ------------------------------------------------------------------------------------------
  // Sections of the handshake payload
  // ------------------------------------------------------------------------------------------

  method PreHolepunch(s: State, h: Option<HolepunchInfo>)
    requires h.Some? ==> HolepunchOk(h.value)
    modifies s`end
    ensures s.end == old(s.end) + |EncOpt(EncHolepunch, h)|
  {
    hide Varint, EncAll;
    if h.Some? {
      s.PreUint(h.value.id);
      s.PreUint(|h.value.relays|);
      PreRelays(s, h.value.relays);
    }
  }

  method PreUdx(s: State, u: Option<UdxInfo>)
    modifies s`end
    ensures s.end == old(s.end) + |EncOpt(EncUdx, u)|
  {
    hide Varint;
    if u.Some? {
      s.PreUint(u.value.version);
      s.PreUint(if u.value.reusable then 1 else 0);
      s.PreUint(u.value.id);
      s.PreUint(u.value.sequence);
    }
  }

  method PreThrough(s: State, r: Option<RelayThrough>)
    requires r.Some? ==> |r.value.publicKey| == 32 && |r.value.token| == 32
    modifies s`end
    ensures s.end == old(s.end) + |EncOpt(EncThrough, r)|
  {
    hide Varint;
    if r.Some? {
      s.PreUint(r.value.version);
      s.PreUint(0);
      s.PreSize(32);
      s.PreSize(32);
    }
  }

  method PutHolepunch(s: State, h: Option<HolepunchInfo>, ghost rest: bytes, ghost whole: bytes)
    requires (h.Some? ==> HolepunchOk(h.value)) && Pending(s, EncOpt(EncHolepunch, h) + rest, whole)
    modifies s`start, s`error, s.buffer
    ensures Pending(s, rest, whole) && s.buffer == old(s.buffer)
  {
    hide Varint, EncRelay;
    if h.Some? {
      ghost var t1 := EncAll(EncRelay, h.value.relays) + rest;
      ghost var t0 := Varint(|h.value.relays|) + t1;
      assert EncHolepunch(h.value) + rest == Varint(h.value.id) + t0;
      PutUint(s, h.value.id, t0, whole);
      PutUint(s, |h.value.relays|, t1, whole);
      PutRelays(s, h.value.relays, rest, whole);
    } else {
      assert EncOpt(EncHolepunch, h) + rest == rest;
    }
  }

  method PutUdx(s: State, u: Option<UdxInfo>, ghost rest: bytes, ghost whole: bytes)
    requires Pending(s, EncOpt(EncUdx, u) + rest, whole)
    modifies s`start, s`error, s.buffer
    ensures Pending(s, rest, whole) && s.buffer == old(s.buffer)
  {
    hide Varint;
    if u.Some? {
      ghost var t2 := Varint(u.value.sequence) + rest;
      ghost var t1 := Varint(u.value.id) + t2;
      ghost var t0 := Varint(Bit(u.value.reusable)) + t1;
      assert EncUdx(u.value) + rest == Varint(u.value.version) + t0;
      PutUint(s, u.value.version, t0, whole);
      PutUint(s, if u.value.reusable then 1 else 0, t1, whole);
      PutUint(s, u.value.id, t2, whole);
      PutUint(s, u.value.sequence, rest, whole);
    } else {
      assert EncOpt(EncUdx, u) + rest == rest;
    }
  }

  method PutSecretStream(s: State, secret: bool, ghost rest: bytes, ghost whole: bytes)
    requires Pending(s, (if secret then Varint(1) else []) + rest, whole)
    modifies s`start, s`error, s.buffer
    ensures Pending(s, rest, whole) && s.buffer == old(s.buffer)
  {
    hide Varint;
    if secret {
      PutUint(s, 1, rest, whole);
    } else {
      assert [] + rest == rest;
    }
  }

  method PutThrough(s: State, r: Option<RelayThrough>, ghost rest: bytes, ghost whole: bytes)
    requires Pending(s, EncOpt(EncThrough, r) + rest, whole)
    modifies s`start, s`error, s.buffer
    ensures Pending(s, rest, whole) && s.buffer == old(s.buffer)
  {
    hide Varint;
    if r.Some? {
      ghost var t2 := r.value.token + rest;
      ghost var t1 := r.value.publicKey + t2;
      ghost var t0 := Varint(0) + t1;
      assert EncThrough(r.value) + rest == Varint(r.value.version) + t0;
      PutUint(s, r.value.version, t0, whole);
      PutUint(s, 0, t1, whole);
      PutFixed(s, r.value.publicKey, t2, whole);
      PutFixed(s, r.value.token, rest, whole);
    } else {
      assert EncOpt(EncThrough, r) + rest == rest;
    }
  }

  method GetHolepunch(s: State, present: bool) returns (v: Option<HolepunchInfo>)
    requires s.Reading() && !s.error
    modifies s`start, s`error
    ensures Took(s, old(DecOpt(DecHolepunch, present, s.Rest())), v)
  {
    hide DecUint, DecAll;
    v := None;
    if !present {
      return;
    }
    var id := s.GetUint();
    if s.error {
      return;
    }
    var count := s.GetUint();
    if s.error {
      return;
    }
    if U32(count) > MAX_RELAYS {
      s.error := true;
      return;
    }
    var relays := GetRelays(s, U32(count));
    if s.error {
      return;
    }
    v := Some(HolepunchInfo(U32(id), relays));
  }

  method GetUdx(s: State, present: bool) returns (v: Option<UdxInfo>)
    requires s.Reading() && !s.error
    modifies s`start, s`error
    ensures Took(s, old(DecOpt(DecUdx, present, s.Rest())), v)
  {
    hide DecUint, Has;
    v := None;
    if !present {
      return;
    }
    var version := s.GetUint();
    if s.error {
      return;
    }
    var features := s.GetUint();
    if s.error {
      return;
    }
    var id := s.GetUint();
    if s.error {
      return;
    }
    var sequence := s.GetUint();
    if s.error {
      return;
    }
    v := Some(UdxInfo(U32(version), Has(U32(features), 1), U32(id), U32(sequence)));
  }

  method GetSecretStream(s: State, present: bool) returns (v: Option<nat>)
    requires s.Reading() && !s.error
    modifies s`start, s`error
    ensures Took(s, old(DecOpt(DecUint, present, s.Rest())), v)
  {
    hide DecUint;
    v := None;
    if !present {
      return;
    }
    var version := s.GetUint();
    v := Some(version);
  }

  method GetThrough(s: State, present: bool) returns (v: Option<RelayThrough>)
    requires s.Reading() && !s.error
    modifies s`start, s`error
    ensures Took(s, old(DecOpt(DecThrough, present, s.Rest())), v)
  {
    hide DecUint, DecFixed;
    v := None;
    if !present {
      return;
    }
    var version := s.GetUint();
    if s.error {
      return;
    }
    var reserved := s.GetUint();
    if s.error {
      return;
    }
    var publicKey := s.GetFixed(32);
    if s.error {
      return;
    }
    var token := s.GetFixed(32);
    if s.error {
      return;
    }
    v := Some(RelayThrough(U32(version), publicKey, token));
  }

  // ------------------------------------------------------------------------------------------
  // The handshake payload
  // ------------------------------------------------------------------------------------------

  /** The first pass of encode_noise_payload. */
  method PrePayload(s: State, p: NoisePayload)
    requires SectionsOk(p)
    modifies s`end
    ensures s.end == old(s.end) + |EncodePayload(p)|
  {
    hide Varint, EncArray, EncOpt, Flags;
    s.PreUint(p.version);
    s.PreUint(PayloadFlags(p));
    s.PreUint(p.error);
    s.PreUint(p.firewall);
    PreHolepunch(s, p.holepunch);
    if p.addresses4 != [] {
      s.PreV4s(p.addresses4);
    }
    if p.addresses6 != [] {
      s.PreV6s(p.addresses6);
    }
    PreUdx(s, p.udx);
    if p.secretStream {
      s.PreUint(1);
    }
    PreThrough(s, p.relayThrough);
    if p.relayAddresses != [] {
      s.PreV4s(p.relayAddresses);
    }
  }

  /** encode_noise_payload: both passes. */
  method WritePayload(p: NoisePayload) returns (message: bytes)
    requires SectionsOk(p)
    ensures message == EncodePayload(p)
    ensures p.version == 1 ==> DecodePayload(message) == Some(p)
  {
    hide Varint, EncOpt, EncList, Flags, DecodePayload;
    var s := new State();
    PrePayload(s, p);
    s.Allocate();
    ghost var whole := EncodePayload(p);
    NothingWritten(s, whole);
    ghost var t9 := EncList(EncV4, p.relayAddresses) + [];
    assert EncList(EncV4, p.relayAddresses) == t9;
    ghost var t8 := EncOpt(EncThrough, p.relayThrough) + t9;
    ghost var t7 := (if p.secretStream then Varint(1) else []) + t8;
    ghost var t6 := EncOpt(EncUdx, p.udx) + t7;
    ghost var t5 := EncList(EncV6, p.addresses6) + t6;
    ghost var t4 := EncList(EncV4, p.addresses4) + t5;
    ghost var t3 := EncOpt(EncHolepunch, p.holepunch) + t4;
    ghost var t2 := Varint(p.firewall) + t3;
    ghost var t1 := Varint(p.error) + t2;
    PutUint(s, p.version, Varint(PayloadFlags(p)) + t1, whole);
    PutUint(s, PayloadFlags(p), t1, whole);
    PutUint(s, p.error, t2, whole);
    PutUint(s, p.firewall, t3, whole);
    PutHolepunch(s, p.holepunch, t4, whole);
    PutSomeAddresses(s, p.addresses4, t5, whole);
    PutSomeAddresses6(s, p.addresses6, t6, whole);
    PutUdx(s, p.udx, t7, whole);
    PutSecretStream(s, p.secretStream, t8, whole);
    PutThrough(s, p.relayThrough, t9, whole);
    PutSomeAddresses(s, p.relayAddresses, [], whole);
    AllWritten(s, whole);
    message := s.buffer[..];
    if p.version == 1 {
      PayloadTrip(p);
    }
  }

  /** The last four sections. */
  method GetLinks(s: State, flags: u32, p: NoisePayload) returns (r: NoisePayload)
    requires s.Reading() && !s.error
    modifies s`start, s`error
    ensures r == LinkFields(flags, p, old(s.Rest()))
  {
    hide DecUint, DecOpt, DecList, ListPart, Has;
    r := p;
    var udx := GetUdx(s, Has(flags, 8));
    if s.error {
      return;
    }
    r := r.(udx := udx);
    var secret := GetSecretStream(s, Has(flags, 16));
    if s.error {
      return;
    }
    r := r.(secretStream := secret.Some?);
    var through := GetThrough(s, Has(flags, 32));
    if s.error {
      return;
    }
    r := r.(relayThrough := through);
    var relays := GetSomeAddresses(s, Has(flags, 64));
    r := r.(relayAddresses := relays);
  }

  /** The three sections before those. */
  method GetAddresses(s: State, flags: u32, p: NoisePayload) returns (r: NoisePayload)
    requires s.Reading() && !s.error
    modifies s`start, s`error
    ensures r == AddressFields(flags, p, old(s.Rest()))
  {
    hide DecUint, DecOpt, DecList, ListPart, Has, LinkFields;
    r := p;
    var holepunch := GetHolepunch(s, Has(flags, 1));
    if s.error {
      return;
    }
    r := r.(holepunch := holepunch);
    ListPartIs(DecV4, NO_ADDRESS, Has(flags, 2), s.Rest());
    var addresses4 := GetSomeAddresses(s, Has(flags, 2));
    r := r.(addresses4 := addresses4);
    if s.error {
      return;
    }
    ListPartIs(DecV6, NO_ADDRESS6, Has(flags, 4), s.Rest());
    var addresses6 := GetSomeAddresses6(s, Has(flags, 4));
    r := r.(addresses6 := addresses6);
    if s.error {
      return;
    }
    r := GetLinks(s, flags, r);
  }

  /** decode_noise_payload. */
  method ReadPayload(data: bytes) returns (p: NoisePayload)
    ensures p == PayloadFields(data)
    ensures DecodePayload(data).Some? ==> p == DecodePayload(data).value
  {
    PayloadFieldsAre(data);
    hide DecUint, DecodePayload, AddressFields;
    var s := new State.ForDecode(data);
    p := NO_PAYLOAD;
    var version := s.GetUint();
    p := p.(version := U32(version));
    if s.error || p.version != 1 {
      p := p.(error := ERROR_VERSION_MISMATCH);
      return;
    }
    var flags := s.GetUint();
    if s.error {
      return;
    }
    var error := s.GetUint();
    p := p.(error := U32(error));
    if s.error {
      return;
    }
    var firewall := s.GetUint();
    p := p.(firewall := U32(firewall));
    if s.error {
      return;
    }
    p := GetAddresses(s, U32(flags), p);
  }

  // ------------------------------------------------------------------------------------------
  // The handshake wrapper
  // ------------------------------------------------------------------------------------------

  /** encode_handshake_msg: both passes. */
  method WriteHandshake(m: HandshakeMessage) returns (message: bytes)
    requires AddressOk(m.peer) && AddressOk(m.relay)
    ensures message == EncodeHandshake(m)
    ensures DecodeHandshake(message) == Some(m)
  {
    hide Varint, EncBuffer, EncOpt, DecodeHandshake;
    var s := new State();
    PreHandshake(s, m);
    s.Allocate();
    ghost var whole := EncodeHandshake(m);
    NothingWritten(s, whole);
    ghost var t4 := EncOpt(EncV4, m.relay) + [];
    assert EncOpt(EncV4, m.relay) == t4;
    ghost var t3 := EncOpt(EncV4, m.peer) + t4;
    ghost var t2 := EncBuffer(m.noise) + t3;
    PutUint(s, Bit(m.peer.Some?) + 2 * Bit(m.relay.Some?), Varint(m.mode) + t2, whole);
    PutUint(s, m.mode, t2, whole);
    PutBuffer(s, m.noise, t3, whole);
    PutOptAddress(s, m.peer, t4, whole);
    PutOptAddress(s, m.relay, [], whole);
    AllWritten(s, whole);
    message := s.buffer[..];
    HandshakeTrip(m);
  }

  method PreHandshake(s: State, m: HandshakeMessage)
    requires AddressOk(m.peer) && AddressOk(m.relay)
    modifies s`end
    ensures s.end == old(s.end) + |EncodeHandshake(m)|
  {
    hide Varint, EncBuffer;
    s.PreUint(Bit(m.peer.Some?) + 2 * Bit(m.relay.Some?));
    s.PreUint(m.mode);
    s.PreBuffer(m.noise);
    if m.peer.Some? {
      s.PreSize(6);
    }
    if m.relay.Some? {
      s.PreSize(6);
    }
  }

  /** decode_handshake_msg. */
  method ReadHandshake(data: bytes) returns (m: HandshakeMessage)
    ensures m == HandshakeFields(data)
    ensures DecodeHandshake(data).Some? ==> m == DecodeHandshake(data).value
  {
    HandshakeFieldsAre(data);
    hide DecUint, DecBuffer, DecOpt, Has, DecodeHandshake;
    var s := new State.ForDecode(data);
    m := HandshakeMessage(0, [], None, None);
    var flags := s.GetUint();
    if s.error {
      return;
    }
    var mode := s.GetUint();
    m := m.(mode := U32(mode));
    if s.error {
      return;
    }
    var noise := GetSmall(s);
    if s.error {
      return;
    }
    m := m.(noise := noise);
    var peer := GetOptAddress(s, Has(flags % 0x100, 1));
    m := m.(peer := peer);
    if s.error {
      return;
    }
    var relay := GetOptAddress(s, Has(flags % 0x100, 2));
    m := m.(relay := relay);
  }

  // ------------------------------------------------------------------------------------------
  // Holepunch messages
  // ------------------------------------------------------------------------------------------

  /** The first pass of encode_holepunch_payload. */
  method PrePunch(s: State, p: PunchPayload)
    requires AllValid(p.addresses) && AddressOk(p.remote) && IdOk(p.token) && IdOk(p.remoteToken)
    modifies s`end
    ensures s.end == old(s.end) + |EncodePunch(p)|
  {
    hide Varint, EncArray, Flags;
    s.PreUint(PunchFlags(p));
    s.PreUint(p.error);
    s.PreUint(p.firewall);
    s.PreUint(p.round);
    if p.addresses != [] {
      s.PreV4s(p.addresses);
    }
    if p.remote.Some? {
      s.PreSize(6);
    }
    if p.token.Some? {
      s.PreSize(32);
    }
    if p.remoteToken.Some? {
      s.PreSize(32);
    }
  }

  /** encode_holepunch_payload: both passes. */
  method WritePunch(p: PunchPayload) returns (message: bytes)
    requires AllValid(p.addresses) && AddressOk(p.remote) && IdOk(p.token) && IdOk(p.remoteToken)
    ensures message == EncodePunch(p)
    ensures p.firewall <= 3 ==> DecodePunch(message) == Some(p)
  {
    hide Varint, EncOpt, EncList, Flags, DecodePunch;
    var s := new State();
    PrePunch(s, p);
    s.Allocate();
    ghost var whole := EncodePunch(p);
    NothingWritten(s, whole);
    ghost var t7 := EncOpt(EncFixed, p.remoteToken) + [];
    assert EncOpt(EncFixed, p.remoteToken) == t7;
    ghost var t6 := EncOpt(EncFixed, p.token) + t7;
    ghost var t5 := EncOpt(EncV4, p.remote) + t6;
    ghost var t4 := EncList(EncV4, p.addresses) + t5;
    ghost var t3 := Varint(p.round) + t4;
    ghost var t2 := Varint(p.firewall) + t3;
    PutUint(s, PunchFlags(p), Varint(p.error) + t2, whole);
    PutUint(s, p.error, t2, whole);
    PutUint(s, p.firewall, t3, whole);
    PutUint(s, p.round, t4, whole);
    PutSomeAddresses(s, p.addresses, t5, whole);
    PutOptAddress(s, p.remote, t6, whole);
    PutOptional(s, p.token, t7, whole);
    PutOptional(s, p.remoteToken, [], whole);
    AllWritten(s, whole);
    message := s.buffer[..];
    if p.firewall <= 3 {
      PunchTrip(p);
    }
  }

  /** The sections of a holepunch payload. */
  method GetPunchSections(s: State, flags: u32, p: PunchPayload) returns (r: PunchPayload)
    requires s.Reading() && !s.error
    modifies s`start, s`error
    ensures r == PunchSections(flags, p, old(s.Rest()))
  {
    hide DecOpt, DecList, ListPart, Has;
    r := p;
    ListPartIs(DecV4, NO_ADDRESS, Has(flags, 4), s.Rest());
    var addresses := GetSomeAddresses(s, Has(flags, 4));
    r := r.(addresses := addresses);
    if s.error {
      return;
    }
    var remote := GetOptAddress(s, Has(flags, 8));
    r := r.(remote := remote);
    if s.error {
      return;
    }
    var token := GetOptional(s, Has(flags, 16));
    r := r.(token := token);
    if s.error {
      return;
    }
    var remoteToken := GetOptional(s, Has(flags, 32));
    r := r.(remoteToken := remoteToken);
  }

  /** decode_holepunch_payload. */
  method ReadPunch(data: bytes) returns (p: PunchPayload)
    ensures p == PunchFields(data)
    ensures DecodePunch(data).Some? ==> p == DecodePunch(data).value
  {
    PunchFieldsAre(data);
    hide DecUint, DecodePunch, PunchSections, Has;
    var s := new State.ForDecode(data);
    p := PunchPayload(false, false, 0, 0, 0, [], None, None, None);
    var flags64 := s.GetUint();
    if s.error {
      return;
    }
    var flags := U32(flags64);
    p := p.(connected := Has(flags, 1), punching := Has(flags, 2));
    var error := s.GetUint();
    p := p.(error := U32(error));
    if s.error {
      return;
    }
    var firewall := s.GetUint();
    p := p.(firewall := U32(firewall));
    if s.error || p.firewall > 3 {
      return;
    }
    var round := s.GetUint();
    p := p.(round := U32(round));
    if s.error {
      return;
    }
    p := GetPunchSections(s, flags, p);
  }

  /** encode_holepunch_msg: both passes. */
  method WritePunchMessage(m: PunchMessage) returns (message: bytes)
    requires AddressOk(m.peer)
    ensures message == EncodePunchMessage(m)
    ensures m.mode <= 0xFF ==> DecodePunchMessage(message) == Some(m)
  {
    hide Varint, EncBuffer, EncOpt, DecodePunchMessage;
    var s := new State();
    PrePunchMessage(s, m);
    s.Allocate();
    ghost var whole := EncodePunchMessage(m);
    NothingWritten(s, whole);
    ghost var t4 := EncOpt(EncV4, m.peer) + [];
    assert EncOpt(EncV4, m.peer) == t4;
    ghost var t3 := EncBuffer(m.payload) + t4;
    ghost var t2 := Varint(m.id) + t3;
    PutUint(s, if m.peer.Some? then 1 else 0, Varint(m.mode) + t2, whole);
    PutUint(s, m.mode, t2, whole);
    PutUint(s, m.id, t3, whole);
    PutBuffer(s, m.payload, t4, whole);
    PutOptAddress(s, m.peer, [], whole);
    AllWritten(s, whole);
    message := s.buffer[..];
    if m.mode <= 0xFF {
      PunchMessageTrip(m);
    }
  }

  method PrePunchMessage(s: State, m: PunchMessage)
    requires AddressOk(m.peer)
    modifies s`end
    ensures s.end == old(s.end) + |EncodePunchMessage(m)|
  {
    hide Varint, EncBuffer;
    s.PreUint(if m.peer.Some? then 1 else 0);
    s.PreUint(m.mode);
    s.PreUint(m.id);
    s.PreBuffer(m.payload);
    if m.peer.Some? {
      s.PreSize(6);
    }
  }

  /** decode_holepunch_msg. */
  method ReadPunchMessage(data: bytes) returns (m: PunchMessage)
    ensures m == PunchMessageFields(data)
    ensures DecodePunchMessage(data).Some? ==> m == DecodePunchMessage(data).value
  {
    PunchMessageFieldsAre(data);
    hide DecUint, DecBuffer, DecOpt, Has, DecodePunchMessage;
    var s := new State.ForDecode(data);
    m := PunchMessage(0, 0, [], None);
    var flags := s.GetUint();
    if s.error || flags > 0xFF {
      return;
    }
    var mode := s.GetUint();
    if s.error || mode > 0xFF {
      return;
    }
    m := m.(mode := mode);
    var id := s.GetUint();
    if s.error || id > 0xFFFF_FFFF {
      return;
    }
    m := m.(id := id);
    var payload := GetSmall(s);
    if s.error {
      return;
    }
    m := m.(payload := payload);
    var peer := GetOptAddress(s, Has(flags, 1));
    m := m.(peer := peer);
  }
}
