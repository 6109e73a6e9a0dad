/** The formats of the wire messages, byte by byte (src/messages.cpp:24-230, src/peer_connect.cpp:56-295,
    src/holepunch.cpp:155-229, 1125-1173, src/dht_messages.cpp:77-320), and what the decoders refuse. */
module WireLayouts {
  import opened Wrappers
  import opened Bytes
  import opened Varints
  import opened Addresses
  import opened Compact
  import opened Messages
  import opened Fields

  /** An IPv4 endpoint: the host, then the port with its low byte first. */
  function OnWire(a: Ipv4Address): bytes {
    a.host + [a.port % 256, a.port / 256]
  }

  function OnWire6(a: Ipv6Address): bytes {
    a.host + [a.port % 256, a.port / 256]
  }

  lemma EndpointBytes(a: Ipv4Address, b: Ipv6Address)
    ensures EncV4(a) == OnWire(a) && EncV6(b) == OnWire6(b)
  {
    LeTwo(a.port);
    LeTwo(b.port);
  }

  function All4(s: seq<Ipv4Address>): bytes {
    if s == [] then [] else All4(s[..|s| - 1]) + OnWire(s[|s| - 1])
  }

  function All6(s: seq<Ipv6Address>): bytes {
    if s == [] then [] else All6(s[..|s| - 1]) + OnWire6(s[|s| - 1])
  }

  lemma {:induction false} AllAppend<T>(enc: T -> bytes, s: seq<T>, x: T)
    ensures EncAll(enc, s + [x]) == EncAll(enc, s) + enc(x)
  {
    if s == [] {
      assert (s + [x])[1..] == [];
    } else {
      AllAppend(enc, s[1..], x);
      assert (s + [x])[1..] == s[1..] + [x];
    }
  }

  /** A list of endpoints: one behind the other. */
  lemma {:induction false} EndpointLists(s: seq<Ipv4Address>)
    ensures EncAll(EncV4, s) == All4(s)
  {
    if s != [] {
      EndpointLists(s[..|s| - 1]);
      AllAppend(EncV4, s[..|s| - 1], s[|s| - 1]);
      EndpointBytes(s[|s| - 1], Ipv6Address([], 0));
      assert s == s[..|s| - 1] + [s[|s| - 1]];
    }
  }

  lemma {:induction false} EndpointLists6(s: seq<Ipv6Address>)
    ensures EncAll(EncV6, s) == All6(s)
  {
    if s != [] {
      EndpointLists6(s[..|s| - 1]);
      AllAppend(EncV6, s[..|s| - 1], s[|s| - 1]);
      EndpointBytes(Ipv4Address([], 0), s[|s| - 1]);
      assert s == s[..|s| - 1] + [s[|s| - 1]];
    }
  }

  /** A list that may be left out: behind its length if there is anything in it. */
  function List4(s: seq<Ipv4Address>): bytes
    requires |s| <= 4096
  {
    if s == [] then [] else Varint(|s|) + All4(s)
  }

  function List6(s: seq<Ipv6Address>): bytes
    requires |s| <= 4096
  {
    if s == [] then [] else Varint(|s|) + All6(s)
  }

  /** A buffer: its length, then its bytes. */
  function Sized(v: bytes): bytes
    requires |v| < 0x1_0000_0000_0000_0000
  {
    Varint(|v|) + v
  }

  lemma BufferBytes(v: bytes)
    requires |v| < 0x1_0000_0000_0000_0000
    ensures EncBuffer(v) == Sized(v)
  {
  }

  function Maybe(v: Option<bytes>): bytes {
    if v.Some? then v.value else []
  }

  function If(b: bool, weight: nat): nat {
    if b then weight else 0
  }

  // ------------------------------------------------------------------------------------------
  // Requests and responses
  // ------------------------------------------------------------------------------------------

  lemma OptionBytes(id: Option<bytes>, value: Option<Small>)
    ensures EncOpt(EncFixed, id) == Maybe(id)
    ensures EncOpt(EncSmall, value) == if value.Some? then Sized(value.value) else []
  {
  }

  /** A request: 3, flags, transaction id, receiver, and then what the flags announce around the command. */
  lemma RequestBytes(r: Request)
    ensures Encode(Ask(r)) ==
            [3] + ([If(r.id.Some?, 1) + If(r.token.Some?, 2) + If(r.internal, 4) + If(r.target.Some?, 8)
                    + If(r.value.Some?, 16)] +
            ([r.tid % 256, r.tid / 256] + (OnWire(r.to) + (Maybe(r.id) + (Maybe(r.token) + (Varint(r.command) +
            (Maybe(r.target) + (if r.value.Some? then Sized(r.value.value) else []))))))))
  {
    hide EncV4, Sized, OnWire, Varint, Le, EncBuffer, EncOpt, Maybe;
    LeTwo(r.tid);
    EndpointBytes(r.to, Ipv6Address([], 0));
    OptionBytes(r.id, r.value);
    OptionBytes(r.token, None);
    OptionBytes(r.target, None);
    VarintBytes(RequestFlags(r));
  }

  lemma ErrorBytes(error: Option<u32>)
    ensures EncOpt(EncU32, error) == if error.Some? then Varint(error.value) else []
  {
  }

  /** A response: 0x13, flags, transaction id, sender's view of the receiver, and what the flags announce. */
  lemma ResponseBytes(r: Response)
    requires |r.closer| <= 4096
    ensures Encode(Reply(r)) ==
            [0x13] + ([If(r.id.Some?, 1) + If(r.token.Some?, 2) + If(r.closer != [], 4) + If(r.error.Some?, 8)
                       + If(r.value.Some?, 16)] +
            ([r.tid % 256, r.tid / 256] + (OnWire(r.from) + (Maybe(r.id) + (Maybe(r.token) + (List4(r.closer) +
            ((if r.error.Some? then Varint(r.error.value) else []) +
             (if r.value.Some? then Sized(r.value.value) else []))))))))
  {
    hide EncV4, Sized, OnWire, EncAll, All4, Varint, Le, EncBuffer, EncOpt, Maybe;
    LeTwo(r.tid);
    EndpointBytes(r.from, Ipv6Address([], 0));
    EndpointLists(r.closer);
    OptionBytes(r.id, r.value);
    OptionBytes(r.token, None);
    ErrorBytes(r.error);
    VarintBytes(ResponseFlags(r));
  }

  /** Too short, an unknown type byte, or flags beyond a byte: not a message. */
  lemma UnknownMessages(data: bytes, flags: u64, rest: bytes)
    ensures |data| < 2 || (data[0] != 3 && data[0] != 0x13) ==> Decode(data) == None
    ensures flags > 0xFF ==> Decode([3] + (Varint(flags) + rest)) == None
    ensures flags > 0xFF ==> Decode([0x13] + (Varint(flags) + rest)) == None
  {
    hide Varint, DecUint;
    UintTrip(flags, rest);
    assert ([3] + (Varint(flags) + rest))[1..] == Varint(flags) + rest;
    assert ([0x13] + (Varint(flags) + rest))[1..] == Varint(flags) + rest;
  }

  // ------------------------------------------------------------------------------------------
  // Handshakes
  // ------------------------------------------------------------------------------------------

  function AllRelays(s: seq<RelayInfo>): bytes {
    if s == [] then [] else AllRelays(s[..|s| - 1]) + OnWire(s[|s| - 1].relay) + OnWire(s[|s| - 1].peer)
  }

  lemma {:induction false} RelayLists(s: seq<RelayInfo>)
    ensures EncAll(EncRelay, s) == AllRelays(s)
  {
    if s != [] {
      var r := s[|s| - 1];
      RelayLists(s[..|s| - 1]);
      AllAppend(EncRelay, s[..|s| - 1], r);
      EndpointBytes(r.relay, Ipv6Address([], 0));
      EndpointBytes(r.peer, Ipv6Address([], 0));
      assert s == s[..|s| - 1] + [r];
      assert EncRelay(r) == OnWire(r.relay) + OnWire(r.peer);
    }
  }

  /** The three sections of a handshake payload that have fields of their own. */
  lemma SectionBytes(h: HolepunchInfo, u: UdxInfo, t: RelayThrough)
    requires |h.relays| < 0x1_0000_0000_0000_0000
    ensures EncHolepunch(h) == Varint(h.id) + (Varint(|h.relays|) + AllRelays(h.relays))
    ensures EncUdx(u) == Varint(u.version) + ([If(u.reusable, 1)] + (Varint(u.id) + Varint(u.sequence)))
    ensures EncThrough(t) == Varint(t.version) + ([0] + (t.publicKey + t.token))
  {
    hide EncRelay, AllRelays, EncAll, Varint;
    RelayLists(h.relays);
    VarintBytes(0);
    VarintBytes(1);
  }

  /** A handshake payload: version, flags, error, firewall, and the sections that the flags announce. */
  lemma PayloadBytes(p: NoisePayload)
    requires |p.addresses4| <= 4096 && |p.addresses6| <= 4096 && |p.relayAddresses| <= 4096
    ensures EncodePayload(p) ==
            Varint(p.version) +
            ([If(p.holepunch.Some?, 1) + If(p.addresses4 != [], 2) + If(p.addresses6 != [], 4) + If(p.udx.Some?, 8)
              + If(p.secretStream, 16) + If(p.relayThrough.Some?, 32) + If(p.relayAddresses != [], 64)] +
            (Varint(p.error) + (Varint(p.firewall) +
            ((if p.holepunch.Some? then EncHolepunch(p.holepunch.value) else []) +
            (List4(p.addresses4) + (List6(p.addresses6) +
            ((if p.udx.Some? then EncUdx(p.udx.value) else []) + ((if p.secretStream then [1] else []) +
            ((if p.relayThrough.Some? then EncThrough(p.relayThrough.value) else []) +
             List4(p.relayAddresses))))))))))
  {
    hide EncV4, EncV6, EncHolepunch, EncUdx, EncThrough, EncAll, All4, All6, Varint;
    EndpointLists(p.addresses4);
    EndpointLists6(p.addresses6);
    EndpointLists(p.relayAddresses);
    VarintBytes(PayloadFlags(p));
    VarintBytes(1);
  }

  /** A payload of another version, or none at all, reads as empty with the error for that. */
  lemma OtherVersions(version: u64, rest: bytes)
    requires version % 0x1_0000_0000 != 1
    ensures var b := Varint(version) + rest;
            && DecodePayload(b) == None
            && PayloadFields(b) ==
               NoisePayload(version % 0x1_0000_0000, 2, 0, None, [], [], None, false, None, [])
    ensures PayloadFields([]) == NoisePayload(0, 2, 0, None, [], [], None, false, None, [])
  {
    hide Varint;
    UintTrip(version, rest);
  }

  /** More than 128 relays are refused. */
  lemma TooManyRelays(id: u64, count: u64, rest: bytes)
    requires count % 0x1_0000_0000 > 128
    ensures DecHolepunch(Varint(id) + (Varint(count) + rest)) == None
  {
    hide Varint, DecUint;
    UintTrip(id, Varint(count) + rest);
    UintTrip(count, rest);
  }

  /** More than 4096 endpoints are refused, and so is a buffer of more than 65536 bytes. */
  lemma TooLong(n: u64, rest: bytes)
    ensures n > 4096 ==> DecList(DecV4, true, Varint(n) + rest) == None
    ensures n > 4096 ==> DecList(DecV6, true, Varint(n) + rest) == None
    ensures n > 65536 ==> DecBuffer(Varint(n) + rest) == None
    ensures n > |rest| ==> DecBuffer(Varint(n) + rest) == None
    ensures n <= 65536 && n <= |rest| ==> DecBuffer(Varint(n) + rest) == Some((rest[..n], rest[n..]))
  {
    hide Varint, DecUint;
    UintTrip(n, rest);
    assert n == 0 ==> rest[..0] == [] && rest[0..] == rest;
  }

  /** The wrapper of a handshake: flags, mode, the Noise message, and the addresses announced. */
  lemma HandshakeBytes(m: HandshakeMessage)
    ensures EncodeHandshake(m) ==
            [If(m.peer.Some?, 1) + If(m.relay.Some?, 2)] + (Varint(m.mode) + (Sized(m.noise) +
            ((if m.peer.Some? then OnWire(m.peer.value) else []) +
             (if m.relay.Some? then OnWire(m.relay.value) else []))))
  {
    hide EncV4, OnWire, Sized, EncBuffer, Varint;
    BufferBytes(m.noise);
    if m.peer.Some? {
      EndpointBytes(m.peer.value, Ipv6Address([], 0));
    }
    if m.relay.Some? {
      EndpointBytes(m.relay.value, Ipv6Address([], 0));
    }
    VarintBytes(If(m.peer.Some?, 1) + If(m.relay.Some?, 2));
  }

  // ------------------------------------------------------------------------------------------
  // Holepunching
  // ------------------------------------------------------------------------------------------

  /** A holepunch payload: flags, error, firewall, round, and what the flags announce. */
  lemma PunchBytes(p: PunchPayload)
    requires |p.addresses| <= 4096
    ensures EncodePunch(p) ==
            [If(p.connected, 1) + If(p.punching, 2) + If(p.addresses != [], 4) + If(p.remote.Some?, 8)
             + If(p.token.Some?, 16) + If(p.remoteToken.Some?, 32)] +
            (Varint(p.error) + (Varint(p.firewall) + (Varint(p.round) + (List4(p.addresses) +
            ((if p.remote.Some? then OnWire(p.remote.value) else []) + (Maybe(p.token) + Maybe(p.remoteToken)))))))
  {
    hide EncV4, OnWire, EncAll, All4, Varint;
    EndpointLists(p.addresses);
    if p.remote.Some? {
      EndpointBytes(p.remote.value, Ipv6Address([], 0));
    }
    VarintBytes(PunchFlags(p));
  }

  /** A firewall value beyond 3 is kept, and nothing behind it is read. */
  lemma UnknownFirewall(flags: u32, error: u32, firewall: u32, rest: bytes)
    requires firewall > 3
    ensures var b := Varint(flags) + (Varint(error) + (Varint(firewall) + rest));
            && DecodePunch(b) == None
            && PunchFields(b) ==
               PunchPayload(flags % 2 == 1, flags / 2 % 2 == 1, error, firewall, 0, [], None, None, None)
  {
    hide Varint, DecUint;
    UintTrip(flags, Varint(error) + (Varint(firewall) + rest));
    UintTrip(error, Varint(firewall) + rest);
    UintTrip(firewall, rest);
  }

  /** A holepunch message: flags, mode, session, payload, and the peer's address if announced. */
  lemma PunchMessageBytes(m: PunchMessage)
    ensures EncodePunchMessage(m) ==
            [If(m.peer.Some?, 1)] + (Varint(m.mode) + (Varint(m.id) + (Sized(m.payload) +
            (if m.peer.Some? then OnWire(m.peer.value) else []))))
  {
    hide EncV4, OnWire, Sized, EncBuffer, Varint;
    BufferBytes(m.payload);
    if m.peer.Some? {
      EndpointBytes(m.peer.value, Ipv6Address([], 0));
    }
    VarintBytes(0);
    VarintBytes(1);
  }

  /** Flags or a mode beyond a byte, or a session beyond 32 bits, are refused; a peer address that is announced
      but cut short reads as zero. */
  lemma OddPunchMessages(flags: u64, mode: u64, id: u64, payload: Small, rest: bytes)
    ensures var b := Varint(flags) + (Varint(mode) + (Varint(id) + (EncBuffer(payload) + rest)));
            && (flags > 0xFF || mode > 0xFF || id > 0xFFFF_FFFF ==> DecodePunchMessage(b) == None)
            && (flags <= 0xFF && mode <= 0xFF && id <= 0xFFFF_FFFF && flags % 2 == 1 && |rest| < 6 ==>
                  DecodePunchMessage(b) == Some(PunchMessage(mode, id, payload,
                                                             Some(Ipv4Address([0, 0, 0, 0], 0)))))
  {
    hide Varint, DecUint, DecBuffer, EncBuffer;
    UintTrip(flags, Varint(mode) + (Varint(id) + (EncBuffer(payload) + rest)));
    UintTrip(mode, Varint(id) + (EncBuffer(payload) + rest));
    UintTrip(id, EncBuffer(payload) + rest);
    BufferTrip(payload, rest);
  }

  // ------------------------------------------------------------------------------------------
  // Storage and lookup
  // ------------------------------------------------------------------------------------------

  /** A peer record: the public key, then its relays behind their number. */
  lemma RecordBytes(p: PeerRecord)
    requires |p.relays| < 0x1_0000_0000_0000_0000
    ensures EncRecord(p) == p.publicKey + (Varint(|p.relays|) + All4(p.relays))
  {
    hide EncV4, All4, EncAll, Varint;
    EndpointLists(p.relays);
  }

  /** An announcement: flags and what they announce. */
  lemma AnnounceBytes(m: Announce)
    ensures EncodeAnnounce(m) ==
            [If(m.peer.Some?, 1) + If(m.refresh.Some?, 2) + If(m.signature.Some?, 4) + If(m.bump > 0, 8)] +
            ((if m.peer.Some? then EncRecord(m.peer.value) else []) + (Maybe(m.refresh) + (Maybe(m.signature) +
            (if m.bump > 0 then Varint(m.bump) else []))))
  {
    hide EncRecord, Varint;
    VarintBytes(If(m.peer.Some?, 1) + If(m.refresh.Some?, 2) + If(m.signature.Some?, 4) + If(m.bump > 0, 8));
  }

  /** A mutable put and a stored value. */
  lemma StorageBytes(p: MutablePut, g: MutableGet)
    requires |g.value| < 0x1_0000_0000_0000_0000
    ensures EncodePut(p) == p.publicKey + (Varint(p.sequence) + (Sized(p.value) + p.signature))
    ensures EncodeGet(g) == Varint(g.sequence) + (Sized(g.value) + g.signature)
  {
    hide Sized, EncBuffer;
    BufferBytes(p.value);
    BufferBytes(g.value);
  }

  function AllSized(s: seq<Small>): bytes {
    if s == [] then [] else AllSized(s[..|s| - 1]) + Sized(s[|s| - 1])
  }

  lemma {:induction false} SizedLists(s: seq<Small>)
    ensures EncPeers(s) == AllSized(s)
  {
    if s != [] {
      SizedLists(s[..|s| - 1]);
      AllAppend(EncSmall, s[..|s| - 1], s[|s| - 1]);
      BufferBytes(s[|s| - 1]);
      assert s == s[..|s| - 1] + [s[|s| - 1]];
    }
  }

  /** A lookup reply: the records behind their number, then the bump. More than 1024 are not read. */
  lemma LookupBytes(peers: seq<Small>, bump: u64, count: u64, rest: bytes)
    requires |peers| <= 1024
    ensures EncodeLookup(peers, bump) == Varint(|peers|) + (AllSized(peers) + Varint(bump))
    ensures count > 1024 ==> DecodeLookup(Varint(count) + rest) == Lookup([], 0)
  {
    hide Varint, DecUint, EncPeers, AllSized;
    SizedLists(peers);
    UintTrip(count, rest);
  }

  /** The empty records of a lookup are dropped, the others keep their order. */
  lemma {:induction false} OnlyFullRecords(peers: seq<Small>, peer: Small)
    ensures NonEmpty(peers + [peer]) == NonEmpty(peers) + (if peer == [] then [] else [peer])
    ensures NonEmpty([]) == []
  {
    if peers == [] {
      assert (peers + [peer])[1..] == [];
    } else {
      OnlyFullRecords(peers[1..], peer);
      assert (peers + [peer])[1..] == peers[1..] + [peer];
    }
  }

  // ------------------------------------------------------------------------------------------
  // Messages that are cut short
  // ------------------------------------------------------------------------------------------

  const NOWHERE: Ipv4Address := Ipv4Address([0, 0, 0, 0], 0)

  /** A handshake cut short keeps what was read: the mode before a noise message that is not all there, and
      zero for the address in which it ends, with nothing behind it. */
  lemma CutHandshake(flags: byte, mode: u32, noise: Small, peer: Ipv4Address, rest: bytes)
    requires peer.Valid() && |rest| < 6
    ensures DecBuffer(rest) == None ==>
              HandshakeFields(Varint(flags) + (Varint(mode) + rest)) == HandshakeMessage(mode, [], None, None)
    ensures flags % 2 == 1 ==>
              HandshakeFields(Varint(flags) + (Varint(mode) + (EncBuffer(noise) + rest))) ==
              HandshakeMessage(mode, noise, Some(NOWHERE), None)
    ensures flags % 4 == 3 ==>
              HandshakeFields(Varint(flags) + (Varint(mode) + (EncBuffer(noise) + (EncV4(peer) + rest)))) ==
              HandshakeMessage(mode, noise, Some(peer), Some(NOWHERE))
  {
    hide Varint, DecUint, DecBuffer, EncBuffer, EncV4;
    UintTrip(flags, Varint(mode) + rest);
    UintTrip(mode, rest);
    UintTrip(flags, Varint(mode) + (EncBuffer(noise) + rest));
    UintTrip(mode, EncBuffer(noise) + rest);
    BufferTrip(noise, rest);
    UintTrip(flags, Varint(mode) + (EncBuffer(noise) + (EncV4(peer) + rest)));
    UintTrip(mode, EncBuffer(noise) + (EncV4(peer) + rest));
    BufferTrip(noise, EncV4(peer) + rest);
    V4Trip(peer, rest);
  }

  /** A put cut short keeps what was read, and the rest is zero. */
  lemma CutPut(publicKey: bytes, sequence: u64, value: Small, rest: bytes)
    requires |publicKey| == 32 && |rest| < 64
    ensures PutFields(rest[..if |rest| < 32 then |rest| else 31]) == MutablePut(Zeros(32), 0, [], Zeros(64))
    ensures PutFields(publicKey) == MutablePut(publicKey, 0, [], Zeros(64))
    ensures DecBuffer(rest) == None ==>
              PutFields(publicKey + (Varint(sequence) + rest)) == MutablePut(publicKey, sequence, [], Zeros(64))
    ensures PutFields(publicKey + (Varint(sequence) + (EncBuffer(value) + rest))) ==
            MutablePut(publicKey, sequence, value, Zeros(64))
  {
    hide Varint, DecBuffer, EncBuffer, VarintValue;
    assert publicKey + [] == publicKey;
    FixedTrip(32, publicKey, []);
    FixedTrip(32, publicKey, Varint(sequence) + rest);
    UintTrip(sequence, rest);
    FixedTrip(32, publicKey, Varint(sequence) + (EncBuffer(value) + rest));
    UintTrip(sequence, EncBuffer(value) + rest);
    BufferTrip(value, rest);
  }

  /** And so does a stored value. */
  lemma CutGet(sequence: u64, value: Small, rest: bytes)
    requires |rest| < 64
    ensures GetFields([]) == MutableGet(0, [], Zeros(64))
    ensures DecBuffer(rest) == None ==>
              GetFields(Varint(sequence) + rest) == MutableGet(sequence, [], Zeros(64))
    ensures GetFields(Varint(sequence) + (EncBuffer(value) + rest)) == MutableGet(sequence, value, Zeros(64))
  {
    hide Varint, DecBuffer, EncBuffer, VarintValue;
    UintTrip(sequence, rest);
    UintTrip(sequence, EncBuffer(value) + rest);
    BufferTrip(value, rest);
  }

  /** An announcement whose record is cut short has none; one that is cut short later keeps the record, and
      the field in which it ends is zero. */
  lemma CutAnnounce(flags: byte, peer: PeerRecord, rest: bytes)
    requires RecordOk(peer) && flags % 4 == 3 && |rest| < 32
    ensures AnnounceFields(Varint(flags) + rest) == Announce(None, None, None, 0)
    ensures AnnounceFields(Varint(flags) + (EncRecord(peer) + rest)) ==
            Announce(Some(peer), Some(Zeros(32)), None, 0)
  {
    hide Varint, DecUint, EncRecord, DecArray;
    UintTrip(flags, rest);
    UintTrip(flags, EncRecord(peer) + rest);
    RecordTrip(Some(peer), rest);
  }

  lemma NothingToRead()
    ensures DecUint([]) == None
  {
  }

  lemma FlagsAre(flags: u32)
    ensures Has(flags, 1) == (flags % 2 == 1) && Has(flags, 2) == (flags / 2 % 2 == 1)
    ensures flags / 4 % 4 == 2 ==> !Has(flags, 4) && Has(flags, 8)
  {
  }

  /** A payload that is cut short keeps the numbers that were read; of a holepunch section that is not all there
      nothing is kept, and nothing behind it. */
  lemma CutPayload(flags: u32, error: u32, firewall: u32, rest: bytes)
    ensures var p := NoisePayload(1, 0, 0, None, [], [], None, false, None, []);
            && PayloadFields(Varint(1)) == p && PayloadFields(Varint(1) + Varint(flags)) == p
            && PayloadFields(Varint(1) + (Varint(flags) + Varint(error))) == p.(error := error)
            && (flags % 2 == 1 && DecHolepunch(rest) == None ==>
                  PayloadFields(Varint(1) + (Varint(flags) + (Varint(error) + (Varint(firewall) + rest)))) ==
                  p.(error := error, firewall := firewall))
  {
    hide Varint, DecHolepunch, DecUint, ListPart, LinkFields;
    NothingToRead();
    assert Varint(1) + [] == Varint(1) && Varint(flags) + [] == Varint(flags) && Varint(error) + [] == Varint(error);
    UintTrip(1, []);
    UintTrip(1, Varint(flags));
    UintTrip(flags, []);
    UintTrip(1, Varint(flags) + Varint(error));
    UintTrip(flags, Varint(error));
    UintTrip(error, []);
    UintTrip(1, Varint(flags) + (Varint(error) + (Varint(firewall) + rest)));
    UintTrip(flags, Varint(error) + (Varint(firewall) + rest));
    UintTrip(error, Varint(firewall) + rest);
    UintTrip(firewall, rest);
  }

  /** A holepunch payload that is cut short keeps the flags and numbers that were read, and zero for the address
      in which it ends. */
  lemma CutPunch(flags: u32, error: u32, firewall: u32, round: u32, rest: bytes)
    requires firewall <= 3 && |rest| < 6
    ensures var p := PunchPayload(flags % 2 == 1, flags / 2 % 2 == 1, 0, 0, 0, [], None, None, None);
            && PunchFields(Varint(flags)) == p && PunchFields(Varint(flags) + Varint(error)) == p.(error := error)
            && PunchFields(Varint(flags) + (Varint(error) + Varint(firewall))) ==
               p.(error := error, firewall := firewall)
            && (flags / 4 % 4 == 2 ==>
                  PunchFields(Varint(flags) + (Varint(error) + (Varint(firewall) + (Varint(round) + rest)))) ==
                  p.(error := error, firewall := firewall, round := round, remote := Some(NOWHERE)))
  {
    hide Varint, DecUint, Has;
    NothingToRead();
    FlagsAre(flags);
    assert Varint(flags) + [] == Varint(flags) && Varint(error) + [] == Varint(error);
    assert Varint(firewall) + [] == Varint(firewall);
    UintTrip(flags, []);
    UintTrip(flags, Varint(error));
    UintTrip(error, []);
    UintTrip(flags, Varint(error) + Varint(firewall));
    UintTrip(error, Varint(firewall));
    UintTrip(firewall, []);
    UintTrip(flags, Varint(error) + (Varint(firewall) + (Varint(round) + rest)));
    UintTrip(error, Varint(firewall) + (Varint(round) + rest));
    UintTrip(firewall, Varint(round) + rest);
    UintTrip(round, rest);
  }
}
