/** The wire messages: requests and responses (src/messages.cpp:24-230), the handshake payload and its
    wrapper (src/peer_connect.cpp:56-295), the storage and lookup messages (src/dht_messages.cpp:77-320)
    and the holepunch messages (src/holepunch.cpp:155-229, 1125-1173).

    Optional fields are announced by flag bits. A decoder that meets an error gives None. */
module Messages {
  import opened Wrappers
  import opened Bytes
  import opened Varints
  import opened Addresses
  import opened Compact

  const REQUEST_ID: byte := 0x03
  const RESPONSE_ID: byte := 0x13

  function Bit(b: bool): nat {
    if b then 1 else 0
  }

  /** The flag of weight w. */
  predicate Has(flags: nat, w: nat)
    requires w > 0
  {
    flags / w % 2 == 1
  }

  function Flags(a: bool, b: bool, c: bool, d: bool, e: bool, f: bool, g: bool): (r: u64)
    ensures r < 128
  {
    Bit(a) + 2 * Bit(b) + 4 * Bit(c) + 8 * Bit(d) + 16 * Bit(e) + 32 * Bit(f) + 64 * Bit(g)
  }

  lemma FlagsTell(a: bool, b: bool, c: bool, d: bool, e: bool, f: bool, g: bool)
    ensures var r := Flags(a, b, c, d, e, f, g);
            Has(r, 1) == a && Has(r, 2) == b && Has(r, 4) == c && Has(r, 8) == d && Has(r, 16) == e &&
              Has(r, 32) == f && Has(r, 64) == g
  {
  }

  /** A narrowing cast. */
  function U32(v: nat): u32 {
    v % 0x1_0000_0000
  }

  function EncFixed(v: bytes): bytes {
    v
  }

  function DecId(b: bytes): Decoded<bytes> {
    DecFixed(32, b)
  }

  type Small = v: bytes | |v| <= MAX_BUFFER_DECODE witness []

  function EncSmall(v: Small): bytes {
    EncBuffer(v)
  }

  /** A list that is left out when it is empty. */
  function EncList<T>(enc: T -> bytes, s: seq<T>): bytes
    requires |s| <= ARRAY_MAX_LENGTH
  {
    if s == [] then [] else EncArray(enc, s)
  }

  function DecList<T>(dec: bytes -> Decoded<T>, present: bool, b: bytes): Decoded<seq<T>> {
    if present then DecArray(dec, ARRAY_MAX_LENGTH, b) else Some(([], b))
  }

  lemma IdTrips(v: bytes)
    requires |v| == 32
    ensures Trips(EncFixed, DecId, v)
  {
    forall rest: bytes ensures DecId(EncFixed(v) + rest) == Some((v, rest)) {
      FixedTrip(32, v, rest);
    }
  }

  ghost predicate AllValid(s: seq<Ipv4Address>) {
    |s| <= ARRAY_MAX_LENGTH && forall a :: a in s ==> a.Valid()
  }

  ghost predicate IdOk(id: Option<bytes>) {
    id.Some? ==> |id.value| == 32
  }

  lemma IdTrip(v: Option<bytes>, rest: bytes)
    requires IdOk(v)
    ensures DecOpt(DecId, v.Some?, EncOpt(EncFixed, v) + rest) == Some((v, rest))
  {
    if v.Some? {
      IdTrips(v.value);
    }
    OptTrip(EncFixed, DecId, v, rest);
  }

  lemma ValueTrip(v: Option<Small>, rest: bytes)
    ensures DecOpt(DecBuffer, v.Some?, EncOpt(EncSmall, v) + rest) == Some((v, rest))
  {
    if v.Some? {
      BufferTrip(v.value, rest);
    } else {
      assert EncOpt(EncSmall, v) + rest == rest;
    }
  }

  lemma V4sTrip(s: seq<Ipv4Address>, rest: bytes)
    requires AllValid(s)
    ensures DecList(DecV4, s != [], EncList(EncV4, s) + rest) == Some((s, rest))
  {
    if s == [] {
      assert EncList(EncV4, s) + rest == rest;
    } else {
      forall a | a in s ensures Trips(EncV4, DecV4, a) {
        V4Trips(a);
      }
      ArrayTrip(EncV4, DecV4, ARRAY_MAX_LENGTH, s, rest);
    }
  }

  // ------------------------------------------------------------------------------------------
  // Requests and responses
  // ------------------------------------------------------------------------------------------

  datatype Request = Request(tid: u16, to: Ipv4Address, id: Option<bytes>, token: Option<bytes>, internal: bool,
                             command: u32, target: Option<bytes>, value: Option<Small>)

  datatype Response = Response(tid: u16, from: Ipv4Address, id: Option<bytes>, token: Option<bytes>,
                               closer: seq<Ipv4Address>, error: Option<u32>, value: Option<Small>)

  datatype Message = Ask(request: Request) | Reply(response: Response)

  function RequestFlags(r: Request): u64 {
    Flags(r.id.Some?, r.token.Some?, r.internal, r.target.Some?, r.value.Some?, false, false)
  }

  function RequestBody(r: Request): bytes {
    Varint(RequestFlags(r)) + (Le(r.tid, 2) + (EncV4(r.to) + (EncOpt(EncFixed, r.id) + (EncOpt(EncFixed, r.token) +
    (Varint(r.command) + (EncOpt(EncFixed, r.target) + EncOpt(EncSmall, r.value)))))))
  }

  function DecodeRequest(b: bytes): Option<Request> {
    var (flags, b1) :- DecUint(b);
    if flags > 0xFF then None
    else
      var (tid, b2) :- DecLe(2, b1);
      var (to, b3) :- DecV4(b2);
      var (id, b4) :- DecOpt(DecId, Has(flags, 1), b3);
      var (token, b5) :- DecOpt(DecId, Has(flags, 2), b4);
      var (command, b6) :- DecUint(b5);
      var (target, b7) :- DecOpt(DecId, Has(flags, 8), b6);
      var (value, b8) :- DecOpt(DecBuffer, Has(flags, 16), b7);
      Some(Request(tid % 0x1_0000, to, id, token, Has(flags, 4), U32(command), target, value))
  }

  function ResponseFlags(r: Response): u64 {
    Flags(r.id.Some?, r.token.Some?, r.closer != [], r.error.Some?, r.value.Some?, false, false)
  }

  function EncU32(v: u32): bytes {
    Varint(v)
  }

  function ResponseBody(r: Response): bytes
    requires |r.closer| <= ARRAY_MAX_LENGTH
  {
    Varint(ResponseFlags(r)) + (Le(r.tid, 2) + (EncV4(r.from) + (EncOpt(EncFixed, r.id) + (EncOpt(EncFixed, r.token) +
    (EncList(EncV4, r.closer) + (EncOpt(EncU32, r.error) + EncOpt(EncSmall, r.value)))))))
  }

  function DecError(b: bytes): Decoded<u32> {
    match DecUint(b)
    case None => None
    case Some((v, rest)) => Some((U32(v), rest))
  }

  function DecodeResponse(b: bytes): Option<Response> {
    var (flags, b1) :- DecUint(b);
    if flags > 0xFF then None
    else
      var (tid, b2) :- DecLe(2, b1);
      var (from, b3) :- DecV4(b2);
      var (id, b4) :- DecOpt(DecId, Has(flags, 1), b3);
      var (token, b5) :- DecOpt(DecId, Has(flags, 2), b4);
      var (closer, b6) :- DecList(DecV4, Has(flags, 4), b5);
      var (error, b7) :- DecOpt(DecError, Has(flags, 8), b6);
      var (value, b8) :- DecOpt(DecBuffer, Has(flags, 16), b7);
      Some(Response(tid % 0x1_0000, from, id, token, closer, error, value))
  }

  function Encode(m: Message): bytes
    requires m.Reply? ==> |m.response.closer| <= ARRAY_MAX_LENGTH
  {
    match m
    case Ask(r) => [REQUEST_ID] + RequestBody(r)
    case Reply(r) => [RESPONSE_ID] + ResponseBody(r)
  }

  /** decode_message: the type byte decides. */
  function Decode(data: bytes): Option<Message> {
    if |data| < 2 then None
    else if data[0] == REQUEST_ID then
      var r :- DecodeRequest(data[1..]);
      Some(Ask(r))
    else if data[0] == RESPONSE_ID then
      var r :- DecodeResponse(data[1..]);
      Some(Reply(r))
    else None
  }

  ghost predicate RequestOk(r: Request) {
    r.to.Valid() && IdOk(r.id) && IdOk(r.token) && IdOk(r.target)
  }

  ghost predicate ResponseOk(r: Response) {
    r.from.Valid() && IdOk(r.id) && IdOk(r.token) && AllValid(r.closer)
  }

  lemma RequestTrip(r: Request)
    requires RequestOk(r)
    ensures DecodeRequest(RequestBody(r)) == Some(r)
  {
    hide DecUint, DecV4, EncV4, DecLe, DecId, DecBuffer, DecOpt, EncOpt, EncSmall, Varint, Le, Flags, Has;
    var flags := RequestFlags(r);
    FlagsTell(r.id.Some?, r.token.Some?, r.internal, r.target.Some?, r.value.Some?, false, false);
    var t8 := EncOpt(EncSmall, r.value) + [];
    var t7 := EncOpt(EncFixed, r.target) + t8;
    var t6 := Varint(r.command) + t7;
    var t5 := EncOpt(EncFixed, r.token) + t6;
    var t4 := EncOpt(EncFixed, r.id) + t5;
    var t3 := EncV4(r.to) + t4;
    var t2 := Le(r.tid, 2) + t3;
    assert t8 == EncOpt(EncSmall, r.value) && RequestBody(r) == Varint(flags) + t2;
    UintTrip(flags, t2);
    TidTrip(r.tid, t3);
    V4Trip(r.to, t4);
    IdTrip(r.id, t5);
    IdTrip(r.token, t6);
    UintTrip(r.command, t7);
    IdTrip(r.target, t8);
    ValueTrip(r.value, []);
  }

  lemma TidTrip(v: u16, rest: bytes)
    ensures DecLe(2, Le(v, 2) + rest) == Some((v as nat, rest))
  {
    Powers();
    LeTrip(2, v, rest);
  }

  lemma ErrorTrip(v: Option<u32>, rest: bytes)
    ensures DecOpt(DecError, v.Some?, EncOpt(EncU32, v) + rest) == Some((v, rest))
  {
    if v.Some? {
      UintTrip(v.value, rest);
    } else {
      assert EncOpt(EncU32, v) + rest == rest;
    }
  }

  lemma ResponseTrip(r: Response)
    requires ResponseOk(r)
    ensures DecodeResponse(ResponseBody(r)) == Some(r)
  {
    hide DecUint, DecV4, EncV4, DecLe, DecId, DecBuffer, DecOpt, EncOpt, EncSmall, Varint, Le, Flags, Has, DecList,
         EncList;
    var flags := ResponseFlags(r);
    FlagsTell(r.id.Some?, r.token.Some?, r.closer != [], r.error.Some?, r.value.Some?, false, false);
    var t8 := EncOpt(EncSmall, r.value) + [];
    var t7 := EncOpt(EncU32, r.error) + t8;
    var t6 := EncList(EncV4, r.closer) + t7;
    var t5 := EncOpt(EncFixed, r.token) + t6;
    var t4 := EncOpt(EncFixed, r.id) + t5;
    var t3 := EncV4(r.from) + t4;
    var t2 := Le(r.tid, 2) + t3;
    assert t8 == EncOpt(EncSmall, r.value) && ResponseBody(r) == Varint(flags) + t2;
    UintTrip(flags, t2);
    TidTrip(r.tid, t3);
    V4Trip(r.from, t4);
    IdTrip(r.id, t5);
    IdTrip(r.token, t6);
    V4sTrip(r.closer, t7);
    ErrorTrip(r.error, t8);
    ValueTrip(r.value, []);
  }

  ghost predicate Ok(m: Message) {
    match m
    case Ask(r) => RequestOk(r)
    case Reply(r) => ResponseOk(r)
  }

  /** Every message within the caps comes back from its encoding. */
  lemma RoundTrip(m: Message)
    requires Ok(m)
    ensures Decode(Encode(m)) == Some(m)
  {
    hide DecodeRequest, DecodeResponse, Varint;
    match m
    case Ask(r) =>
      RequestTrip(r);
      assert Encode(m)[1..] == RequestBody(r);
    case Reply(r) =>
      ResponseTrip(r);
      assert Encode(m)[1..] == ResponseBody(r);
  }

  // ------------------------------------------------------------------------------------------
  // The Noise payload and its wrapper
  // ------------------------------------------------------------------------------------------

  const MAX_RELAYS: nat := 128

  datatype RelayInfo = RelayInfo(relay: Ipv4Address, peer: Ipv4Address)
  datatype HolepunchInfo = HolepunchInfo(id: u32, relays: seq<RelayInfo>)
  datatype UdxInfo = UdxInfo(version: u32, reusable: bool, id: u32, sequence: u32)
  datatype RelayThrough = RelayThrough(version: u32, publicKey: bytes, token: bytes)

  datatype NoisePayload = NoisePayload(
    version: u32, error: u32, firewall: u32, holepunch: Option<HolepunchInfo>, addresses4: seq<Ipv4Address>,
    addresses6: seq<Ipv6Address>, udx: Option<UdxInfo>, secretStream: bool, relayThrough: Option<RelayThrough>,
    relayAddresses: seq<Ipv4Address>)

  function EncRelay(r: RelayInfo): bytes {
    EncV4(r.relay) + EncV4(r.peer)
  }

  function DecRelay(b: bytes): Decoded<RelayInfo> {
    var (relay, b1) :- DecV4(b);
    var (peer, b2) :- DecV4(b1);
    Some((RelayInfo(relay, peer), b2))
  }

  function EncHolepunch(h: HolepunchInfo): bytes {
    Varint(h.id) + (Varint(|h.relays| % 0x1_0000_0000_0000_0000) + EncAll(EncRelay, h.relays))
  }

  function DecHolepunch(b: bytes): Decoded<HolepunchInfo> {
    var (id, b1) :- DecUint(b);
    var (count, b2) :- DecUint(b1);
    if U32(count) > MAX_RELAYS then None
    else
      var (relays, b3) :- DecAll(DecRelay, U32(count), b2);
      Some((HolepunchInfo(U32(id), relays), b3))
  }

  function EncUdx(u: UdxInfo): bytes {
    Varint(u.version) + (Varint(Bit(u.reusable)) + (Varint(u.id) + Varint(u.sequence)))
  }

  function DecUdx(b: bytes): Decoded<UdxInfo> {
    var (version, b1) :- DecUint(b);
    var (features, b2) :- DecUint(b1);
    var (id, b3) :- DecUint(b2);
    var (sequence, b4) :- DecUint(b3);
    Some((UdxInfo(U32(version), Has(U32(features), 1), U32(id), U32(sequence)), b4))
  }

  function EncThrough(r: RelayThrough): bytes {
    Varint(r.version) + (Varint(0) + (r.publicKey + r.token))
  }

  function DecThrough(b: bytes): Decoded<RelayThrough> {
    var (version, b1) :- DecUint(b);
    var (reserved, b2) :- DecUint(b1);
    var (publicKey, b3) :- DecFixed(32, b2);
    var (token, b4) :- DecFixed(32, b3);
    Some((RelayThrough(U32(version), publicKey, token), b4))
  }

  function PayloadFlags(p: NoisePayload): u64 {
    Flags(p.holepunch.Some?, p.addresses4 != [], p.addresses6 != [], p.udx.Some?, p.secretStream,
      p.relayThrough.Some?, p.relayAddresses != [])
  }

  function EncodePayload(p: NoisePayload): bytes
    requires |p.addresses4| <= ARRAY_MAX_LENGTH && |p.addresses6| <= ARRAY_MAX_LENGTH &&
              |p.relayAddresses| <= ARRAY_MAX_LENGTH
  {
    Varint(p.version) + (Varint(PayloadFlags(p)) + (Varint(p.error) + (Varint(p.firewall) +
    (EncOpt(EncHolepunch, p.holepunch) + (EncList(EncV4, p.addresses4) + (EncList(EncV6, p.addresses6) +
    (EncOpt(EncUdx, p.udx) + ((if p.secretStream then Varint(1) else []) + (EncOpt(EncThrough, p.relayThrough) +
     EncList(EncV4, p.relayAddresses))))))))))
  }

  /** Only version 1 is understood. */
  function DecodePayload(b: bytes): Option<NoisePayload> {
    var (version, b1) :- DecUint(b);
    if U32(version) != 1 then None
    else
      var (flags64, b2) :- DecUint(b1);
      var flags := U32(flags64);
      var (error, b3) :- DecUint(b2);
      var (firewall, b4) :- DecUint(b3);
      var (holepunch, b5) :- DecOpt(DecHolepunch, Has(flags, 1), b4);
      var (addresses4, b6) :- DecList(DecV4, Has(flags, 2), b5);
      var (addresses6, b7) :- DecList(DecV6, Has(flags, 4), b6);
      var (udx, b8) :- DecOpt(DecUdx, Has(flags, 8), b7);
      var (secret, b9) :- DecOpt(DecUint, Has(flags, 16), b8);
      var (through, b10) :- DecOpt(DecThrough, Has(flags, 32), b9);
      var (relays, b11) :- DecList(DecV4, Has(flags, 64), b10);
      Some(NoisePayload(1, U32(error), U32(firewall), holepunch, addresses4, addresses6, udx, secret.Some?, through,
        relays))
  }

  ghost predicate HolepunchOk(h: HolepunchInfo) {
    |h.relays| <= 128 && forall r :: r in h.relays ==> r.relay.Valid() && r.peer.Valid()
  }

  ghost predicate PayloadOk(p: NoisePayload) {
    p.version == 1 && SectionsOk(p)
  }

  ghost predicate SectionsOk(p: NoisePayload) {
    && (p.holepunch.Some? ==> HolepunchOk(p.holepunch.value))
    && AllValid(p.addresses4) && AllValid(p.relayAddresses)
    && |p.addresses6| <= ARRAY_MAX_LENGTH && (forall a :: a in p.addresses6 ==> V6Ok(a))
    && (p.relayThrough.Some? ==> |p.relayThrough.value.publicKey| == 32 && |p.relayThrough.value.token| == 32)
  }

  lemma RelayTrips(r: RelayInfo)
    requires r.relay.Valid() && r.peer.Valid()
    ensures Trips(EncRelay, DecRelay, r)
  {
    hide DecV4, EncV4;
    forall rest: bytes ensures DecRelay(EncRelay(r) + rest) == Some((r, rest)) {
      assert EncRelay(r) + rest == EncV4(r.relay) + (EncV4(r.peer) + rest);
      V4Trip(r.relay, EncV4(r.peer) + rest);
      V4Trip(r.peer, rest);
    }
  }

  lemma HolepunchTrips(h: HolepunchInfo)
    requires HolepunchOk(h)
    ensures Trips(EncHolepunch, DecHolepunch, h)
  {
    hide DecUint, DecRelay, EncRelay, Varint, EncAll, DecAll;
    forall r | r in h.relays ensures Trips(EncRelay, DecRelay, r) {
      RelayTrips(r);
    }
    forall rest: bytes ensures DecHolepunch(EncHolepunch(h) + rest) == Some((h, rest)) {
      var t2 := EncAll(EncRelay, h.relays) + rest;
      var t1 := Varint(|h.relays|) + t2;
      assert EncHolepunch(h) + rest == Varint(h.id) + t1;
      UintTrip(h.id, t1);
      UintTrip(|h.relays|, t2);
      AllTrip(EncRelay, DecRelay, h.relays, rest);
    }
  }

  lemma UdxTrips(u: UdxInfo)
    ensures Trips(EncUdx, DecUdx, u)
  {
    hide DecUint, Varint;
    forall rest: bytes ensures DecUdx(EncUdx(u) + rest) == Some((u, rest)) {
      var t3 := Varint(u.sequence) + rest;
      var t2 := Varint(u.id) + t3;
      var t1 := Varint(Bit(u.reusable)) + t2;
      assert EncUdx(u) + rest == Varint(u.version) + t1;
      UintTrip(u.version, t1);
      UintTrip(Bit(u.reusable), t2);
      UintTrip(u.id, t3);
      UintTrip(u.sequence, rest);
    }
  }

  lemma ThroughTrips(r: RelayThrough)
    requires |r.publicKey| == 32 && |r.token| == 32
    ensures Trips(EncThrough, DecThrough, r)
  {
    hide DecUint, Varint, DecFixed;
    forall rest: bytes ensures DecThrough(EncThrough(r) + rest) == Some((r, rest)) {
      var t3 := r.token + rest;
      var t2 := r.publicKey + t3;
      var t1 := Varint(0) + t2;
      assert EncThrough(r) + rest == Varint(r.version) + t1;
      UintTrip(r.version, t1);
      UintTrip(0, t2);
      FixedTrip(32, r.publicKey, t3);
      FixedTrip(32, r.token, rest);
    }
  }

  lemma V6sTrip(s: seq<Ipv6Address>, rest: bytes)
    requires |s| <= ARRAY_MAX_LENGTH && forall a :: a in s ==> V6Ok(a)
    ensures DecList(DecV6, s != [], EncList(EncV6, s) + rest) == Some((s, rest))
  {
    if s == [] {
      assert EncList(EncV6, s) + rest == rest;
    } else {
      forall a | a in s ensures Trips(EncV6, DecV6, a) {
        V6Trips(a);
      }
      ArrayTrip(EncV6, DecV6, ARRAY_MAX_LENGTH, s, rest);
    }
  }

  lemma SecretTrip(secret: bool, rest: bytes)
    ensures var r := DecOpt(DecUint, secret, (if secret then Varint(1) else []) + rest);
            r.Some? && r.value.0.Some? == secret && r.value.1 == rest
  {
    if secret {
      UintTrip(1, rest);
    } else {
      assert [] + rest == rest;
    }
  }

  lemma PayloadTrip(p: NoisePayload)
    requires PayloadOk(p)
    ensures DecodePayload(EncodePayload(p)) == Some(p)
  {
    hide DecUint, DecV4, EncV4, DecV6, EncV6, DecOpt, EncOpt, Varint, Flags, Has, DecList, EncList;
    var flags := PayloadFlags(p);
    FlagsTell(p.holepunch.Some?, p.addresses4 != [], p.addresses6 != [], p.udx.Some?, p.secretStream,
      p.relayThrough.Some?, p.relayAddresses != []);
    var t11 := EncList(EncV4, p.relayAddresses) + [];
    var t10 := EncOpt(EncThrough, p.relayThrough) + t11;
    var t9 := (if p.secretStream then Varint(1) else []) + t10;
    var t8 := EncOpt(EncUdx, p.udx) + t9;
    var t7 := EncList(EncV6, p.addresses6) + t8;
    var t6 := EncList(EncV4, p.addresses4) + t7;
    var t5 := EncOpt(EncHolepunch, p.holepunch) + t6;
    var t4 := Varint(p.firewall) + t5;
    var t3 := Varint(p.error) + t4;
    var t2 := Varint(flags) + t3;
    assert t11 == EncList(EncV4, p.relayAddresses) && EncodePayload(p) == Varint(p.version) + t2;
    UintTrip(p.version, t2);
    UintTrip(flags, t3);
    UintTrip(p.error, t4);
    UintTrip(p.firewall, t5);
    PayloadOptions(p, t6, t9, t11);
    V4sTrip(p.addresses4, t7);
    V6sTrip(p.addresses6, t8);
    SecretTrip(p.secretStream, t10);
    V4sTrip(p.relayAddresses, []);
  }

  lemma PayloadOptions(p: NoisePayload, afterHolepunch: bytes, afterUdx: bytes, afterThrough: bytes)
    requires PayloadOk(p)
    ensures DecOpt(DecHolepunch, p.holepunch.Some?, EncOpt(EncHolepunch, p.holepunch) + afterHolepunch) ==
              Some((p.holepunch, afterHolepunch))
    ensures DecOpt(DecUdx, p.udx.Some?, EncOpt(EncUdx, p.udx) + afterUdx) == Some((p.udx, afterUdx))
    ensures DecOpt(DecThrough, p.relayThrough.Some?, EncOpt(EncThrough, p.relayThrough) + afterThrough) ==
              Some((p.relayThrough, afterThrough))
  {
    if p.holepunch.Some? {
      HolepunchTrips(p.holepunch.value);
    }
    if p.udx.Some? {
      UdxTrips(p.udx.value);
    }
    if p.relayThrough.Some? {
      ThroughTrips(p.relayThrough.value);
    }
    OptTrip(EncHolepunch, DecHolepunch, p.holepunch, afterHolepunch);
    OptTrip(EncUdx, DecUdx, p.udx, afterUdx);
    OptTrip(EncThrough, DecThrough, p.relayThrough, afterThrough);
  }

  // ------------------------------------------------------------------------------------------
  // The wrappers of handshake and holepunch messages
  // ------------------------------------------------------------------------------------------

  datatype HandshakeMessage = HandshakeMessage(mode: u32, noise: Small, peer: Option<Ipv4Address>,
                                               relay: Option<Ipv4Address>)

  function EncodeHandshake(m: HandshakeMessage): bytes {
    Varint(Bit(m.peer.Some?) + 2 * Bit(m.relay.Some?)) +
      (Varint(m.mode) + (EncSmall(m.noise) + (EncOpt(EncV4, m.peer) + EncOpt(EncV4, m.relay))))
  }

  function DecodeHandshake(b: bytes): Option<HandshakeMessage> {
    var (flags, b1) :- DecUint(b);
    var (mode, b2) :- DecUint(b1);
    var (noise, b3) :- DecBuffer(b2);
    var (peer, b4) :- DecOpt(DecV4, Has(flags % 0x100, 1), b3);
    var (relay, b5) :- DecOpt(DecV4, Has(flags % 0x100, 2), b4);
    Some(HandshakeMessage(U32(mode), noise, peer, relay))
  }

  ghost predicate AddressOk(a: Option<Ipv4Address>) {
    a.Some? ==> a.value.Valid()
  }

  lemma AddressTrip(a: Option<Ipv4Address>, rest: bytes)
    requires AddressOk(a)
    ensures DecOpt(DecV4, a.Some?, EncOpt(EncV4, a) + rest) == Some((a, rest))
  {
    if a.Some? {
      V4Trips(a.value);
    }
    OptTrip(EncV4, DecV4, a, rest);
  }

  lemma HandshakeTrip(m: HandshakeMessage)
    requires AddressOk(m.peer) && AddressOk(m.relay)
    ensures DecodeHandshake(EncodeHandshake(m)) == Some(m)
  {
    hide DecUint, DecBuffer, EncBuffer, DecOpt, EncOpt, Varint;
    var t4 := EncOpt(EncV4, m.relay) + [];
    var t3 := EncOpt(EncV4, m.peer) + t4;
    var t2 := EncSmall(m.noise) + t3;
    var t1 := Varint(m.mode) + t2;
    var flags := Bit(m.peer.Some?) + 2 * Bit(m.relay.Some?);
    assert t4 == EncOpt(EncV4, m.relay) && EncodeHandshake(m) == Varint(flags) + t1;
    UintTrip(flags, t1);
    UintTrip(m.mode, t2);
    BufferTrip(m.noise, t3);
    AddressTrip(m.peer, t4);
    AddressTrip(m.relay, []);
  }

  datatype PunchPayload = PunchPayload(connected: bool, punching: bool, error: u32, firewall: u32, round: u32,
                                       addresses: seq<Ipv4Address>, remote: Option<Ipv4Address>, token: Option<bytes>,
                                       remoteToken: Option<bytes>)

  function PunchFlags(p: PunchPayload): u64 {
    Flags(p.connected, p.punching, p.addresses != [], p.remote.Some?, p.token.Some?, p.remoteToken.Some?, false)
  }

  function EncodePunch(p: PunchPayload): bytes
    requires |p.addresses| <= ARRAY_MAX_LENGTH
  {
    Varint(PunchFlags(p)) + (Varint(p.error) + (Varint(p.firewall) + (Varint(p.round) + (EncList(EncV4, p.addresses) +
    (EncOpt(EncV4, p.remote) + (EncOpt(EncFixed, p.token) + EncOpt(EncFixed, p.remoteToken)))))))
  }

  /** A firewall value beyond 3 is refused. */
  function DecodePunch(b: bytes): Option<PunchPayload> {
    var (flags64, b1) :- DecUint(b);
    var flags := U32(flags64);
    var (error, b2) :- DecUint(b1);
    var (firewall, b3) :- DecUint(b2);
    if U32(firewall) > 3 then None
    else
      var (round, b4) :- DecUint(b3);
      var (addresses, b5) :- DecList(DecV4, Has(flags, 4), b4);
      var (remote, b6) :- DecOpt(DecV4, Has(flags, 8), b5);
      var (token, b7) :- DecOpt(DecId, Has(flags, 16), b6);
      var (remoteToken, b8) :- DecOpt(DecId, Has(flags, 32), b7);
      Some(PunchPayload(Has(flags, 1), Has(flags, 2), U32(error), U32(firewall), U32(round), addresses, remote, token,
        remoteToken))
  }

  lemma PunchTrip(p: PunchPayload)
    requires p.firewall <= 3 && AllValid(p.addresses) && AddressOk(p.remote) && IdOk(p.token) && IdOk(p.remoteToken)
    ensures DecodePunch(EncodePunch(p)) == Some(p)
  {
    hide DecUint, DecV4, EncV4, DecId, DecOpt, EncOpt, Varint, Flags, Has, DecList, EncList;
    var flags := PunchFlags(p);
    FlagsTell(p.connected, p.punching, p.addresses != [], p.remote.Some?, p.token.Some?, p.remoteToken.Some?, false);
    var t8 := EncOpt(EncFixed, p.remoteToken) + [];
    var t7 := EncOpt(EncFixed, p.token) + t8;
    var t6 := EncOpt(EncV4, p.remote) + t7;
    var t5 := EncList(EncV4, p.addresses) + t6;
    var t4 := Varint(p.round) + t5;
    var t3 := Varint(p.firewall) + t4;
    var t2 := Varint(p.error) + t3;
    assert t8 == EncOpt(EncFixed, p.remoteToken) && EncodePunch(p) == Varint(flags) + t2;
    UintTrip(flags, t2);
    UintTrip(p.error, t3);
    UintTrip(p.firewall, t4);
    UintTrip(p.round, t5);
    V4sTrip(p.addresses, t6);
    AddressTrip(p.remote, t7);
    IdTrip(p.token, t8);
    IdTrip(p.remoteToken, []);
  }

  datatype PunchMessage = PunchMessage(mode: u32, id: u32, payload: Small, peer: Option<Ipv4Address>)

  function EncodePunchMessage(m: PunchMessage): bytes {
    Varint(Bit(m.peer.Some?)) + (Varint(m.mode) + (Varint(m.id) + (EncSmall(m.payload) + EncOpt(EncV4, m.peer))))
  }

  /** A peer address that is announced but cut short reads as zero. */
  function DecodePunchMessage(b: bytes): Option<PunchMessage> {
    var (flags, b1) :- DecUint(b);
    if flags > 0xFF then None
    else
      var (mode, b2) :- DecUint(b1);
      if mode > 0xFF then None
      else
        var (id, b3) :- DecUint(b2);
        if id > 0xFFFF_FFFF then None
        else
          var (payload, b4) :- DecBuffer(b3);
          var peer := if !Has(flags, 1) then None else
                      match DecV4(b4) case None => Some(NO_ADDRESS) case Some((a, rest)) => Some(a);
          Some(PunchMessage(mode, id, payload, peer))
  }

  lemma PunchMessageTrip(m: PunchMessage)
    requires m.mode <= 0xFF && AddressOk(m.peer)
    ensures DecodePunchMessage(EncodePunchMessage(m)) == Some(m)
  {
    hide DecUint, DecBuffer, EncBuffer, DecV4, EncV4, Varint;
    var t4 := EncOpt(EncV4, m.peer) + [];
    var t3 := EncSmall(m.payload) + t4;
    var t2 := Varint(m.id) + t3;
    var t1 := Varint(m.mode) + t2;
    assert t4 == EncOpt(EncV4, m.peer) && EncodePunchMessage(m) == Varint(Bit(m.peer.Some?)) + t1;
    UintTrip(Bit(m.peer.Some?), t1);
    UintTrip(m.mode, t2);
    UintTrip(m.id, t3);
    BufferTrip(m.payload, t4);
    if m.peer.Some? {
      V4Trip(m.peer.value, []);
    }
  }

  // ------------------------------------------------------------------------------------------
  // Storage and lookup
  // ------------------------------------------------------------------------------------------

  datatype PeerRecord = PeerRecord(publicKey: bytes, relays: seq<Ipv4Address>)
  datatype Announce = Announce(peer: Option<PeerRecord>, refresh: Option<bytes>, signature: Option<bytes>, bump: u64)
  datatype MutablePut = MutablePut(publicKey: bytes, sequence: u64, value: Small, signature: bytes)
  datatype MutableGet = MutableGet(sequence: u64, value: bytes, signature: bytes)
  datatype Lookup = Lookup(peers: seq<bytes>, bump: u64)

  function EncRecord(p: PeerRecord): bytes {
    p.publicKey + (Varint(|p.relays| % 0x1_0000_0000_0000_0000) + EncAll(EncV4, p.relays))
  }

  function DecRecord(b: bytes): Decoded<PeerRecord> {
    var (publicKey, b1) :- DecFixed(32, b);
    var (relays, b2) :- DecArray(DecV4, ARRAY_MAX_LENGTH, b1);
    Some((PeerRecord(publicKey, relays), b2))
  }

  ghost predicate RecordOk(p: PeerRecord) {
    |p.publicKey| == 32 && AllValid(p.relays)
  }

  lemma RelaysTrip(relays: seq<Ipv4Address>, rest: bytes)
    requires AllValid(relays)
    ensures DecArray(DecV4, ARRAY_MAX_LENGTH, EncArray(EncV4, relays) + rest) == Some((relays, rest))
  {
    forall a | a in relays ensures Trips(EncV4, DecV4, a) {
      V4Trips(a);
    }
    ArrayTrip(EncV4, DecV4, ARRAY_MAX_LENGTH, relays, rest);
  }

  lemma RecordTrips(p: PeerRecord)
    requires RecordOk(p)
    ensures Trips(EncRecord, DecRecord, p)
  {
    hide DecFixed, EncV4, DecV4, DecArray, EncAll, Varint;
    var list := EncArray(EncV4, p.relays);
    assert EncRecord(p) == p.publicKey + list;
    forall rest: bytes ensures DecRecord(EncRecord(p) + rest) == Some((p, rest)) {
      RelaysTrip(p.relays, rest);
      FixedTrip(32, p.publicKey, list + rest);
      assert EncRecord(p) + rest == p.publicKey + (list + rest);
    }
  }

  function DecSignature(b: bytes): Decoded<bytes> {
    DecFixed(64, b)
  }

  function EncodeAnnounce(m: Announce): bytes {
    Varint(Flags(m.peer.Some?, m.refresh.Some?, m.signature.Some?, m.bump > 0, false, false, false)) +
    (EncOpt(EncRecord, m.peer) + (EncOpt(EncFixed, m.refresh) +
      (EncOpt(EncFixed, m.signature) + (if m.bump > 0 then Varint(m.bump) else []))))
  }

  function DecodeAnnounce(b: bytes): Option<Announce> {
    var (flags, b1) :- DecUint(b);
    if flags > 0xFF then None
    else
      var (peer, b2) :- DecOpt(DecRecord, Has(flags, 1), b1);
      var (refresh, b3) :- DecOpt(DecId, Has(flags, 2), b2);
      var (signature, b4) :- DecOpt(DecSignature, Has(flags, 4), b3);
      var (bump, b5) :- DecOpt(DecUint, Has(flags, 8), b4);
      Some(Announce(peer, refresh, signature, if bump.Some? then bump.value % 0x1_0000_0000_0000_0000 else 0))
  }

  lemma SignatureTrip(v: Option<bytes>, rest: bytes)
    requires v.Some? ==> |v.value| == 64
    ensures DecOpt(DecSignature, v.Some?, EncOpt(EncFixed, v) + rest) == Some((v, rest))
  {
    if v.Some? {
      FixedTrip(64, v.value, rest);
    } else {
      assert EncOpt(EncFixed, v) + rest == rest;
    }
  }

  lemma RecordTrip(v: Option<PeerRecord>, rest: bytes)
    requires v.Some? ==> RecordOk(v.value)
    ensures DecOpt(DecRecord, v.Some?, EncOpt(EncRecord, v) + rest) == Some((v, rest))
  {
    if v.Some? {
      RecordTrips(v.value);
    }
    OptTrip(EncRecord, DecRecord, v, rest);
  }

  lemma BumpTrip(bump: u64)
    ensures var r := DecOpt(DecUint, bump > 0, if bump > 0 then Varint(bump) else []);
            r.Some? && r.value.0 == if bump > 0 then Some(bump as nat) else None
  {
    if bump > 0 {
      UintTrip(bump, []);
      assert Varint(bump) + [] == Varint(bump);
    }
  }

  lemma AnnounceTrip(m: Announce)
    requires (m.peer.Some? ==> RecordOk(m.peer.value)) && IdOk(m.refresh) &&
              (m.signature.Some? ==> |m.signature.value| == 64)
    ensures DecodeAnnounce(EncodeAnnounce(m)) == Some(m)
  {
    hide DecUint, DecRecord, EncRecord, DecId, DecSignature, DecOpt, EncOpt, Varint, Flags, Has;
    FlagsTell(m.peer.Some?, m.refresh.Some?, m.signature.Some?, m.bump > 0, false, false, false);
    var flags := Flags(m.peer.Some?, m.refresh.Some?, m.signature.Some?, m.bump > 0, false, false, false);
    var t5 := if m.bump > 0 then Varint(m.bump) else [];
    var t4 := EncOpt(EncFixed, m.signature) + t5;
    var t3 := EncOpt(EncFixed, m.refresh) + t4;
    var t2 := EncOpt(EncRecord, m.peer) + t3;
    UintTrip(flags, t2);
    RecordTrip(m.peer, t3);
    IdTrip(m.refresh, t4);
    SignatureTrip(m.signature, t5);
    BumpTrip(m.bump);
  }

  function EncodePut(m: MutablePut): bytes {
    m.publicKey + (Varint(m.sequence) + (EncSmall(m.value) + m.signature))
  }

  function DecodePut(b: bytes): Option<MutablePut> {
    var (publicKey, b1) :- DecFixed(32, b);
    var (sequence, b2) :- DecUint(b1);
    var (value, b3) :- DecBuffer(b2);
    var (signature, b4) :- DecFixed(64, b3);
    Some(MutablePut(publicKey, sequence % 0x1_0000_0000_0000_0000, value, signature))
  }

  lemma PutTrip(m: MutablePut)
    requires |m.publicKey| == 32 && |m.signature| == 64
    ensures DecodePut(EncodePut(m)) == Some(m)
  {
    hide DecFixed, DecUint, DecBuffer, EncBuffer, Varint;
    var t3 := m.signature + [];
    var t2 := EncSmall(m.value) + t3;
    var t1 := Varint(m.sequence) + t2;
    assert t3 == m.signature && EncodePut(m) == m.publicKey + t1;
    FixedTrip(32, m.publicKey, t1);
    UintTrip(m.sequence, t2);
    BufferTrip(m.value, t3);
    FixedTrip(64, m.signature, []);
  }

  function EncodeGet(m: MutableGet): bytes
    requires |m.value| < 0x1_0000_0000_0000_0000
  {
    Varint(m.sequence) + (EncBuffer(m.value) + m.signature)
  }

  function DecodeGet(b: bytes): Option<MutableGet> {
    var (sequence, b1) :- DecUint(b);
    var (value, b2) :- DecBuffer(b1);
    var (signature, b3) :- DecFixed(64, b2);
    Some(MutableGet(sequence % 0x1_0000_0000_0000_0000, value, signature))
  }

  /** A stored value comes back exactly when it is within the buffer cap. */
  lemma GetTripIffSmall(m: MutableGet)
    requires |m.value| < 0x1_0000_0000_0000_0000 && |m.signature| == 64
    ensures DecodeGet(EncodeGet(m)) == if |m.value| <= MAX_BUFFER_DECODE then Some(m) else None
  {
    hide DecFixed, DecUint, DecBuffer, EncBuffer, Varint;
    var t2 := m.signature + [];
    var t1 := EncBuffer(m.value) + t2;
    assert t2 == m.signature && EncodeGet(m) == Varint(m.sequence) + t1;
    UintTrip(m.sequence, t1);
    if |m.value| <= MAX_BUFFER_DECODE {
      BufferTrip(m.value, t2);
      FixedTrip(64, m.signature, []);
    } else {
      LongBufferIsRefused(m.value, t2);
    }
  }

  const MAX_LOOKUP: nat := 1024

  function EncPeers(peers: seq<Small>): bytes {
    EncAll(EncSmall, peers)
  }

  function EncodeLookup(peers: seq<Small>, bump: u64): bytes
    requires |peers| <= MAX_LOOKUP
  {
    Varint(|peers|) + (EncPeers(peers) + Varint(bump))
  }

  /** The records read before an error, and the rest of the input if there was none; empty records are dropped. */
  function ReadPeers(n: nat, b: bytes): (seq<bytes>, Option<bytes>)
    decreases n
  {
    if n == 0 then ([], Some(b))
    else
      match DecBuffer(b)
      case None => ([], None)
      case Some((peer, rest)) =>
        var (peers, left) := ReadPeers(n - 1, rest);
        ((if peer == [] then [] else [peer]) + peers, left)
  }

  function DecodeLookup(b: bytes): Lookup {
    match DecUint(b)
    case None => Lookup([], 0)
    case Some((count, rest)) =>
      if count > MAX_LOOKUP then Lookup([], 0)
      else
        var (peers, left) := ReadPeers(count, rest);
        match left
        case None => Lookup(peers, 0)
        case Some(l) =>
          match DecUint(l)
          case None => Lookup(peers, 0)
          case Some((bump, _)) => Lookup(peers, bump % 0x1_0000_0000_0000_0000)
  }

  function NonEmpty(peers: seq<Small>): seq<bytes> {
    if peers == [] then [] else (if peers[0] == [] then [] else [peers[0]]) + NonEmpty(peers[1..])
  }

  lemma {:induction false} PeersTrip(peers: seq<Small>, rest: bytes)
    ensures ReadPeers(|peers|, EncPeers(peers) + rest) == (NonEmpty(peers), Some(rest))
  {
    hide DecBuffer, EncBuffer;
    if peers == [] {
      assert EncPeers(peers) + rest == rest;
    } else {
      assert EncPeers(peers) + rest == EncSmall(peers[0]) + (EncPeers(peers[1..]) + rest);
      BufferTrip(peers[0], EncPeers(peers[1..]) + rest);
      PeersTrip(peers[1..], rest);
    }
  }

  /** A lookup reply comes back without its empty records. */
  lemma LookupTrip(peers: seq<Small>, bump: u64)
    requires |peers| <= MAX_LOOKUP
    ensures DecodeLookup(EncodeLookup(peers, bump)) == Lookup(NonEmpty(peers), bump)
  {
    hide DecUint, Varint, ReadPeers, EncPeers, NonEmpty;
    var t2 := Varint(bump) + [];
    assert t2 == Varint(bump);
    UintTrip(|peers|, EncPeers(peers) + t2);
    PeersTrip(peers, t2);
    UintTrip(bump, []);
  }
}
