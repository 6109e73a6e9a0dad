/** What the decoders without an error result hand back (src/peer_connect.cpp:151-295,
    src/holepunch.cpp:194-229, 1147-1173, src/dht_messages.cpp:91-250): the fields as far as they could be
    read. Behind an error they keep the values they start with, the one that was cut short is zero, and of
    a list the elements before the error stay. Where the message decodes, these are its fields. */
module Fields {
  import opened Wrappers
  import opened Bytes
  import opened Varints
  import opened Addresses
  import opened Compact
  import opened Messages

  function ListPart<T>(dec: bytes -> Decoded<T>, zero: T, present: bool, b: bytes): (seq<T>, Option<bytes>) {
    if present then ArrayPart(dec, zero, ARRAY_MAX_LENGTH, b) else ([], Some(b))
  }

  lemma ListPartIs<T>(dec: bytes -> Decoded<T>, zero: T, present: bool, b: bytes)
    ensures var (vs, left) := ListPart(dec, zero, present, b);
            DecList(dec, present, b) == if left.Some? then Some((vs, left.value)) else None
  {
    ArrayPartIs(dec, zero, ARRAY_MAX_LENGTH, b);
  }

  /** An optional field that is announced but cut short is kept as zero. */
  function OptPart<T>(dec: bytes -> Decoded<T>, zero: T, present: bool, b: bytes): (Option<T>, Option<bytes>) {
    match DecOpt(dec, present, b)
    case None => (Some(zero), None)
    case Some((v, rest)) => (v, Some(rest))
  }

  // ------------------------------------------------------------------------------------------
  // The handshake
  // ------------------------------------------------------------------------------------------

  const ERROR_VERSION_MISMATCH: u32 := 2
  const NO_PAYLOAD := NoisePayload(1, 0, 0, None, [], [], None, false, None, [])

  /** decode_noise_payload. Another version than 1 is an error of its own. */
  function PayloadFields(b: bytes): NoisePayload {
    match DecUint(b)
    case None => NO_PAYLOAD.(version := 0, error := ERROR_VERSION_MISMATCH)
    case Some((version, b1)) =>
      if U32(version) != 1 then NO_PAYLOAD.(version := U32(version), error := ERROR_VERSION_MISMATCH)
      else
        match DecUint(b1)
        case None => NO_PAYLOAD
        case Some((flags, b2)) => NumberFields(U32(flags), b2)
  }

  function NumberFields(flags: u32, b: bytes): NoisePayload {
    match DecUint(b)
    case None => NO_PAYLOAD
    case Some((error, b1)) =>
      var p := NO_PAYLOAD.(error := U32(error));
      match DecUint(b1)
      case None => p
      case Some((firewall, b2)) => AddressFields(flags, p.(firewall := U32(firewall)), b2)
  }

  function AddressFields(flags: u32, p: NoisePayload, b: bytes): NoisePayload {
    match DecOpt(DecHolepunch, Has(flags, 1), b)
    case None => p
    case Some((holepunch, b1)) =>
      var (addresses4, b2) := ListPart(DecV4, NO_ADDRESS, Has(flags, 2), b1);
      var q := p.(holepunch := holepunch, addresses4 := addresses4);
      if b2.None? then q
      else
        var (addresses6, b3) := ListPart(DecV6, NO_ADDRESS6, Has(flags, 4), b2.value);
        var r := q.(addresses6 := addresses6);
        if b3.None? then r else LinkFields(flags, r, b3.value)
  }

  function LinkFields(flags: u32, p: NoisePayload, b: bytes): NoisePayload {
    match DecOpt(DecUdx, Has(flags, 8), b)
    case None => p
    case Some((udx, b1)) =>
      var q := p.(udx := udx);
      match DecOpt(DecUint, Has(flags, 16), b1)
      case None => q
      case Some((secret, b2)) =>
        var r := q.(secretStream := secret.Some?);
        match DecOpt(DecThrough, Has(flags, 32), b2)
        case None => r
        case Some((through, b3)) =>
          r.(relayThrough := through, relayAddresses := ListPart(DecV4, NO_ADDRESS, Has(flags, 64), b3).0)
  }

  lemma PayloadFieldsAre(b: bytes)
    ensures DecodePayload(b).Some? ==> DecodePayload(b).value == PayloadFields(b)
  {
    hide DecUint, DecOpt, ListPart, DecList, Has;
    var d := DecUint(b);
    if d.Some? {
      var f := DecUint(d.value.1);
      if f.Some? {
        NumberFieldsAre(U32(f.value.0), f.value.1);
      }
    }
  }

  /** The sections behind the four numbers of a payload. */
  function DecSections(flags: u32, error: u32, firewall: u32, b: bytes): Option<NoisePayload> {
    var (holepunch, b5) :- DecOpt(DecHolepunch, Has(flags, 1), b);
    var (addresses4, b6) :- DecList(DecV4, Has(flags, 2), b5);
    var (addresses6, b7) :- DecList(DecV6, Has(flags, 4), b6);
    var (udx, secret, through, relays) :- DecLinks(flags, b7);
    Some(NoisePayload(1, error, firewall, holepunch, addresses4, addresses6, udx, secret, through, relays))
  }

  lemma NumberFieldsAre(flags: u32, b: bytes)
    ensures var e := DecUint(b);
            e.Some? ==>
              var f := DecUint(e.value.1);
              f.Some? ==>
                var d := DecSections(flags, U32(e.value.0), U32(f.value.0), f.value.1);
                d.Some? ==> d.value == NumberFields(flags, b)
  {
    hide DecUint, DecOpt, ListPart, DecList, Has;
    var e := DecUint(b);
    if e.Some? {
      var f := DecUint(e.value.1);
      if f.Some? {
        SectionFieldsAre(flags, U32(e.value.0), U32(f.value.0), f.value.1);
      }
    }
  }

  lemma SectionFieldsAre(flags: u32, error: u32, firewall: u32, b: bytes)
    ensures var d := DecSections(flags, error, firewall, b);
            d.Some? ==> d.value == AddressFields(flags, NO_PAYLOAD.(error := error, firewall := firewall), b)
  {
    hide DecUint, DecOpt, ListPart, DecList, Has, LinkFields;
    var p := NO_PAYLOAD.(error := error, firewall := firewall);
    var h := DecOpt(DecHolepunch, Has(flags, 1), b);
    if h.Some? {
      ListPartIs(DecV4, NO_ADDRESS, Has(flags, 2), h.value.1);
      var a := DecList(DecV4, Has(flags, 2), h.value.1);
      if a.Some? {
        ListPartIs(DecV6, NO_ADDRESS6, Has(flags, 4), a.value.1);
        var c := DecList(DecV6, Has(flags, 4), a.value.1);
        if c.Some? {
          LinkFieldsAre(flags, p.(holepunch := h.value.0, addresses4 := a.value.0, addresses6 := c.value.0), c.value.1);
        }
      }
    }
  }

  /** The last four sections of a payload. */
  function DecLinks(flags: u32, b: bytes): Option<(Option<UdxInfo>, bool, Option<RelayThrough>, seq<Ipv4Address>)> {
    var (udx, b8) :- DecOpt(DecUdx, Has(flags, 8), b);
    var (secret, b9) :- DecOpt(DecUint, Has(flags, 16), b8);
    var (through, b10) :- DecOpt(DecThrough, Has(flags, 32), b9);
    var (relays, b11) :- DecList(DecV4, Has(flags, 64), b10);
    Some((udx, secret.Some?, through, relays))
  }

  lemma LinkFieldsAre(flags: u32, p: NoisePayload, b: bytes)
    ensures var d := DecLinks(flags, b);
            d.Some? ==>
              var (udx, secret, through, relays) := d.value;
              LinkFields(flags, p, b) ==
              p.(udx := udx, secretStream := secret, relayThrough := through, relayAddresses := relays)
  {
    hide DecUint, DecOpt, ListPart, DecList, Has;
    var u := DecOpt(DecUdx, Has(flags, 8), b);
    if u.Some? {
      var x := DecOpt(DecUint, Has(flags, 16), u.value.1);
      if x.Some? {
        var t := DecOpt(DecThrough, Has(flags, 32), x.value.1);
        if t.Some? {
          ListPartIs(DecV4, NO_ADDRESS, Has(flags, 64), t.value.1);
        }
      }
    }
  }

  // ------------------------------------------------------------------------------------------
  // The handshake wrapper and the holepunch messages
  // ------------------------------------------------------------------------------------------

  /** decode_handshake_msg. */
  function HandshakeFields(b: bytes): HandshakeMessage {
    var m := HandshakeMessage(0, [], None, None);
    match DecUint(b)
    case None => m
    case Some((flags, b1)) =>
      match DecUint(b1)
      case None => m
      case Some((mode, b2)) =>
        match DecBuffer(b2)
        case None => m.(mode := U32(mode))
        case Some((noise, b3)) =>
          var (peer, b4) := OptPart(DecV4, NO_ADDRESS, Has(flags % 0x100, 1), b3);
          var q := HandshakeMessage(U32(mode), noise, peer, None);
          if b4.None? then q
          else q.(relay := OptPart(DecV4, NO_ADDRESS, Has(flags % 0x100, 2), b4.value).0)
  }

  lemma HandshakeFieldsAre(b: bytes)
    ensures DecodeHandshake(b).Some? ==> DecodeHandshake(b).value == HandshakeFields(b)
  {
    hide DecUint, DecBuffer, DecOpt, Has;
  }

  /** decode_holepunch_payload. A firewall value beyond 3 is kept, and nothing behind it is read. */
  function PunchFields(b: bytes): PunchPayload {
    var p := PunchPayload(false, false, 0, 0, 0, [], None, None, None);
    match DecUint(b)
    case None => p
    case Some((flags64, b1)) =>
      var flags := U32(flags64);
      var q := p.(connected := Has(flags, 1), punching := Has(flags, 2));
      match DecUint(b1)
      case None => q
      case Some((error, b2)) =>
        var r := q.(error := U32(error));
        match DecUint(b2)
        case None => r
        case Some((firewall, b3)) =>
          var t := r.(firewall := U32(firewall));
          if U32(firewall) > 3 then t
          else
            match DecUint(b3)
            case None => t
            case Some((round, b4)) => PunchSections(flags, t.(round := U32(round)), b4)
  }

  function PunchSections(flags: u32, p: PunchPayload, b: bytes): PunchPayload {
    var (addresses, b1) := ListPart(DecV4, NO_ADDRESS, Has(flags, 4), b);
    var q := p.(addresses := addresses);
    if b1.None? then q
    else
      var (remote, b2) := OptPart(DecV4, NO_ADDRESS, Has(flags, 8), b1.value);
      var r := q.(remote := remote);
      if b2.None? then r
      else
        var (token, b3) := OptPart(DecId, Zeros(32), Has(flags, 16), b2.value);
        var t := r.(token := token);
        if b3.None? then t
        else t.(remoteToken := OptPart(DecId, Zeros(32), Has(flags, 32), b3.value).0)
  }

  lemma PunchFieldsAre(b: bytes)
    ensures DecodePunch(b).Some? ==> DecodePunch(b).value == PunchFields(b)
  {
    hide DecUint, DecOpt, ListPart, DecList, Has;
    var d := DecodePunch(b);
    if d.Some? {
      var (f, b1) := DecUint(b).value;
      var b2 := DecUint(b1).value.1;
      var b3 := DecUint(b2).value.1;
      ListPartIs(DecV4, NO_ADDRESS, Has(U32(f), 4), DecUint(b3).value.1);
    }
  }

  /** decode_holepunch_msg. */
  function PunchMessageFields(b: bytes): PunchMessage {
    var m := PunchMessage(0, 0, [], None);
    match DecUint(b)
    case None => m
    case Some((flags, b1)) =>
      if flags > 0xFF then m
      else
        match DecUint(b1)
        case None => m
        case Some((mode, b2)) =>
          if mode > 0xFF then m
          else
            match DecUint(b2)
            case None => m.(mode := mode)
            case Some((id, b3)) =>
              if id > 0xFFFF_FFFF then m.(mode := mode)
              else
                match DecBuffer(b3)
                case None => m.(mode := mode, id := id)
                case Some((payload, b4)) =>
                  PunchMessage(mode, id, payload, OptPart(DecV4, NO_ADDRESS, Has(flags, 1), b4).0)
  }

  lemma PunchMessageFieldsAre(b: bytes)
    ensures DecodePunchMessage(b).Some? ==> DecodePunchMessage(b).value == PunchMessageFields(b)
  {
    hide DecUint, DecBuffer, DecV4, Has;
  }

  // ------------------------------------------------------------------------------------------
  // Storage and lookup
  // ------------------------------------------------------------------------------------------

  /** decode_peer_record, and whether there was no error. */
  function RecordFields(b: bytes): (PeerRecord, Option<bytes>) {
    match DecFixed(32, b)
    case None => (PeerRecord(Zeros(32), []), None)
    case Some((publicKey, b1)) =>
      var (relays, left) := ArrayPart(DecV4, NO_ADDRESS, ARRAY_MAX_LENGTH, b1);
      (PeerRecord(publicKey, relays), left)
  }

  lemma RecordFieldsAre(b: bytes)
    ensures var (p, left) := RecordFields(b); DecRecord(b) == if left.Some? then Some((p, left.value)) else None
  {
    hide DecFixed, ArrayPart, DecArray;
    var d := DecFixed(32, b);
    if d.Some? {
      ArrayPartIs(DecV4, NO_ADDRESS, ARRAY_MAX_LENGTH, d.value.1);
    }
  }

  /** decode_announce_msg. A record that is cut short is left out. */
  function AnnounceFields(b: bytes): Announce {
    var m := Announce(None, None, None, 0);
    match DecUint(b)
    case None => m
    case Some((flags, b1)) =>
      if flags > 0xFF then m
      else
        match DecOpt(DecRecord, Has(flags, 1), b1)
        case None => m
        case Some((peer, b2)) =>
          var (refresh, b3) := OptPart(DecId, Zeros(32), Has(flags, 2), b2);
          var q := m.(peer := peer, refresh := refresh);
          if b3.None? then q
          else
            var (signature, b4) := OptPart(DecSignature, Zeros(64), Has(flags, 4), b3.value);
            var r := q.(signature := signature);
            if b4.None? then r
            else
              match DecOpt(DecUint, Has(flags, 8), b4.value)
              case None => r
              case Some((bump, b5)) =>
                r.(bump := if bump.Some? then bump.value % 0x1_0000_0000_0000_0000 else 0)
  }

  lemma AnnounceFieldsAre(b: bytes)
    ensures DecodeAnnounce(b).Some? ==> DecodeAnnounce(b).value == AnnounceFields(b)
  {
    hide DecUint, DecOpt, Has;
  }

  /** decode_mutable_put. */
  function PutFields(b: bytes): (r: MutablePut)
    ensures DecodePut(b).Some? ==> r == DecodePut(b).value
    ensures |r.publicKey| == 32 && |r.signature| == 64
  {
    match DecFixed(32, b)
    case None => MutablePut(Zeros(32), 0, [], Zeros(64))
    case Some((publicKey, b1)) =>
      match DecUint(b1)
      case None => MutablePut(publicKey, 0, [], Zeros(64))
      case Some((s, b2)) =>
        var sequence := s % 0x1_0000_0000_0000_0000;
        match DecBuffer(b2)
        case None => MutablePut(publicKey, sequence, [], Zeros(64))
        case Some((value, b3)) =>
          match DecFixed(64, b3)
          case None => MutablePut(publicKey, sequence, value, Zeros(64))
          case Some((signature, b4)) => MutablePut(publicKey, sequence, value, signature)
  }

  /** decode_mutable_get_resp. */
  function GetFields(b: bytes): (r: MutableGet)
    ensures DecodeGet(b).Some? ==> r == DecodeGet(b).value
  {
    match DecUint(b)
    case None => MutableGet(0, [], Zeros(64))
    case Some((s, b1)) =>
      var sequence := s % 0x1_0000_0000_0000_0000;
      match DecBuffer(b1)
      case None => MutableGet(sequence, [], Zeros(64))
      case Some((value, b2)) =>
        match DecFixed(64, b2)
        case None => MutableGet(sequence, value, Zeros(64))
        case Some((signature, b3)) => MutableGet(sequence, value, signature)
  }
}
