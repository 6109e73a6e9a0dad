/** The encoders and decoders as the source writes them: a first pass over the fields that counts, a
    second that writes, and a cursor that reads (src/messages.cpp:24-230). Each message's two passes
    are separate pieces of code; that they agree is what is proved here: the second pass writes
    exactly the counted number of bytes, with no error, and the bytes are those the functions of
    Messages give. A reader gives what the decoding function gives, on every byte string. */
module MessageCodec {
  import opened Wrappers
  import opened Bytes
  import opened Varints
  import opened Addresses
  import opened Compact
  import opened Messages
  import opened Fields

  // ------------------------------------------------------------------------------------------
  // Fields
  // ------------------------------------------------------------------------------------------

  /** Everything written so far followed by what is still to come is the whole message, and the counted
      size is the message's. */
  ghost predicate Pending(s: State, rest: bytes, whole: bytes)
    reads s, s.buffer
  {
    s.Writing() && !s.error && s.Out() + rest == whole && s.end == |whole|
  }

  /** x has been written. */
  lemma Written(out: bytes, x: bytes, rest: bytes)
    ensures out + (x + rest) == out + x + rest
  {
  }

  /** The buffer of the counted size is there and nothing has been written. */
  lemma NothingWritten(s: State, whole: bytes)
    requires s.Writing() && !s.error && s.Out() == [] && s.end == |whole|
    ensures Pending(s, whole, whole)
  {
    assert [] + whole == whole;
  }

  /** Nothing is left to write, so the buffer is full and is the message. */
  lemma AllWritten(s: State, whole: bytes)
    requires Pending(s, [], whole)
    ensures s.start == s.end && s.buffer[..] == whole
  {
    assert s.Out() + [] == s.Out() && s.buffer[..s.start] == s.buffer[..];
  }

  method PutUint(s: State, v: u64, ghost rest: bytes, ghost whole: bytes)
    requires Pending(s, Varint(v) + rest, whole)
    modifies s`start, s`error, s.buffer
    ensures Pending(s, rest, whole) && s.buffer == old(s.buffer)
  {
    hide Varint, VarintSize;
    Written(s.Out(), Varint(v), rest);
    s.PutUint(v);
  }

  method PutShort(s: State, v: u16, ghost rest: bytes, ghost whole: bytes)
    requires Pending(s, Le(v, 2) + rest, whole)
    modifies s`start, s`error, s.buffer
    ensures Pending(s, rest, whole) && s.buffer == old(s.buffer)
  {
    hide Le;
    Written(s.Out(), Le(v, 2), rest);
    s.PutLe(v, 2);
  }

  method PutFixed(s: State, v: bytes, ghost rest: bytes, ghost whole: bytes)
    requires Pending(s, v + rest, whole)
    modifies s`start, s`error, s.buffer
    ensures Pending(s, rest, whole) && s.buffer == old(s.buffer)
  {
    Written(s.Out(), v, rest);
    s.PutBytes(v);
  }

  method PutBuffer(s: State, v: bytes, ghost rest: bytes, ghost whole: bytes)
    requires |v| < 0x1_0000_0000_0000_0000 && Pending(s, EncBuffer(v) + rest, whole)
    modifies s`start, s`error, s.buffer
    ensures Pending(s, rest, whole) && s.buffer == old(s.buffer)
  {
    hide EncBuffer;
    Written(s.Out(), EncBuffer(v), rest);
    s.PutBuffer(v);
  }

  method PutAddress(s: State, a: Ipv4Address, ghost rest: bytes, ghost whole: bytes)
    requires a.Valid() && Pending(s, EncV4(a) + rest, whole)
    modifies s`start, s`error, s.buffer
    ensures Pending(s, rest, whole) && s.buffer == old(s.buffer)
  {
    hide EncV4;
    V4Size(a);
    Written(s.Out(), EncV4(a), rest);
    s.PutV4(a);
  }

  /** Fields announced by a flag. */
  method PutOptional(s: State, v: Option<bytes>, ghost rest: bytes, ghost whole: bytes)
    requires Pending(s, EncOpt(EncFixed, v) + rest, whole)
    modifies s`start, s`error, s.buffer
    ensures Pending(s, rest, whole) && s.buffer == old(s.buffer)
  {
    if v.Some? {
      PutFixed(s, v.value, rest, whole);
    } else {
      assert EncOpt(EncFixed, v) + rest == rest;
    }
  }

  method PutOptBuffer(s: State, v: Option<Small>, ghost rest: bytes, ghost whole: bytes)
    requires Pending(s, EncOpt(EncSmall, v) + rest, whole)
    modifies s`start, s`error, s.buffer
    ensures Pending(s, rest, whole) && s.buffer == old(s.buffer)
  {
    hide EncBuffer;
    if v.Some? {
      PutBuffer(s, v.value, rest, whole);
    } else {
      assert EncOpt(EncSmall, v) + rest == rest;
    }
  }

  method PutOptAddress(s: State, a: Option<Ipv4Address>, ghost rest: bytes, ghost whole: bytes)
    requires AddressOk(a) && Pending(s, EncOpt(EncV4, a) + rest, whole)
    modifies s`start, s`error, s.buffer
    ensures Pending(s, rest, whole) && s.buffer == old(s.buffer)
  {
    hide EncV4;
    if a.Some? {
      PutAddress(s, a.value, rest, whole);
    } else {
      assert EncOpt(EncV4, a) + rest == rest;
    }
  }

  method PutAddresses(s: State, v: seq<Ipv4Address>, ghost rest: bytes, ghost whole: bytes)
    requires AllValid(v) && Pending(s, EncArray(EncV4, v) + rest, whole)
    modifies s`start, s`error, s.buffer
    ensures Pending(s, rest, whole) && s.buffer == old(s.buffer)
  {
    hide EncArray, EncV4;
    Written(s.Out(), EncArray(EncV4, v), rest);
    s.PutV4s(v);
  }

  method PutSomeAddresses(s: State, v: seq<Ipv4Address>, ghost rest: bytes, ghost whole: bytes)
    requires AllValid(v) && Pending(s, EncList(EncV4, v) + rest, whole)
    modifies s`start, s`error, s.buffer
    ensures Pending(s, rest, whole) && s.buffer == old(s.buffer)
  {
    hide EncArray, EncV4;
    if v != [] {
      PutAddresses(s, v, rest, whole);
    } else {
      assert EncList(EncV4, v) + rest == rest;
    }
  }

  method PutSomeAddresses6(s: State, v: seq<Ipv6Address>, ghost rest: bytes, ghost whole: bytes)
    requires |v| <= ARRAY_MAX_LENGTH && (forall a :: a in v ==> V6Ok(a)) && Pending(s, EncList(EncV6, v) + rest, whole)
    modifies s`start, s`error, s.buffer
    ensures Pending(s, rest, whole) && s.buffer == old(s.buffer)
  {
    hide EncArray, EncV6;
    if v != [] {
      Written(s.Out(), EncArray(EncV6, v), rest);
      s.PutV6s(v);
    } else {
      assert EncList(EncV6, v) + rest == rest;
    }
  }

  /** What reading a field leaves behind: the value and the rest of the input, or the error flag. */
  ghost predicate Took<T>(s: State, d: Decoded<T>, v: T)
    reads s
  {
    s.Reading() && (if d.Some? then !s.error && v == d.value.0 && s.Rest() == d.value.1 else s.error)
  }

  method GetOptional(s: State, present: bool) returns (v: Option<bytes>)
    requires s.Reading() && !s.error
    modifies s`start, s`error
    ensures Took(s, old(DecOpt(DecId, present, s.Rest())), v)
    ensures v == old(OptPart(DecId, Zeros(32), present, s.Rest())).0
  {
    hide DecFixed;
    v := None;
    if present {
      var x := s.GetFixed(32);
      v := Some(x);
    }
  }

  method GetOptSignature(s: State, present: bool) returns (v: Option<bytes>)
    requires s.Reading() && !s.error
    modifies s`start, s`error
    ensures Took(s, old(DecOpt(DecSignature, present, s.Rest())), v)
    ensures v == old(OptPart(DecSignature, Zeros(64), present, s.Rest())).0
  {
    hide DecFixed;
    v := None;
    if present {
      var x := s.GetFixed(64);
      v := Some(x);
    }
  }

  /** What a buffer reads as is within the cap of the reader. */
  lemma BufferIsSmall(b: bytes)
    ensures var v := DecBuffer(b); v.Some? ==> |v.value.0| <= MAX_BUFFER_DECODE
  {
  }

  method GetSmall(s: State) returns (v: Small)
    requires s.Reading() && !s.error
    modifies s`start, s`error
    ensures Took(s, old(DecBuffer(s.Rest())), v)
  {
    hide DecBuffer;
    v := [];
    BufferIsSmall(s.Rest());
    var x := s.GetBuffer();
    if !s.error {
      v := x;
    }
  }

  method GetOptBuffer(s: State, present: bool) returns (v: Option<Small>)
    requires s.Reading() && !s.error
    modifies s`start, s`error
    ensures Took(s, old(DecOpt(DecBuffer, present, s.Rest())), v)
  {
    hide DecBuffer;
    v := None;
    if present {
      var x := GetSmall(s);
      v := Some(x);
    }
  }

  method GetOptAddress(s: State, present: bool) returns (v: Option<Ipv4Address>)
    requires s.Reading() && !s.error
    modifies s`start, s`error
    ensures Took(s, old(DecOpt(DecV4, present, s.Rest())), v)
    ensures v == old(OptPart(DecV4, NO_ADDRESS, present, s.Rest())).0
  {
    hide DecV4;
    v := None;
    if present {
      var x := s.GetV4();
      v := Some(x);
    }
  }

  method GetSomeAddresses(s: State, present: bool) returns (v: seq<Ipv4Address>)
    requires s.Reading() && !s.error
    modifies s`start, s`error
    ensures Took(s, old(DecList(DecV4, present, s.Rest())), v)
    ensures v == old(ListPart(DecV4, NO_ADDRESS, present, s.Rest())).0
  {
    hide DecArray, ArrayPart;
    v := [];
    if present {
      v := s.GetV4s();
    }
  }

  method GetSomeAddresses6(s: State, present: bool) returns (v: seq<Ipv6Address>)
    requires s.Reading() && !s.error
    modifies s`start, s`error
    ensures Took(s, old(DecList(DecV6, present, s.Rest())), v)
    ensures v == old(ListPart(DecV6, NO_ADDRESS6, present, s.Rest())).0
  {
    hide DecArray, ArrayPart;
    v := [];
    if present {
      v := s.GetV6s();
    }
  }

  // ------------------------------------------------------------------------------------------
  // Requests
  // ------------------------------------------------------------------------------------------

  /** The first pass of encode_request. */
  method PreRequest(s: State, r: Request)
    requires RequestOk(r)
    modifies s`end
    ensures s.end == old(s.end) + |RequestBody(r)|
  {
    hide Varint, EncBuffer, Flags;
    V4Size(r.to);
    s.PreUint(RequestFlags(r));
    s.PreSize(2);
    s.PreSize(6);
    if r.id.Some? {
      s.PreSize(32);
    }
    if r.token.Some? {
      s.PreSize(32);
    }
    s.PreUint(r.command);
    if r.target.Some? {
      s.PreSize(32);
    }
    if r.value.Some? {
      s.PreBuffer(r.value.value);
    }
  }

  /** The two passes of encode_request. */
  method WriteRequest(r: Request) returns (body: bytes)
    requires RequestOk(r)
    ensures body == RequestBody(r)
  {
    hide Varint, Le, EncV4, EncOpt, Flags;
    var s := new State();
    PreRequest(s, r);
    s.Allocate();
    ghost var whole := RequestBody(r);
    NothingWritten(s, whole);
    ghost var t7 := EncOpt(EncSmall, r.value) + [];
    assert EncOpt(EncSmall, r.value) == t7;
    ghost var t6 := EncOpt(EncFixed, r.target) + t7;
    ghost var t5 := Varint(r.command) + t6;
    ghost var t4 := EncOpt(EncFixed, r.token) + t5;
    ghost var t3 := EncOpt(EncFixed, r.id) + t4;
    ghost var t2 := EncV4(r.to) + t3;
    PutUint(s, RequestFlags(r), Le(r.tid, 2) + t2, whole);
    PutShort(s, r.tid, t2, whole);
    PutAddress(s, r.to, t3, whole);
    PutOptional(s, r.id, t4, whole);
    PutOptional(s, r.token, t5, whole);
    PutUint(s, r.command, t6, whole);
    PutOptional(s, r.target, t7, whole);
    PutOptBuffer(s, r.value, [], whole);
    AllWritten(s, whole);
    body := s.buffer[..];
  }

  /** encode_request: the type byte goes in front. */
  method EncodeRequest(r: Request) returns (message: bytes)
    requires RequestOk(r)
    ensures message == Encode(Ask(r)) && Decode(message) == Some(Ask(r))
  {
    hide RequestBody, Decode;
    var body := WriteRequest(r);
    message := [REQUEST_ID] + body;
    RoundTrip(Ask(r));
  }

  /** decode_request: every failure is the error flag of the cursor. */
  method ReadRequest(data: bytes) returns (r: Option<Request>)
    ensures r == DecodeRequest(data)
  {
    hide DecUint, DecLe, DecV4, DecOpt, DecBuffer, Has;
    var s := new State.ForDecode(data);
    r := None;
    var flags := s.GetUint();
    if s.error || flags > 0xFF {
      return;
    }
    var tid := s.GetLe(2);
    if s.error {
      return;
    }
    var to := s.GetV4();
    if s.error {
      return;
    }
    var id := GetOptional(s, Has(flags, 1));
    if s.error {
      return;
    }
    var token := GetOptional(s, Has(flags, 2));
    if s.error {
      return;
    }
    var command := s.GetUint();
    if s.error {
      return;
    }
    var target := GetOptional(s, Has(flags, 8));
    if s.error {
      return;
    }
    var value := GetOptBuffer(s, Has(flags, 16));
    if s.error {
      return;
    }
    r := Some(Request(tid % 0x1_0000, to, id, token, Has(flags, 4), U32(command), target, value));
  }

  // ------------------------------------------------------------------------------------------
  // Responses
  // ------------------------------------------------------------------------------------------

  /** The first pass of encode_response. */
  method PreResponse(s: State, r: Response)
    requires ResponseOk(r)
    modifies s`end
    ensures s.end == old(s.end) + |ResponseBody(r)|
  {
    hide Varint, EncBuffer, EncArray, Flags;
    V4Size(r.from);
    s.PreUint(ResponseFlags(r));
    s.PreSize(2);
    s.PreSize(6);
    if r.id.Some? {
      s.PreSize(32);
    }
    if r.token.Some? {
      s.PreSize(32);
    }
    if r.closer != [] {
      s.PreV4s(r.closer);
    }
    if r.error.Some? {
      s.PreUint(r.error.value);
    }
    if r.value.Some? {
      s.PreBuffer(r.value.value);
    }
  }

  /** The two passes of encode_response. */
  method WriteResponse(r: Response) returns (body: bytes)
    requires ResponseOk(r)
    ensures body == ResponseBody(r)
  {
    hide Varint, Le, EncV4, EncOpt, EncList, Flags;
    var s := new State();
    PreResponse(s, r);
    s.Allocate();
    ghost var whole := ResponseBody(r);
    NothingWritten(s, whole);
    ghost var t7 := EncOpt(EncSmall, r.value) + [];
    assert EncOpt(EncSmall, r.value) == t7;
    ghost var t6 := EncOpt(EncU32, r.error) + t7;
    ghost var t5 := EncList(EncV4, r.closer) + t6;
    ghost var t4 := EncOpt(EncFixed, r.token) + t5;
    ghost var t3 := EncOpt(EncFixed, r.id) + t4;
    ghost var t2 := EncV4(r.from) + t3;
    PutUint(s, ResponseFlags(r), Le(r.tid, 2) + t2, whole);
    PutShort(s, r.tid, t2, whole);
    PutAddress(s, r.from, t3, whole);
    PutOptional(s, r.id, t4, whole);
    PutOptional(s, r.token, t5, whole);
    PutSomeAddresses(s, r.closer, t6, whole);
    PutOptError(s, r.error, t7, whole);
    PutOptBuffer(s, r.value, [], whole);
    AllWritten(s, whole);
    body := s.buffer[..];
  }

  /** encode_response: the type byte goes in front. */
  method EncodeResponse(r: Response) returns (message: bytes)
    requires ResponseOk(r)
    ensures message == Encode(Reply(r)) && Decode(message) == Some(Reply(r))
  {
    hide ResponseBody, Decode;
    var body := WriteResponse(r);
    message := [RESPONSE_ID] + body;
    RoundTrip(Reply(r));
  }

  method PutOptError(s: State, v: Option<u32>, ghost rest: bytes, ghost whole: bytes)
    requires Pending(s, EncOpt(EncU32, v) + rest, whole)
    modifies s`start, s`error, s.buffer
    ensures Pending(s, rest, whole) && s.buffer == old(s.buffer)
  {
    hide Varint;
    if v.Some? {
      PutUint(s, v.value, rest, whole);
    } else {
      assert EncOpt(EncU32, v) + rest == rest;
    }
  }

  method GetOptError(s: State, present: bool) returns (v: Option<u32>)
    requires s.Reading() && !s.error
    modifies s`start, s`error
    ensures Took(s, old(DecOpt(DecError, present, s.Rest())), v)
  {
    hide DecUint;
    v := None;
    if present {
      var x := s.GetUint();
      v := Some(U32(x));
    }
  }

  /** decode_response, likewise. */
  method ReadResponse(data: bytes) returns (r: Option<Response>)
    ensures r == DecodeResponse(data)
  {
    hide DecUint, DecLe, DecV4, DecOpt, DecList, DecBuffer, DecError, Has;
    var s := new State.ForDecode(data);
    r := None;
    var flags := s.GetUint();
    if s.error || flags > 0xFF {
      return;
    }
    var tid := s.GetLe(2);
    if s.error {
      return;
    }
    var from := s.GetV4();
    if s.error {
      return;
    }
    var id := GetOptional(s, Has(flags, 1));
    if s.error {
      return;
    }
    var token := GetOptional(s, Has(flags, 2));
    if s.error {
      return;
    }
    var closer := GetSomeAddresses(s, Has(flags, 4));
    if s.error {
      return;
    }
    var error := GetOptError(s, Has(flags, 8));
    if s.error {
      return;
    }
    var value := GetOptBuffer(s, Has(flags, 16));
    if s.error {
      return;
    }
    r := Some(Response(tid % 0x1_0000, from, id, token, closer, error, value));
  }

  /** decode_message. */
  method ReadMessage(data: bytes) returns (m: Option<Message>)
    ensures m == Decode(data)
  {
    hide DecodeRequest, DecodeResponse;
    m := None;
    if |data| < 2 {
      return;
    }
    if data[0] == REQUEST_ID {
      var r := ReadRequest(data[1..]);
      if r.Some? {
        m := Some(Ask(r.value));
      }
    } else if data[0] == RESPONSE_ID {
      var r := ReadResponse(data[1..]);
      if r.Some? {
        m := Some(Reply(r.value));
      }
    }
  }
}
