/** The compact binary codec (src/compact.cpp:62-117, 211-308, 348-372, include/hyperdht/compact.hpp:206-235).

    Encodings and bounded decoders as functions on bytes, with their round trips; and the State cursor
    of the source, an object that counts in a first pass, writes in a second and reads with a sticky
    error flag, proved to do what the functions say. */
module Compact {
  import opened Wrappers
  import opened Bytes
  import opened Varints
  import opened Addresses

  const MAX_BUFFER_DECODE: nat := 65536
  const ARRAY_MAX_LENGTH: nat := 4096

  /** What a decoder makes of the front of its input, and what follows it. */
  type Decoded<+T> = Option<(T, bytes)>

  function DecUint(b: bytes): Decoded<nat> {
    if b == [] || |b| < 1 + TailSize(b[0]) then None
    else Some((VarintValue(b[0], b[1..1 + TailSize(b[0])]), b[1 + TailSize(b[0])..]))
  }

  /** A fixed-size little-endian integer. */
  function DecLe(n: nat, b: bytes): Decoded<nat> {
    if |b| < n then None else Some((FromLe(b[..n]), b[n..]))
  }

  function DecFixed(n: nat, b: bytes): Decoded<bytes> {
    if |b| < n then None else Some((b[..n], b[n..]))
  }

  /** An empty buffer and a null one have the same encoding. */
  function EncBuffer(v: bytes): bytes
    requires |v| < 0x1_0000_0000_0000_0000
  {
    if v == [] then [0] else Varint(|v|) + v
  }

  function DecBuffer(b: bytes): Decoded<bytes> {
    match DecUint(b)
    case None => None
    case Some((len, rest)) =>
      if len == 0 then Some(([], rest))
      else if len > MAX_BUFFER_DECODE || |rest| < len then None
      else Some((rest[..len], rest[len..]))
  }

  function Port(low: byte, high: byte): u16 {
    var l: int, h: int := low, high;
    l + 256 * h
  }

  function EncV4(a: Ipv4Address): bytes {
    a.host + Le(a.port, 2)
  }

  function DecV4(b: bytes): Decoded<Ipv4Address> {
    if |b| < 6 then None else Some((Ipv4Address(b[..4], Port(b[4], b[5])), b[6..]))
  }

  function EncV6(a: Ipv6Address): bytes {
    a.host + Le(a.port, 2)
  }

  function DecV6(b: bytes): Decoded<Ipv6Address> {
    if |b| < 18 then None else Some((Ipv6Address(b[..16], Port(b[16], b[17])), b[18..]))
  }

  function EncAll<T>(enc: T -> bytes, s: seq<T>): bytes {
    if s == [] then [] else enc(s[0]) + EncAll(enc, s[1..])
  }

  function DecAll<T>(dec: bytes -> Decoded<T>, n: nat, b: bytes): Decoded<seq<T>>
    decreases n
  {
    if n == 0 then Some(([], b))
    else
      match dec(b)
      case None => None
      case Some((v, rest)) =>
        match DecAll(dec, n - 1, rest)
        case None => None
        case Some((vs, left)) => Some(([v] + vs, left))
  }

  function EncArray<T>(enc: T -> bytes, s: seq<T>): bytes
    requires |s| < 0x1_0000_0000_0000_0000
  {
    Varint(|s|) + EncAll(enc, s)
  }

  /** An array of at most `cap` elements. */
  function DecArray<T>(dec: bytes -> Decoded<T>, cap: nat, b: bytes): Decoded<seq<T>> {
    match DecUint(b)
    case None => None
    case Some((n, rest)) => if n > cap then None else DecAll(dec, n, rest)
  }

  const NO_ADDRESS: Ipv4Address := Ipv4Address([0, 0, 0, 0], 0)
  const NO_ADDRESS6: Ipv6Address := Ipv6Address(Zeros(16), 0)

  /** The elements as far as they can be read, one that is cut short as zero, and the rest of the input
      unless that happened. */
  function AllPart<T>(dec: bytes -> Decoded<T>, zero: T, n: nat, b: bytes): (seq<T>, Option<bytes>)
    decreases n
  {
    if n == 0 then ([], Some(b))
    else
      match dec(b)
      case None => ([zero], None)
      case Some((v, rest)) =>
        var (vs, left) := AllPart(dec, zero, n - 1, rest);
        ([v] + vs, left)
  }

  function ArrayPart<T>(dec: bytes -> Decoded<T>, zero: T, cap: nat, b: bytes): (seq<T>, Option<bytes>) {
    match DecUint(b)
    case None => ([], None)
    case Some((n, rest)) => if n > cap then ([], None) else AllPart(dec, zero, n, rest)
  }

  /** An array decodes exactly if all of it can be read. */
  lemma {:induction false} AllPartIs<T>(dec: bytes -> Decoded<T>, zero: T, n: nat, b: bytes)
    ensures var (vs, left) := AllPart(dec, zero, n, b);
            DecAll(dec, n, b) == if left.Some? then Some((vs, left.value)) else None
    decreases n
  {
    if n > 0 && dec(b).Some? {
      AllPartIs(dec, zero, n - 1, dec(b).value.1);
    }
  }

  lemma ArrayPartIs<T>(dec: bytes -> Decoded<T>, zero: T, cap: nat, b: bytes)
    ensures var (vs, left) := ArrayPart(dec, zero, cap, b);
            DecArray(dec, cap, b) == if left.Some? then Some((vs, left.value)) else None
  {
    hide DecUint;
    var d := DecUint(b);
    if d.Some? {
      AllPartIs(dec, zero, d.value.0, d.value.1);
    }
  }

  /** A value behind its length. */
  function EncFrame<T>(enc: T -> bytes, v: T): bytes
    requires |enc(v)| < 0x1_0000_0000_0000_0000
  {
    Varint(|enc(v)|) + enc(v)
  }

  /** The value is read from the announced bytes alone; those it does not use are skipped. */
  function DecFrame<T>(dec: bytes -> Decoded<T>, b: bytes): Decoded<T> {
    match DecUint(b)
    case None => None
    case Some((len, rest)) =>
      if len > |rest| then None
      else
        match dec(rest[..len])
        case None => None
        case Some((v, _)) => Some((v, rest[len..]))
  }

  function EncOpt<T>(enc: T -> bytes, v: Option<T>): bytes {
    if v.Some? then enc(v.value) else []
  }

  function DecOpt<T>(dec: bytes -> Decoded<T>, present: bool, b: bytes): Decoded<Option<T>> {
    if !present then Some((None, b))
    else
      match dec(b)
      case None => None
      case Some((v, rest)) => Some((Some(v), rest))
  }

  // ------------------------------------------------------------------------------------------
  // Round trips, with anything behind
  // ------------------------------------------------------------------------------------------

  lemma UintTrip(v: u64, rest: bytes)
    ensures DecUint(Varint(v) + rest) == Some((v as nat, rest))
  {
    VarintParts(v);
    var b := Varint(v) + rest;
    assert b[0] == Varint(v)[0] && b[1..|Varint(v)|] == Varint(v)[1..] && b[|Varint(v)|..] == rest;
  }

  lemma LeTrip(n: nat, v: nat, rest: bytes)
    requires v < Pow256(n)
    ensures DecLe(n, Le(v, n) + rest) == Some((v, rest))
  {
    LeRoundTrip(v, n);
    var b := Le(v, n) + rest;
    assert b[..n] == Le(v, n) && b[n..] == rest;
  }

  lemma FixedTrip(n: nat, v: bytes, rest: bytes)
    requires |v| == n
    ensures DecFixed(n, v + rest) == Some((v, rest))
  {
    assert (v + rest)[..n] == v && (v + rest)[n..] == rest;
  }

  lemma BufferTrip(v: bytes, rest: bytes)
    requires |v| <= MAX_BUFFER_DECODE
    ensures DecBuffer(EncBuffer(v) + rest) == Some((v, rest))
  {
    if v == [] {
      assert [0] == Varint(0);
      UintTrip(0, rest);
    } else {
      UintTrip(|v|, v + rest);
      assert Varint(|v|) + v + rest == Varint(|v|) + (v + rest);
      assert (v + rest)[..|v|] == v && (v + rest)[|v|..] == rest;
    }
  }

  /** Beyond the cap a buffer is written but not read back. */
  lemma LongBufferIsRefused(v: bytes, rest: bytes)
    requires MAX_BUFFER_DECODE < |v| < 0x1_0000_0000_0000_0000
    ensures DecBuffer(EncBuffer(v) + rest) == None
  {
    UintTrip(|v|, v + rest);
    assert Varint(|v|) + v + rest == Varint(|v|) + (v + rest);
  }

  ghost predicate V6Ok(a: Ipv6Address) {
    |a.host| == 16
  }

  lemma V4Trip(a: Ipv4Address, rest: bytes)
    requires a.Valid()
    ensures DecV4(EncV4(a) + rest) == Some((a, rest))
  {
    LeTwo(a.port);
    var b := EncV4(a) + rest;
    assert b[..4] == a.host && b[4..6] == Le(a.port, 2) && b[6..] == rest;
  }

  lemma V6Trip(a: Ipv6Address, rest: bytes)
    requires V6Ok(a)
    ensures DecV6(EncV6(a) + rest) == Some((a, rest))
  {
    LeTwo(a.port);
    var b := EncV6(a) + rest;
    assert b[..16] == a.host && b[16..18] == Le(a.port, 2) && b[18..] == rest;
  }

  /** The decoder reads back what the encoder writes for v. */
  ghost predicate Trips<T(!new)>(enc: T -> bytes, dec: bytes -> Decoded<T>, v: T) {
    forall rest: bytes :: dec(enc(v) + rest) == Some((v, rest))
  }

  lemma {:induction false} AllTrip<T(!new)>(enc: T -> bytes, dec: bytes -> Decoded<T>, s: seq<T>, rest: bytes)
    requires forall v :: v in s ==> Trips(enc, dec, v)
    ensures DecAll(dec, |s|, EncAll(enc, s) + rest) == Some((s, rest))
  {
    if s == [] {
      assert EncAll(enc, s) + rest == rest;
    } else {
      AllTrip(enc, dec, s[1..], rest);
      assert Trips(enc, dec, s[0]);
      var tail := EncAll(enc, s[1..]) + rest;
      assert EncAll(enc, s) + rest == enc(s[0]) + tail;
      assert dec(enc(s[0]) + tail) == Some((s[0], tail));
      assert [s[0]] + s[1..] == s;
    }
  }

  lemma ArrayTrip<T(!new)>(enc: T -> bytes, dec: bytes -> Decoded<T>, cap: nat, s: seq<T>, rest: bytes)
    requires |s| <= cap < 0x1_0000_0000_0000_0000 && forall v :: v in s ==> Trips(enc, dec, v)
    ensures DecArray(dec, cap, EncArray(enc, s) + rest) == Some((s, rest))
  {
    UintTrip(|s|, EncAll(enc, s) + rest);
    assert EncArray(enc, s) + rest == Varint(|s|) + (EncAll(enc, s) + rest);
    AllTrip(enc, dec, s, rest);
  }

  /** A framed value comes back, also when a newer writer has put more behind it in the frame; and the
      reader goes on after the frame. */
  lemma FrameTrip<T(!new)>(enc: T -> bytes, dec: bytes -> Decoded<T>, v: T, more: bytes, rest: bytes)
    requires Trips(enc, dec, v) && |enc(v) + more| < 0x1_0000_0000_0000_0000
    ensures DecFrame(dec, Varint(|enc(v) + more|) + (enc(v) + more + rest)) == Some((v, rest))
    ensures DecFrame(dec, EncFrame(enc, v) + rest) == Some((v, rest))
  {
    hide DecFrame, Trips, Varint;
    FrameIsRead(enc, dec, v, more, rest);
    FrameIsRead(enc, dec, v, [], rest);
    assert enc(v) + [] == enc(v);
    assert EncFrame(enc, v) + rest == Varint(|enc(v)|) + (enc(v) + rest);
  }

  lemma FrameIsRead<T(!new)>(enc: T -> bytes, dec: bytes -> Decoded<T>, v: T, more: bytes, rest: bytes)
    requires Trips(enc, dec, v) && |enc(v) + more| < 0x1_0000_0000_0000_0000
    ensures DecFrame(dec, Varint(|enc(v) + more|) + (enc(v) + more + rest)) == Some((v, rest))
  {
    var inner := enc(v) + more;
    UintTrip(|inner|, inner + rest);
    assert (inner + rest)[..|inner|] == inner && (inner + rest)[|inner|..] == rest;
  }

  lemma OptTrip<T(!new)>(enc: T -> bytes, dec: bytes -> Decoded<T>, v: Option<T>, rest: bytes)
    requires v.Some? ==> Trips(enc, dec, v.value)
    ensures DecOpt(dec, v.Some?, EncOpt(enc, v) + rest) == Some((v, rest))
  {
    if v.None? {
      assert [] + rest == rest;
    } else {
      assert Trips(enc, dec, v.value);
    }
  }

  lemma V4Trips(a: Ipv4Address)
    requires a.Valid()
    ensures Trips(EncV4, DecV4, a)
  {
    forall rest: bytes ensures DecV4(EncV4(a) + rest) == Some((a, rest)) {
      V4Trip(a, rest);
    }
  }

  lemma V6Trips(a: Ipv6Address)
    requires V6Ok(a)
    ensures Trips(EncV6, DecV6, a)
  {
    forall rest: bytes ensures DecV6(EncV6(a) + rest) == Some((a, rest)) {
      V6Trip(a, rest);
    }
  }

  // ------------------------------------------------------------------------------------------
  // The cursor
  // ------------------------------------------------------------------------------------------

  class State {
    var start: nat
    var end: nat
    var error: bool
    /** The buffer written to, and the bytes read from. */
    var buffer: array<byte>
    var data: bytes

    ghost predicate Writing()
      reads this
    {
      start <= end == buffer.Length
    }

    /** What has been written. */
    ghost function Out(): bytes
      requires Writing()
      reads this, buffer
    {
      buffer[..start]
    }

    ghost predicate Reading()
      reads this
    {
      start <= end <= |data|
    }

    /** What is left to read. */
    ghost function Rest(): bytes
      requires Reading()
      reads this
    {
      data[start..end]
    }

    constructor ()
      ensures start == end == 0 && !error && fresh(buffer)
    {
      start, end, error, data := 0, 0, false, [];
      buffer := new byte[0];
    }

    constructor ForDecode(data: bytes)
      ensures Reading() && Rest() == data && !error
    {
      start, end, error, this.data := 0, |data|, false, data;
      buffer := new byte[0];
    }

    // First pass: sizes

    method PreUint(v: u64)
      modifies `end
      ensures end == old(end) + |Varint(v)|
    {
      if v <= 0xFC {
        end := end + 1;
      } else if v <= 0xFFFF {
        end := end + 3;
      } else if v <= 0xFFFF_FFFF {
        end := end + 5;
      } else {
        end := end + 9;
      }
    }

    method PreBuffer(v: bytes)
      requires |v| < 0x1_0000_0000_0000_0000
      modifies `end
      ensures end == old(end) + |EncBuffer(v)|
    {
      if |v| == 0 {
        end := end + 1;
      } else {
        PreUint(|v|);
        end := end + |v|;
      }
    }

    /** Fixed-size fields: integers, ids and addresses. */
    method PreSize(n: nat)
      modifies `end
      ensures end == old(end) + n
    {
      end := end + n;
    }

    method PreV4s(s: seq<Ipv4Address>)
      requires |s| < 0x1_0000_0000_0000_0000 && forall a :: a in s ==> a.Valid()
      modifies `end
      ensures end == old(end) + |EncArray(EncV4, s)|
    {
      PreUint(|s|);
      var i := 0;
      while i < |s|
        invariant i <= |s| && end == old(end) + |Varint(|s|)| + |EncAll(EncV4, s[..i])|
      {
        assert s[i] in s;
        PreSize(6);
        EncAllAppend(EncV4, s, i);
        i := i + 1;
      }
      assert s[..|s|] == s;
    }

    method PreV6s(s: seq<Ipv6Address>)
      requires |s| < 0x1_0000_0000_0000_0000 && forall a :: a in s ==> V6Ok(a)
      modifies `end
      ensures end == old(end) + |EncArray(EncV6, s)|
    {
      PreUint(|s|);
      var i := 0;
      while i < |s|
        invariant i <= |s| && end == old(end) + |Varint(|s|)| + |EncAll(EncV6, s[..i])|
      {
        assert s[i] in s;
        PreSize(18);
        EncAllAppend(EncV6, s, i);
        i := i + 1;
      }
      assert s[..|s|] == s;
    }

    /** A frame around a value of which a cursor of its own has counted the size. */
    method PreFrame(inner: u64)
      modifies `end
      ensures end == old(end) + |Varint(inner)| + inner
    {
      hide Varint, VarintSize;
      PreUint(inner);
      end := end + inner;
    }

    // Second pass: bytes

    method Allocate()
      modifies this
      ensures Writing() && end == old(end) && error == old(error) && fresh(buffer) && Out() == []
    {
      buffer := new byte[end](_ => 0);
      start := 0;
    }

    /** Every write either finds room and appends its bytes, or sets the error flag. */
    method PutBytes(s: bytes)
      requires Writing()
      modifies `start, `error, buffer
      ensures Writing() && end == old(end) && buffer == old(buffer)
      ensures !old(error) && old(start) + |s| <= end ==> !error && Out() == old(Out()) + s
      ensures old(error) || old(start) + |s| > end ==> error && Out() == old(Out())
    {
      if error || start + |s| > end {
        error := true;
        return;
      }
      var i := 0;
      while i < |s|
        modifies buffer
        invariant i <= |s|
        invariant buffer[..start] == old(buffer[..start]) && buffer[start..start + i] == s[..i]
      {
        buffer[start + i] := s[i];
        i := i + 1;
      }
      assert buffer[..start + |s|] == buffer[..start] + buffer[start..start + |s|] && s[..i] == s;
      start := start + |s|;
    }

    /** write_le16, write_le32 and write_le64, after the marker byte of a varint if there is one. */
    method PutLe(v: nat, n: nat)
      requires Writing()
      modifies `start, `error, buffer
      ensures Writing() && end == old(end) && buffer == old(buffer)
      ensures !old(error) && old(start) + n <= end ==> !error && Out() == old(Out()) + Le(v, n)
      ensures old(error) || old(start) + n > end ==> error && Out() == old(Out())
    {
      hide Le, Pow256;
      if error || start + n > end {
        error := true;
        return;
      }
      var i := 0;
      while i < n
        modifies buffer
        invariant i <= n
        invariant buffer[..start] == old(buffer[..start]) && buffer[start..start + i] == Le(v, n)[..i]
      {
        LeAt(v, n, i);
        buffer[start + i] := v / Pow256(i) % 256;
        i := i + 1;
      }
      assert buffer[..start + n] == buffer[..start] + buffer[start..start + n] && Le(v, n)[..n] == Le(v, n);
      start := start + n;
    }

    method PutUint(v: u64)
      requires Writing()
      modifies `start, `error, buffer
      ensures Writing() && end == old(end) && buffer == old(buffer)
      ensures !old(error) && old(start) + |Varint(v)| <= end ==> !error && Out() == old(Out()) + Varint(v)
      ensures old(error) || old(start) + |Varint(v)| > end ==> error && Out() == old(Out())
    {
      hide Le;
      var n := VarintSize(v);
      if error || start + n > end {
        error := true;
        return;
      }
      if v <= 0xFC {
        PutBytes([v]);
      } else {
        PutMarked(if v <= 0xFFFF then 0xFD else if v <= 0xFFFF_FFFF then 0xFE else 0xFF, v, n - 1);
      }
    }

    method PutMarked(marker: byte, v: u64, n: nat)
      requires Writing() && !error && start + 1 + n <= end
      modifies `start, `error, buffer
      ensures Writing() && end == old(end) && buffer == old(buffer)
      ensures !error && Out() == old(Out()) + ([marker] + Le(v, n))
    {
      PutBytes([marker]);
      PutLe(v, n);
    }

    method PutBuffer(v: bytes)
      requires Writing() && |v| < 0x1_0000_0000_0000_0000
      modifies `start, `error, buffer
      ensures Writing() && end == old(end) && buffer == old(buffer)
      ensures !old(error) && old(start) + |EncBuffer(v)| <= end ==> !error && Out() == old(Out()) + EncBuffer(v)
      ensures old(error) || old(start) + |EncBuffer(v)| > end ==> error
    {
      hide Varint, VarintSize;
      if |v| == 0 {
        PutBytes([0]);
      } else {
        PutUint(|v|);
        PutBytes(v);
        assert old(Out()) + Varint(|v|) + v == old(Out()) + (Varint(|v|) + v);
      }
    }

    method PutV4(a: Ipv4Address)
      requires Writing() && a.Valid()
      modifies `start, `error, buffer
      ensures Writing() && end == old(end) && buffer == old(buffer)
      ensures !old(error) && old(start) + 6 <= end ==> !error && Out() == old(Out()) + EncV4(a)
      ensures old(error) || old(start) + 6 > end ==> error
    {
      hide Le;
      if error || start + 6 > end {
        error := true;
        return;
      }
      PutBytes(a.host);
      PutLe(a.port, 2);
      assert old(Out()) + a.host + Le(a.port, 2) == old(Out()) + (a.host + Le(a.port, 2));
    }

    method PutV4s(s: seq<Ipv4Address>)
      requires Writing() && |s| < 0x1_0000_0000_0000_0000 && forall a :: a in s ==> a.Valid()
      modifies `start, `error, buffer
      ensures Writing() && end == old(end) && buffer == old(buffer)
      ensures !old(error) && old(start) + |EncArray(EncV4, s)| <= end ==>
                !error && Out() == old(Out()) + EncArray(EncV4, s)
      ensures old(error) || old(start) + |EncArray(EncV4, s)| > end ==> error
    {
      hide Varint, VarintSize, EncV4;
      ghost var o := Out();
      PutUint(|s|);
      var i := 0;
      while i < |s|
        invariant i <= |s| && Writing() && end == old(end) && buffer == old(buffer)
        invariant |o| + |Varint(|s|)| + |EncAll(EncV4, s[..i])| <= end && !old(error) ==>
                    !error && Out() == o + Varint(|s|) + EncAll(EncV4, s[..i])
        invariant |o| + |Varint(|s|)| + |EncAll(EncV4, s[..i])| > end || old(error) ==> error
      {
        assert s[i] in s;
        V4Size(s[i]);
        EncAllAppend(EncV4, s, i);
        PutV4(s[i]);
        i := i + 1;
      }
      assert s[..|s|] == s;
      assert o + Varint(|s|) + EncAll(EncV4, s) == o + EncArray(EncV4, s);
    }

    method PutV6(a: Ipv6Address)
      requires Writing() && V6Ok(a)
      modifies `start, `error, buffer
      ensures Writing() && end == old(end) && buffer == old(buffer)
      ensures !old(error) && old(start) + 18 <= end ==> !error && Out() == old(Out()) + EncV6(a)
      ensures old(error) || old(start) + 18 > end ==> error
    {
      hide Le;
      if error || start + 18 > end {
        error := true;
        return;
      }
      PutBytes(a.host);
      PutLe(a.port, 2);
      assert old(Out()) + a.host + Le(a.port, 2) == old(Out()) + (a.host + Le(a.port, 2));
    }

    method PutV6s(s: seq<Ipv6Address>)
      requires Writing() && |s| < 0x1_0000_0000_0000_0000 && forall a :: a in s ==> V6Ok(a)
      modifies `start, `error, buffer
      ensures Writing() && end == old(end) && buffer == old(buffer)
      ensures !old(error) && old(start) + |EncArray(EncV6, s)| <= end ==>
                !error && Out() == old(Out()) + EncArray(EncV6, s)
      ensures old(error) || old(start) + |EncArray(EncV6, s)| > end ==> error
    {
      hide Varint, VarintSize, EncV6;
      ghost var o := Out();
      PutUint(|s|);
      var i := 0;
      while i < |s|
        invariant i <= |s| && Writing() && end == old(end) && buffer == old(buffer)
        invariant |o| + |Varint(|s|)| + |EncAll(EncV6, s[..i])| <= end && !old(error) ==>
                    !error && Out() == o + Varint(|s|) + EncAll(EncV6, s[..i])
        invariant |o| + |Varint(|s|)| + |EncAll(EncV6, s[..i])| > end || old(error) ==> error
      {
        assert s[i] in s;
        V6Size(s[i]);
        EncAllAppend(EncV6, s, i);
        PutV6(s[i]);
        i := i + 1;
      }
      assert s[..|s|] == s;
      assert o + Varint(|s|) + EncAll(EncV6, s) == o + EncArray(EncV6, s);
    }

    /** Frame::encode around an address: a cursor of its own counts the value first. */
    method PutFramedV4(a: Ipv4Address)
      requires Writing() && a.Valid()
      modifies `start, `error, buffer
      ensures Writing() && end == old(end) && buffer == old(buffer)
      ensures !old(error) && old(start) + |Varint(6)| + 6 <= end ==> !error && Out() == old(Out()) + EncFrame(EncV4, a)
      ensures old(error) || old(start) + |Varint(6)| + 6 > end ==> error
    {
      hide Varint, VarintSize, EncV4;
      V4Size(a);
      var inner := new State();
      inner.PreSize(6);
      PutUint(inner.end);
      PutV4(a);
      assert old(Out()) + Varint(6) + EncV4(a) == old(Out()) + (Varint(6) + EncV4(a));
    }

    // Reading

    method GetLe(n: nat) returns (v: nat)
      requires Reading()
      modifies `start, `error
      ensures Reading() && end == old(end)
      ensures old(error) ==> error
      ensures error ==> v == 0
      ensures !old(error) ==>
                match DecLe(n, old(Rest()))
                case None => error
                case Some((x, rest)) => !error && v == x && Rest() == rest
    {
      if error || end - start < n {
        error := true;
        return 0;
      }
      v := FromLe(data[start..start + n]);
      assert data[start..end][..n] == data[start..start + n] && data[start..end][n..] == data[start + n..end];
      start := start + n;
    }

    method GetUint() returns (v: nat)
      requires Reading()
      modifies `start, `error
      ensures Reading() && end == old(end)
      ensures old(error) ==> error
      ensures error ==> v == 0
      ensures !old(error) ==>
                match DecUint(old(Rest()))
                case None => error
                case Some((x, rest)) => !error && v == x && Rest() == rest
    {
      if error || end - start < 1 {
        error := true;
        return 0;
      }
      ghost var b := Rest();
      var first := data[start];
      start := start + 1;
      if first <= 0xFC {
        return first;
      }
      var n := if first == 0xFD then 2 else if first == 0xFE then 4 else 8;
      assert b[1..] == Rest();
      if end - start >= n {
        SliceOfTail(b, n);
      }
      v := GetLe(n);
    }

    method GetFixed(n: nat) returns (v: bytes)
      requires Reading()
      modifies `start, `error
      ensures Reading() && end == old(end)
      ensures old(error) ==> error
      ensures error ==> v == Zeros(n)
      ensures !old(error) ==>
                match DecFixed(n, old(Rest()))
                case None => error
                case Some((x, rest)) => !error && v == x && Rest() == rest
    {
      if error || end - start < n {
        error := true;
        return Zeros(n);
      }
      v := data[start..start + n];
      SliceCut(data[..], start, start + n, end);
      start := start + n;
    }

    method GetBuffer() returns (v: bytes)
      requires Reading()
      modifies `start, `error
      ensures Reading() && end == old(end)
      ensures old(error) ==> error
      ensures error ==> v == []
      ensures !old(error) ==>
                match DecBuffer(old(Rest()))
                case None => error
                case Some((x, rest)) => !error && v == x && Rest() == rest
    {
      hide DecUint;
      v := [];
      var len := GetUint();
      if error {
        return;
      }
      if len == 0 {
        return;
      }
      if len > MAX_BUFFER_DECODE {
        error := true;
        return;
      }
      v := GetFixed(len);
      if error {
        v := [];
      }
    }

    method GetV4() returns (v: Ipv4Address)
      requires Reading()
      modifies `start, `error
      ensures Reading() && end == old(end)
      ensures old(error) ==> error
      ensures error ==> v == NO_ADDRESS
      ensures !old(error) ==>
                match DecV4(old(Rest()))
                case None => error
                case Some((x, rest)) => !error && v == x && Rest() == rest
    {
      v := NO_ADDRESS;
      if error || end - start < 6 {
        error := true;
        return;
      }
      v := Ipv4Address(data[start..start + 4], Port(data[start + 4], data[start + 5]));
      assert data[start..end][..4] == v.host && data[start..end][6..] == data[start + 6..end];
      start := start + 6;
    }

    method GetV6() returns (v: Ipv6Address)
      requires Reading()
      modifies `start, `error
      ensures Reading() && end == old(end)
      ensures old(error) ==> error
      ensures error ==> v == NO_ADDRESS6
      ensures !old(error) ==>
                match DecV6(old(Rest()))
                case None => error
                case Some((x, rest)) => !error && v == x && Rest() == rest
    {
      v := NO_ADDRESS6;
      if error || end - start < 18 {
        error := true;
        return;
      }
      v := Ipv6Address(data[start..start + 16], Port(data[start + 16], data[start + 17]));
      assert data[start..end][..16] == v.host && data[start..end][18..] == data[start + 18..end];
      start := start + 18;
    }

    /** Frame::decode up to the value: the end of the cursor moves to the end of the frame, unless the
        frame is longer than what is left. (A length that makes the 64-bit end wrap around puts it before
        the cursor, where the next read fails: the same error, one read later.) */
    method BeginFrame() returns (saved: nat)
      requires Reading()
      modifies `start, `end, `error
      ensures Reading() && saved == old(end)
      ensures old(error) ==> error && end == old(end)
      ensures !old(error) ==>
                match DecUint(old(Rest()))
                case None => error && end == old(end)
                case Some((len, rest)) =>
                  if len > |rest| then error && end == old(end)
                  else !error && end <= saved && Rest() == rest[..len] && data[end..saved] == rest[len..]
    {
      hide DecUint;
      saved := end;
      var len := GetUint();
      if error {
        return;
      }
      ghost var rest := Rest();
      end := start + len;
      if end > saved {
        error := true;
        end := saved;
        return;
      }
      SliceCut(data, start, end, saved);
    }

    /** Whatever of the frame has not been read is skipped. */
    method EndFrame(saved: nat)
      requires Reading() && end <= saved <= |data|
      modifies `start, `end
      ensures Reading() && end == saved && error == old(error) && Rest() == data[old(end)..saved]
    {
      start := end;
      end := saved;
    }

    method GetFramedV4() returns (v: Ipv4Address)
      requires Reading()
      modifies `start, `end, `error
      ensures Reading() && end == old(end)
      ensures old(error) ==> error
      ensures !old(error) ==>
                match DecFrame(DecV4, old(Rest()))
                case None => error
                case Some((x, rest)) => !error && v == x && Rest() == rest
    {
      hide DecUint, DecV4;
      v := NO_ADDRESS;
      var saved := BeginFrame();
      if error {
        return;
      }
      v := GetV4();
      EndFrame(saved);
    }

    /** The elements are read until the count is reached or an error occurs. */
    method GetV4s() returns (v: seq<Ipv4Address>)
      requires Reading()
      modifies `start, `error
      ensures Reading() && end == old(end)
      ensures old(error) ==> error
      ensures !old(error) ==> v == ArrayPart(DecV4, NO_ADDRESS, ARRAY_MAX_LENGTH, old(Rest())).0
      ensures !old(error) ==>
                match DecArray(DecV4, ARRAY_MAX_LENGTH, old(Rest()))
                case None => error
                case Some((x, rest)) => !error && v == x && Rest() == rest
    {
      hide DecUint, DecV4, Prepend;
      v := [];
      var count := GetUint();
      if error || count > ARRAY_MAX_LENGTH {
        error := true;
        return;
      }
      ghost var b := Rest();
      PrependNothing(DecAll(DecV4, count, b));
      ghost var all := AllPart(DecV4, NO_ADDRESS, count, b).0;
      assert [] + all == all;
      var i := 0;
      while i < count && !error
        invariant Reading() && end == old(end) && i <= count && |v| == i
        invariant !error ==> DecAll(DecV4, count, b) == Prepend(v, DecAll(DecV4, count - i, Rest()))
        invariant error ==> DecAll(DecV4, count, b) == None
        invariant all == if error then v else v + AllPart(DecV4, NO_ADDRESS, count - i, Rest()).0
        decreases count - i
      {
        PrependStep(DecV4, v, count - i, Rest());
        PartStep(DecV4, NO_ADDRESS, v, count - i, Rest());
        var a := GetV4();
        v := v + [a];
        i := i + 1;
      }
      PrependEnd(DecV4, v, Rest());
      assert v + [] == v;
    }

    method GetV6s() returns (v: seq<Ipv6Address>)
      requires Reading()
      modifies `start, `error
      ensures Reading() && end == old(end)
      ensures old(error) ==> error
      ensures !old(error) ==> v == ArrayPart(DecV6, NO_ADDRESS6, ARRAY_MAX_LENGTH, old(Rest())).0
      ensures !old(error) ==>
                match DecArray(DecV6, ARRAY_MAX_LENGTH, old(Rest()))
                case None => error
                case Some((x, rest)) => !error && v == x && Rest() == rest
    {
      hide DecUint, DecV6, Prepend;
      v := [];
      var count := GetUint();
      if error || count > ARRAY_MAX_LENGTH {
        error := true;
        return;
      }
      ghost var b := Rest();
      PrependNothing(DecAll(DecV6, count, b));
      ghost var all := AllPart(DecV6, NO_ADDRESS6, count, b).0;
      assert [] + all == all;
      var i := 0;
      while i < count && !error
        invariant Reading() && end == old(end) && i <= count && |v| == i
        invariant !error ==> DecAll(DecV6, count, b) == Prepend(v, DecAll(DecV6, count - i, Rest()))
        invariant error ==> DecAll(DecV6, count, b) == None
        invariant all == if error then v else v + AllPart(DecV6, NO_ADDRESS6, count - i, Rest()).0
        decreases count - i
      {
        PrependStep(DecV6, v, count - i, Rest());
        PartStep(DecV6, NO_ADDRESS6, v, count - i, Rest());
        var a := GetV6();
        v := v + [a];
        i := i + 1;
      }
      PrependEnd(DecV6, v, Rest());
      assert v + [] == v;
    }
  }

  lemma SliceCut(data: bytes, a: nat, b: nat, c: nat)
    requires a <= b <= c <= |data|
    ensures data[a..c][..b - a] == data[a..b] && data[a..c][b - a..] == data[b..c]
  {
  }

  lemma SliceOfTail(b: bytes, n: nat)
    requires 1 + n <= |b|
    ensures b[1..][..n] == b[1..1 + n] && b[1..][n..] == b[1 + n..]
  {
  }

  lemma PrependEnd<T>(dec: bytes -> Decoded<T>, v: seq<T>, b: bytes)
    ensures Prepend(v, DecAll(dec, 0, b)) == Some((v, b))
  {
    assert v + [] == v;
  }

  function Prepend<T>(s: seq<T>, d: Decoded<seq<T>>): Decoded<seq<T>> {
    match d
    case None => None
    case Some((v, rest)) => Some((s + v, rest))
  }

  lemma PrependStep<T>(dec: bytes -> Decoded<T>, v: seq<T>, n: nat, b: bytes)
    requires n > 0
    ensures Prepend(v, DecAll(dec, n, b)) ==
            match dec(b)
            case None => None
            case Some((a, rest)) => Prepend(v + [a], DecAll(dec, n - 1, rest))
  {
    var r := dec(b);
    if r.Some? {
      var d := DecAll(dec, n - 1, r.value.1);
      if d.Some? {
        assert v + ([r.value.0] + d.value.0) == v + [r.value.0] + d.value.0;
      }
    }
  }

  lemma PartStep<T>(dec: bytes -> Decoded<T>, zero: T, v: seq<T>, n: nat, b: bytes)
    requires n > 0
    ensures v + AllPart(dec, zero, n, b).0 ==
            match dec(b)
            case None => v + [zero]
            case Some((a, rest)) => (v + [a]) + AllPart(dec, zero, n - 1, rest).0
  {
    var r := dec(b);
    if r.Some? {
      var t := AllPart(dec, zero, n - 1, r.value.1).0;
      assert v + ([r.value.0] + t) == (v + [r.value.0]) + t;
    }
  }

  lemma PrependNothing<T>(d: Decoded<seq<T>>)
    ensures Prepend([], d) == d
  {
    if d.Some? {
      assert [] + d.value.0 == d.value.0;
    }
  }

  lemma V4Size(a: Ipv4Address)
    requires a.Valid()
    ensures |EncV4(a)| == 6
  {
  }

  lemma V6Size(a: Ipv6Address)
    requires V6Ok(a)
    ensures |EncV6(a)| == 18
  {
  }

  lemma {:induction false} EncAllAppend<T>(enc: T -> bytes, s: seq<T>, i: nat)
    requires i < |s|
    ensures EncAll(enc, s[..i + 1]) == EncAll(enc, s[..i]) + enc(s[i])
  {
    if i == 0 {
      assert s[..1][1..] == [];
    } else {
      EncAllAppend(enc, s[1..], i - 1);
      assert s[..i + 1][1..] == s[1..][..i] && s[..i][1..] == s[1..][..i - 1];
    }
  }
}
