/** Batching in the multiplexer (src/protomux.cpp): varints, write_frame / cork / uncork, on_data.

    What arrives is described by the handler calls it leads to, in order. */
module Protomux {
  import opened Bytes
  import opened Varints

  const CONTROL_BATCH: nat := 0
  const CONTROL_OPEN: nat := 1
  const CONTROL_REJECT: nat := 2
  const CONTROL_CLOSE: nat := 3
  const MAX_BATCH_ENTRIES: nat := 1024
  const UINT32_MAX: nat := 0xFFFF_FFFF
  const UINT64_MAX: nat := 0xFFFF_FFFF_FFFF_FFFF

  /** varint_decode: the value and what follows it; nothing is left after a truncated encoding. */
  function Decode(b: bytes): (r: (nat, bytes))
    ensures |r.1| <= |b| && (b != [] ==> |r.1| < |b|)
    ensures r.1 == b[|b| - |r.1|..]
  {
    if b == [] then (0, b)
    else
      var n := TailSize(b[0]);
      if |b| < 1 + n then (0, b[|b|..]) else (VarintValue(b[0], b[1..1 + n]), b[1 + n..])
  }

  lemma DecodeInverts(v: u64, rest: bytes)
    ensures Decode(Varint(v) + rest) == (v, rest)
  {
    VarintParts(v);
    var b := Varint(v) + rest;
    assert b[0] == Varint(v)[0] && b[1..|Varint(v)|] == Varint(v)[1..];
  }

  // ------------------------------------------------------------------------------------------
  // Reading
  // ------------------------------------------------------------------------------------------

  datatype Dispatch = Open(data: bytes) | Reject(data: bytes) | Close(data: bytes) | Data(channel: nat, data: bytes)

  /** A message of a batch: a control message by its type, or data for a channel. */
  function One(id: nat, payload: bytes): seq<Dispatch> {
    if id == 0 then
      var (kind, rest) := Decode(payload);
      if kind == CONTROL_OPEN then [Open(rest)]
      else if kind == CONTROL_REJECT then [Reject(rest)]
      else if kind == CONTROL_CLOSE then [Close(rest)]
      else []
    else [Data(id, payload)]
  }

  /** handle_batch from the point where a channel id is due, with the entries counted so far. */
  function BatchFrom(b: bytes, entries: nat): seq<Dispatch>
    decreases |b|, 1
  {
    if b == [] then []
    else
      var (id, rest) := Decode(b);
      if id > UINT32_MAX then [] else Messages(id, rest, entries)
  }

  /** handle_batch from the point where a message of a channel is due. */
  function Messages(id: nat, b: bytes, entries: nat): seq<Dispatch>
    decreases |b|, 0
  {
    if b == [] || entries + 1 > MAX_BATCH_ENTRIES then []
    else
      var (len, rest) := Decode(b);
      if len == 0 then BatchFrom(rest, entries + 1)
      else if len > |rest| then []
      else One(id, rest[..len]) + Messages(id, rest[len..], entries + 1)
  }

  /** on_data. */
  function OnData(frame: bytes): seq<Dispatch> {
    if frame == [] then []
    else
      var (id, rest) := Decode(frame);
      if rest == [] then []
      else if id == 0 then
        var (kind, body) := Decode(rest);
        if kind == CONTROL_BATCH then BatchFrom(body, 0) else One(0, rest)
      else if id > UINT32_MAX then []
      else One(id, rest)
  }

  function OnDataAll(frames: seq<bytes>): seq<Dispatch> {
    if frames == [] then [] else OnData(frames[0]) + OnDataAll(frames[1..])
  }

  // ------------------------------------------------------------------------------------------
  // Writing
  // ------------------------------------------------------------------------------------------

  /** Buffer sizes are size_t values. */
  type Buffer = b: bytes | |b| <= UINT64_MAX witness []

  datatype Entry = Entry(id: u32, payload: Buffer)

  /** A corked frame, split at its leading channel id. */
  function Split(frame: Buffer): Entry {
    var (id, payload) := Decode(frame);
    Entry(id % 0x1_0000_0000, payload)
  }

  function SplitAll(frames: seq<Buffer>): (r: seq<Entry>)
    ensures |r| == |frames|
  {
    if frames == [] then [] else [Split(frames[0])] + SplitAll(frames[1..])
  }

  /** An entry, after the marker and the id of a new channel if it is not the one last written. */
  function EntryBytes(prev: u32, e: Entry): bytes {
    (if e.id != prev then [0] + Varint(e.id) else []) + Varint(|e.payload|) + e.payload
  }

  /** The entries after the header, `prev` being the channel id last written. */
  function Entries(prev: u32, es: seq<Entry>): bytes
    decreases es
  {
    if es == [] then [] else EntryBytes(prev, es[0]) + Entries(es[0].id, es[1..])
  }

  function BatchFrame(es: seq<Entry>): bytes
    requires es != []
  {
    [0, 0] + Varint(es[0].id) + Entries(es[0].id, es)
  }

  // ------------------------------------------------------------------------------------------
  // A batch means what its frames mean
  // ------------------------------------------------------------------------------------------

  /** What an entry counts against the limit of a batch. */
  function Cost(prev: u32, e: Entry): nat {
    if e.id != prev then 2 else 1
  }

  /** How many entries a batch delivers before the limit ends it. */
  function Room(prev: u32, es: seq<Entry>, entries: nat): (k: nat)
    ensures k <= |es|
    decreases es
  {
    if es == [] || entries + Cost(prev, es[0]) > MAX_BATCH_ENTRIES then 0
    else 1 + Room(es[0].id, es[1..], entries + Cost(prev, es[0]))
  }

  /** Messages plus channel switches. */
  function Weight(prev: u32, es: seq<Entry>): nat
    decreases es
  {
    if es == [] then 0 else Cost(prev, es[0]) + Weight(es[0].id, es[1..])
  }

  function Ones(es: seq<Entry>): seq<Dispatch> {
    if es == [] then [] else One(es[0].id, es[0].payload) + Ones(es[1..])
  }

  ghost predicate NonEmpty(es: seq<Entry>) {
    forall e :: e in es ==> e.payload != []
  }

  lemma {:induction false} BatchDelivers(prev: u32, es: seq<Entry>, entries: nat)
    requires NonEmpty(es)
    ensures Messages(prev, Entries(prev, es), entries) == Ones(es[..Room(prev, es, entries)])
    decreases es
  {
    hide Messages, One, Varint, Decode, NonEmpty, Entries;
    EntriesShape(prev, es);
    if es == [] {
      NothingLeft(prev, entries);
    } else {
      TailOk(es);
      var e, rest := es[0], es[1..];
      var tail := Entries(e.id, rest);
      var n := entries + Cost(prev, e);
      SwitchDelivers(prev, e.id, Varint(|e.payload|) + e.payload + tail, entries);
      EntryDelivers(e, tail, n - 1);
      if n <= MAX_BATCH_ENTRIES {
        BatchDelivers(e.id, rest, n);
        var k := Room(e.id, rest, n);
        assert es[..1 + k][0] == e && es[..1 + k][1..] == rest[..k];
      } else {
        assert es[..0] == [];
      }
    }
  }

  lemma EntriesShape(prev: u32, es: seq<Entry>)
    ensures es == [] ==> Entries(prev, es) == []
    ensures es != [] ==>
              var e := es[0];
              var body := Varint(|e.payload|) + e.payload + Entries(e.id, es[1..]);
              Entries(prev, es) == if e.id != prev then [0] + Varint(e.id) + body else body
  {
    hide Varint;
  }

  lemma TailOk(es: seq<Entry>)
    requires NonEmpty(es) && es != []
    ensures NonEmpty(es[1..]) && 0 < |es[0].payload| <= UINT64_MAX
  {
  }

  lemma NothingLeft(prev: u32, entries: nat)
    ensures Messages(prev, [], entries) == []
  {
  }

  lemma SwitchDelivers(prev: u32, id: u32, body: bytes, entries: nat)
    requires body != []
    ensures Messages(prev, [0] + Varint(id) + body, entries) ==
            if entries + 1 > MAX_BATCH_ENTRIES then [] else Messages(id, body, entries + 1)
  {
    var b := [0] + Varint(id) + body;
    assert b == Varint(0) + (Varint(id) + body);
    DecodeInverts(0, Varint(id) + body);
    DecodeInverts(id, body);
  }

  lemma EntryDelivers(e: Entry, tail: bytes, entries: nat)
    requires 0 < |e.payload| <= UINT64_MAX
    ensures Messages(e.id, Varint(|e.payload|) + e.payload + tail, entries) ==
            if entries + 1 > MAX_BATCH_ENTRIES then [] else One(e.id, e.payload) + Messages(e.id, tail, entries + 1)
  {
    hide One;
    var b := Varint(|e.payload|) + e.payload + tail;
    assert b == Varint(|e.payload|) + (e.payload + tail);
    DecodeInverts(|e.payload|, e.payload + tail);
    assert (e.payload + tail)[..|e.payload|] == e.payload && (e.payload + tail)[|e.payload|..] == tail;
  }

  lemma {:induction false} RoomIsWeight(prev: u32, es: seq<Entry>, entries: nat)
    requires entries <= 1024
    ensures Room(prev, es, entries) == |es| <==> entries + Weight(prev, es) <= 1024
    decreases es
  {
    if es != [] && entries + Cost(prev, es[0]) <= MAX_BATCH_ENTRIES {
      RoomIsWeight(es[0].id, es[1..], entries + Cost(prev, es[0]));
    }
  }

  /** A frame that a channel hands to write_frame: a 32-bit channel id and a payload, and not itself
      a batch. */
  ghost predicate Plain(frame: bytes) {
    var (id, payload) := Decode(frame);
    && id <= UINT32_MAX && payload != [] && |payload| <= UINT64_MAX
    && !(id == 0 && Decode(payload).0 == CONTROL_BATCH)
  }

  ghost predicate AllPlain(frames: seq<Buffer>) {
    forall f :: f in frames ==> Plain(f)
  }

  lemma PlainFrame(f: Buffer)
    requires Plain(f)
    ensures OnData(f) == One(Split(f).id, Split(f).payload) && 0 < |Split(f).payload| <= UINT64_MAX
  {
    hide BatchFrom;
  }

  lemma {:induction false} PlainFrames(frames: seq<Buffer>)
    requires AllPlain(frames)
    ensures NonEmpty(SplitAll(frames))
    ensures OnDataAll(frames) == Ones(SplitAll(frames))
  {
    hide One, OnData, Plain, Split;
    if frames != [] {
      PlainFrame(frames[0]);
      PlainFrames(frames[1..]);
    }
  }

  lemma {:induction false} SplitPrefix(frames: seq<Buffer>, k: nat)
    requires k <= |frames|
    ensures SplitAll(frames[..k]) == SplitAll(frames)[..k]
  {
    if k > 0 {
      SplitPrefix(frames[1..], k - 1);
      assert frames[..k][0] == frames[0] && frames[..k][1..] == frames[1..][..k - 1];
    }
  }

  /** A batch frame is read from its first channel id on. */
  lemma BatchOf(id: u32, body: bytes)
    ensures OnData([0, 0] + (Varint(id) + body)) == Messages(id, body, 0)
  {
    hide Varint;
    var b := Varint(id) + body;
    assert [0, 0] + b == [0] + ([0] + b);
    SmallDecode(0, [0] + b);
    SmallDecode(0, b);
    DecodeInverts(id, body);
  }

  lemma BatchIsRead(es: seq<Entry>)
    requires es != [] && NonEmpty(es)
    ensures OnData(BatchFrame(es)) == Ones(es[..Room(es[0].id, es, 0)])
  {
    hide Messages, Ones, Entries, Varint, OnData, Room;
    var id := es[0].id;
    assert BatchFrame(es) == [0, 0] + (Varint(id) + Entries(id, es));
    BatchOf(id, Entries(id, es));
    BatchDelivers(id, es, 0);
  }

  /** A batch leads to the handler calls of the frames it was made of, in order, up to the frame with
      which messages plus channel switches exceed 1024; all of them exactly when they do not. */
  lemma CorkIsTransparent(frames: seq<Buffer>)
    requires frames != [] && AllPlain(frames)
    ensures var es := SplitAll(frames);
            var k := Room(es[0].id, es, 0);
            && OnData(BatchFrame(es)) == OnDataAll(frames[..k])
            && (k == |frames| <==> Weight(es[0].id, es) <= 1024)
            && (Weight(es[0].id, es) <= 1024 ==> OnData(BatchFrame(es)) == OnDataAll(frames))
  {
    hide OnData, BatchFrame, Plain, SplitAll, NonEmpty, Ones;
    var es := SplitAll(frames);
    var k := Room(es[0].id, es, 0);
    PlainFrames(frames);
    BatchIsRead(es);
    SplitPrefix(frames, k);
    PlainFrames(frames[..k]);
    RoomIsWeight(es[0].id, es, 0);
    assert frames[..|frames|] == frames;
  }

  /** What Channel::open, send and close hand to write_frame: a channel id, a type and data. The messages of
      a channel go to its id, which is not 0; control messages go to 0 and are never batches. */
  function ChannelFrame(id: u32, kind: u64, data: bytes): bytes {
    Varint(id) + (Varint(kind) + data)
  }

  ghost predicate FromChannel(f: Buffer) {
    exists id: u32, kind: u64, data: bytes :: (id != 0 || kind != CONTROL_BATCH) && f == ChannelFrame(id, kind, data)
  }

  lemma ChannelFramesArePlain(f: Buffer)
    requires FromChannel(f)
    ensures f != [] && Plain(f)
  {
    var id: u32, kind: u64, data: bytes :| (id != 0 || kind != CONTROL_BATCH) && f == ChannelFrame(id, kind, data);
    DecodeInverts(id, Varint(kind) + data);
    DecodeInverts(kind, data);
  }

  lemma SmallDecode(x: byte, rest: bytes)
    requires x <= 0xFC
    ensures Decode([x] + rest) == (x, rest)
  {
    assert ([x] + rest)[1..] == rest;
  }

  lemma BrokenBatchIsSilent(frame: bytes)
    requires frame == [0, 0, 1, 0, 1, 5]
    ensures OnData(frame) == []
  {
    hide Decode, One, Messages, BatchFrom;
    assert BatchFrom([1, 0, 1, 5], 0) == [] by {
      SmallDecode(1, [0, 1, 5]);
      assert [1] + [0, 1, 5] == [1, 0, 1, 5];
      MessagesStep(0, [1, 0, 1, 5], 0);
      assert Messages(1, [0, 1, 5], 0) == [] by {
        SmallDecode(0, [1, 5]);
        assert [0] + [1, 5] == [0, 1, 5];
        MessagesStep(1, [0, 1, 5], 0);
        LostMessage([1, 5]);
      }
    }
    SmallDecode(0, [0, 1, 0, 1, 5]);
    SmallDecode(0, [1, 0, 1, 5]);
    assert [0] + [0, 1, 0, 1, 5] == frame && [0] + [1, 0, 1, 5] == [0, 1, 0, 1, 5];
  }

  lemma LostMessage(b: bytes)
    requires b == [1, 5]
    ensures BatchFrom(b, 1) == []
  {
    hide Decode, One, Messages, BatchFrom;
    SmallDecode(1, [5]);
    SmallDecode(5, []);
    assert [1] + [5] == b && [5] + [] == [5];
    MessagesStep(1, b, 1);
    MessagesStep(1, [5], 1);
  }

  /** Why the payloads must not be empty: a frame that is only a channel id, which no channel writes, is
      ignored by itself, but inside a batch its zero length reads as a channel switch: here the message
      behind it is lost, and a longer one would go to the wrong channel. */
  lemma EmptyPayloadBreaksABatch(a: Buffer, b: Buffer)
    requires a == [1] && b == [1, 5]
    ensures OnData(a) == [] && OnData(b) == [Data(1, [5])]
    ensures OnData(BatchFrame([Split(a), Split(b)])) == []
  {
    BatchOfTheTwo(a, b);
    BrokenBatchIsSilent([0, 0, 1, 0, 1, 5]);
    hide Decode, One, BatchFrame, BatchFrom;
    SmallDecode(1, []);
    SmallDecode(1, [5]);
    assert [1] + [] == a && [1] + [5] == b;
    OneData(1, [5]);
  }

  lemma OneData(id: nat, payload: bytes)
    requires id != 0
    ensures One(id, payload) == [Data(id, payload)]
  {
  }

  lemma BatchOfTheTwo(a: Buffer, b: Buffer)
    requires a == [1] && b == [1, 5]
    ensures BatchFrame([Split(a), Split(b)]) == [0, 0, 1, 0, 1, 5]
  {
    SmallDecode(1, []);
    SmallDecode(1, [5]);
    assert [1] + [] == a && [1] + [5] == b;
    var e, f := Split(a), Split(b);
    assert e == Entry(1, []) && f == Entry(1, [5]);
    assert [e, f][1..] == [f] && [f][1..] == [];
    assert Entries(1, [f]) == [1, 5];
    assert Entries(1, [e, f]) == [0] + [1, 5];
  }

  // ------------------------------------------------------------------------------------------
  // The pointer loops
  // ------------------------------------------------------------------------------------------

  /** The array with s written over it from position `at`. */
  ghost function Over(a: bytes, at: nat, s: bytes): bytes
    requires at + |s| <= |a|
  {
    a[..at] + s + a[at + |s|..]
  }

  method PutBytes(buf: array<byte>, at: nat, s: bytes)
    requires at + |s| <= buf.Length
    modifies buf
    ensures buf[..] == Over(old(buf[..]), at, s)
  {
    var i := 0;
    while i < |s|
      invariant i <= |s|
      invariant forall k :: 0 <= k < buf.Length ==> buf[k] == if at <= k < at + i then s[k - at] else old(buf[k])
    {
      buf[at + i] := s[i];
      i := i + 1;
    }
  }

  method VarintEncode(buf: array<byte>, at: nat, v: u64) returns (n: nat)
    requires at + VarintSize(v) <= buf.Length
    modifies buf
    ensures n == VarintSize(v) && buf[..] == Over(old(buf[..]), at, Varint(v))
  {
    hide Le;
    if v <= 0xFC {
      buf[at] := v;
      return 1;
    }
    if v <= 0xFFFF {
      EncodeThree(buf, at, v);
      return 3;
    }
    if v <= 0xFFFF_FFFF {
      EncodeFive(buf, at, v);
      return 5;
    }
    EncodeNine(buf, at, v);
    n := 9;
  }

  method EncodeThree(buf: array<byte>, at: nat, v: u64)
    requires at + 3 <= buf.Length
    modifies buf
    ensures buf[..] == Over(old(buf[..]), at, [0xFD] + Le(v, 2))
  {
    hide Le;
    LeTwo(v);
    buf[at], buf[at + 1], buf[at + 2] := 0xFD, v % 256, v / 256 % 256;
  }

  method EncodeFive(buf: array<byte>, at: nat, v: u64)
    requires at + 5 <= buf.Length
    modifies buf
    ensures buf[..] == Over(old(buf[..]), at, [0xFE] + Le(v, 4))
  {
    hide Le;
    LeFour(v);
    buf[at], buf[at + 1], buf[at + 2] := 0xFE, v % 256, v / 0x100 % 256;
    buf[at + 3], buf[at + 4] := v / 0x1_0000 % 256, v / 0x100_0000 % 256;
  }

  method EncodeNine(buf: array<byte>, at: nat, v: u64)
    requires at + 9 <= buf.Length
    modifies buf
    ensures buf[..] == Over(old(buf[..]), at, [0xFF] + Le(v, 8))
  {
    hide Le, Pow256;
    buf[at] := 0xFF;
    var i := 0;
    while i < 8
      invariant i <= 8 && buf[at] == 0xFF
      invariant forall k :: at < k <= at + i ==> buf[k] == Le(v, 8)[k - at - 1]
      invariant forall k :: 0 <= k < buf.Length && !(at <= k < at + 1 + i) ==> buf[k] == old(buf[k])
    {
      LeAt(v, 8, i);
      buf[at + 1 + i] := v / Pow256(i) % 256;
      i := i + 1;
    }
  }

  lemma SliceGrows(data: bytes, a: nat, b: nat)
    requires a <= b < |data|
    ensures data[a..b] + [data[b]] == data[a..b + 1]
  {
  }

  lemma Sliced(data: bytes, ptr: nat, end: nat, i: nat, j: nat)
    requires ptr <= end <= |data| && i <= j <= end - ptr
    ensures data[ptr..end][i..j] == data[ptr + i..ptr + j]
    ensures j == end - ptr ==> data[ptr..end][i..] == data[ptr + i..end]
  {
    var r := data[ptr..end];
    assert |r| == end - ptr && forall k :: 0 <= k < |r| ==> r[k] == data[ptr + k];
    assert r[i..j] == data[ptr + i..ptr + j];
    assert j == |r| ==> r[i..] == r[i..j] && ptr + j == end;
  }

  /** varint_decode: the pointer moves past the encoding, or to the end if it is cut short. */
  method VarintDecode(data: bytes, ptr: nat, end: nat) returns (v: nat, next: nat)
    requires ptr <= end <= |data|
    ensures ptr <= next <= end && (ptr < end ==> ptr < next)
    ensures Decode(data[ptr..end]) == (v, data[next..end])
  {
    hide Le, VarintSize;
    if ptr >= end {
      return 0, ptr;
    }
    var first := data[ptr];
    var p := ptr + 1;
    ghost var rest := data[ptr..end];
    if first <= 0xFC {
      return first, p;
    }
    var size := if first == 0xFD then 2 else if first == 0xFE then 4 else 8;
    if p + size > end {
      return 0, end;
    }
    v := 0;
    var i := 0;
    while i < size
      invariant i <= size && v == FromLe(data[p..p + i])
    {
      FromLeAppend(data[p..p + i], data[p + i]);
      SliceGrows(data, p, p + i);
      v := v + data[p + i] * Pow256(i);
      i := i + 1;
    }
    Sliced(data, ptr, end, 1, 1 + size);
    Sliced(data, ptr, end, 1 + size, |rest|);
    next := p + size;
  }

  method HandleOne(id: nat, data: bytes, from: nat, to: nat) returns (calls: seq<Dispatch>)
    requires from <= to <= |data|
    ensures calls == One(id, data[from..to])
  {
    if id == 0 {
      var kind, sub := VarintDecode(data, from, to);
      calls := if kind == CONTROL_OPEN then [Open(data[sub..to])]
      else if kind == CONTROL_REJECT then [Reject(data[sub..to])]
      else if kind == CONTROL_CLOSE then [Close(data[sub..to])]
      else [];
    } else {
      calls := [Data(id, data[from..to])];
    }
  }

  lemma MessagesStep(id: nat, b: bytes, entries: nat)
    ensures b == [] ==> Messages(id, b, entries) == [] == BatchFrom(b, entries)
    ensures b != [] ==> BatchFrom(b, entries) == if Decode(b).0 > UINT32_MAX then []
              else Messages(Decode(b).0, Decode(b).1, entries)
    ensures entries + 1 > MAX_BATCH_ENTRIES ==> Messages(id, b, entries) == []
    ensures b != [] && entries + 1 <= MAX_BATCH_ENTRIES ==>
              var (len, rest) := Decode(b);
              Messages(id, b, entries) ==
              if len == 0 then BatchFrom(rest, entries + 1)
              else if len > |rest| then []
              else One(id, rest[..len]) + Messages(id, rest[len..], entries + 1)
  {
    hide One, Decode;
  }

  /** handle_batch: the handler calls, in order. */
  method HandleBatch(data: bytes) returns (calls: seq<Dispatch>)
    ensures calls == BatchFrom(data, 0)
  {
    hide One, Decode, BatchFrom, Messages;
    calls := [];
    var ptr, entries := 0, 0;
    assert data[0..] == data;
    while ptr < |data|
      invariant ptr <= |data| && calls + BatchFrom(data[ptr..], entries) == BatchFrom(data, 0)
      decreases |data| - ptr
    {
      var id, next := VarintDecode(data, ptr, |data|);
      assert data[ptr..|data|] == data[ptr..] && data[next..|data|] == data[next..];
      MessagesStep(id, data[ptr..], entries);
      ptr := next;
      if id > UINT32_MAX {
        return;
      }
      calls, ptr, entries := HandleChannel(data, id, ptr, entries, calls);
      MessagesStep(id, data[ptr..], entries);
    }
    MessagesStep(0, data[ptr..], entries);
  }

  /** One turn of the inner loop, on positions. */
  lemma ChannelStep(data: bytes, id: nat, ptr: nat, entries: nat, len: nat, body: nat)
    requires ptr < body <= |data| && entries + 1 <= MAX_BATCH_ENTRIES && Decode(data[ptr..]) == (len, data[body..])
    ensures Messages(id, data[ptr..], entries) ==
            if len == 0 then BatchFrom(data[body..], entries + 1)
            else if len > |data| - body then []
            else One(id, data[body..body + len]) + Messages(id, data[body + len..], entries + 1)
  {
    hide One, Decode, BatchFrom, Messages;
    MessagesStep(id, data[ptr..], entries);
    if len <= |data| - body {
      Sliced(data, body, |data|, 0, len);
      Sliced(data, body, |data|, len, |data| - body);
      assert data[body..|data|] == data[body..] && data[body..][0..len] == data[body..][..len];
    }
  }

  lemma NothingMore(data: bytes, id: nat, ptr: nat, entries: nat)
    requires ptr <= |data| && (ptr == |data| || entries + 1 > MAX_BATCH_ENTRIES)
    ensures Messages(id, data[ptr..], entries) == [] && BatchFrom(data[|data|..], entries) == []
  {
    MessagesStep(id, data[ptr..], entries);
    MessagesStep(id, data[|data|..], entries);
  }

  /** The inner loop: the messages of one channel, up to a zero length or the end of the batch. Where
      the rest of the batch is given up, the pointer is moved to the end. */
  method HandleChannel(data: bytes, id: nat, from: nat, counted: nat, before: seq<Dispatch>)
    returns (calls: seq<Dispatch>, ptr: nat, entries: nat)
    requires from <= |data|
    ensures from <= ptr <= |data|
    ensures calls + BatchFrom(data[ptr..], entries) == before + Messages(id, data[from..], counted)
  {
    hide One, Decode, BatchFrom, Messages;
    calls, ptr, entries := before, from, counted;
    while ptr < |data|
      invariant from <= ptr <= |data|
      invariant calls + Messages(id, data[ptr..], entries) == before + Messages(id, data[from..], counted)
      decreases |data| - ptr
    {
      if entries + 1 > MAX_BATCH_ENTRIES {
        NothingMore(data, id, ptr, entries);
        NothingMore(data, id, |data|, entries + 1);
        ptr, entries := |data|, entries + 1;
        return;
      }
      var len, body := VarintDecode(data, ptr, |data|);
      assert data[ptr..|data|] == data[ptr..] && data[body..|data|] == data[body..];
      ChannelStep(data, id, ptr, entries, len, body);
      entries := entries + 1;
      if len == 0 {
        ptr := body;
        return;
      }
      if len > |data| - body {
        NothingMore(data, id, |data|, entries);
        ptr := |data|;
        return;
      }
      var one := HandleOne(id, data, body, body + len);
      Regroup(calls, one, Messages(id, data[body + len..], entries));
      calls := calls + one;
      ptr := body + len;
    }
    NothingMore(data, id, ptr, entries);
  }

  lemma Regroup(a: seq<Dispatch>, b: seq<Dispatch>, c: seq<Dispatch>)
    ensures a + (b + c) == a + b + c
  {
  }

  /** on_data: the handler calls of one incoming frame. */
  method Receive(data: bytes) returns (calls: seq<Dispatch>)
    ensures calls == OnData(data)
  {
    hide One, Decode, BatchFrom;
    if |data| == 0 {
      return [];
    }
    var id, ptr := VarintDecode(data, 0, |data|);
    assert data[0..|data|] == data && data[ptr..|data|] == data[ptr..];
    if ptr >= |data| {
      return [];
    }
    if id == 0 {
      var kind, body := VarintDecode(data, ptr, |data|);
      assert data[body..|data|] == data[body..];
      if kind == CONTROL_BATCH {
        calls := HandleBatch(data[body..]);
      } else {
        calls := HandleOne(0, data, ptr, |data|);
      }
    } else {
      if id > UINT32_MAX {
        return [];
      }
      calls := HandleOne(id, data, ptr, |data|);
    }
  }

  // ------------------------------------------------------------------------------------------
  // The multiplexer's output
  // ------------------------------------------------------------------------------------------

  /** What cork, uncork and write_frame work on, with the frames handed to the transport. */
  datatype Output = Output(corks: nat, batch: seq<Entry>, destroyed: bool, written: seq<bytes>)

  function Frames(o: Output, frame: Buffer): Output {
    if o.destroyed then o
    else if o.corks > 0 then
      if frame == [] then o else o.(batch := o.batch + [Split(frame)])
    else o.(written := o.written + [frame])
  }

  function Uncorked(o: Output): Output
  {
    if o.corks == 0 then o
    else if o.corks > 1 || o.batch == [] then o.(corks := o.corks - 1)
    else o.(corks := 0, batch := [], written := o.written + [BatchFrame(o.batch)])
  }

  datatype Op = CorkOp | UncorkOp | WriteOp(frame: Buffer)

  ghost predicate Writable(ops: seq<Op>) {
    forall op :: op in ops && op.WriteOp? ==> op.frame != []
  }

  function Depth(corks: nat, ops: seq<Op>): int {
    if ops == [] then corks
    else
      Depth(corks, ops[..|ops| - 1]) +
      (match ops[|ops| - 1] case CorkOp => 1 case UncorkOp => -1 case WriteOp(_) => 0)
  }

  function Writes(ops: seq<Op>): seq<Buffer> {
    if ops == [] then []
    else
      var op := ops[|ops| - 1];
      Writes(ops[..|ops| - 1]) + (if op.WriteOp? then [op.frame] else [])
  }

  lemma {:induction false} SplitAppend(frames: seq<Buffer>, f: Buffer)
    ensures SplitAll(frames + [f]) == SplitAll(frames) + [Split(f)]
  {
    hide Split;
    if frames == [] {
      assert [f][1..] == [];
    } else {
      SplitAppend(frames[1..], f);
      assert (frames + [f])[1..] == frames[1..] + [f];
    }
  }

  function Run(o: Output, ops: seq<Op>): Output {
    if ops == [] then o else Apply(Run(o, ops[..|ops| - 1]), ops[|ops| - 1])
  }

  function Apply(o: Output, op: Op): Output
  {
    match op
    case CorkOp => o.(corks := o.corks + 1)
    case UncorkOp => Uncorked(o)
    case WriteOp(frame) => Frames(o, frame)
  }

  /** r is reached from o by the operations, always staying corked. */
  ghost predicate Held(o: Output, ops: seq<Op>, r: Output) {
    && r.batch == o.batch + SplitAll(Writes(ops)) && r.written == o.written && !r.destroyed
    && r.corks == Depth(o.corks, ops)
  }

  /** While the corks do not run out, however they are nested, nothing is written and every frame is
      kept, in order. */
  lemma {:induction false} NestedCorksHold(o: Output, ops: seq<Op>)
    requires !o.destroyed && o.corks >= 1 && Writable(ops)
    requires forall k :: 0 <= k <= |ops| ==> Depth(o.corks, ops[..k]) >= 1
    ensures Held(o, ops, Run(o, ops))
    decreases ops
  {
    hide BatchFrame, Split;
    assert ops[..|ops|] == ops;
    if ops == [] {
      assert o.batch + [] == o.batch;
    } else {
      var front, op := ops[..|ops| - 1], ops[|ops| - 1];
      forall k | 0 <= k <= |front| ensures Depth(o.corks, front[..k]) >= 1 {
        assert front[..k] == ops[..k];
      }
      NestedCorksHold(o, front);
      if op.WriteOp? {
        SplitAppend(Writes(front), op.frame);
        assert o.batch + SplitAll(Writes(front)) + [Split(op.frame)] ==
               o.batch + (SplitAll(Writes(front)) + [Split(op.frame)]);
      } else {
        assert Writes(ops) == Writes(front);
      }
    }
  }

  /** From an uncorked state: a cork, any operations that stay corked and end at the first cork, and
      the last uncork write one batch frame of everything written meanwhile, or nothing at all. */
  lemma OutermostUncorkWrites(o: Output, ops: seq<Op>)
    requires !o.destroyed && o.corks == 0 && o.batch == [] && Writable(ops)
    requires (forall k :: 0 <= k <= |ops| ==> Depth(1, ops[..k]) >= 1) && Depth(1, ops) == 1
    ensures var r := Uncorked(Run(Apply(o, CorkOp), ops));
            r == if Writes(ops) == [] then o else o.(written := o.written + [BatchFrame(SplitAll(Writes(ops)))])
  {
    hide BatchFrame, Run, Split, Depth;
    assert ops[..|ops|] == ops;
    NestedCorksHold(Apply(o, CorkOp), ops);
    assert [] + SplitAll(Writes(ops)) == SplitAll(Writes(ops));
  }

  /** Corking is transparent: the one frame that a corked run writes means what the run's frames mean,
      as long as messages plus channel switches stay within the limit of a batch. */
  lemma CorkedRunMeansItsFrames(o: Output, ops: seq<Op>)
    requires !o.destroyed && o.corks == 0 && o.batch == [] && Writable(ops) && AllPlain(Writes(ops))
    requires (forall k :: 0 <= k <= |ops| ==> Depth(1, ops[..k]) >= 1) && Depth(1, ops) == 1
    requires Writes(ops) != [] ==> Weight(SplitAll(Writes(ops))[0].id, SplitAll(Writes(ops))) <= 1024
    ensures var r := Uncorked(Run(Apply(o, CorkOp), ops));
            o.written <= r.written && OnDataAll(r.written[|o.written|..]) == OnDataAll(Writes(ops))
  {
    hide BatchFrame, OnData, Run, Split, AllPlain, SplitAll, Weight;
    OutermostUncorkWrites(o, ops);
    if Writes(ops) != [] {
      CorkIsTransparent(Writes(ops));
      var f := BatchFrame(SplitAll(Writes(ops)));
      assert (o.written + [f])[|o.written|..] == [f];
      assert OnData(f) + OnDataAll([f][1..]) == OnData(f);
    } else {
      assert o.written[|o.written|..] == [];
    }
  }

  /** The same for what channels write, without a limit: what is on the wire means the frames up to the one
      with which messages plus channel switches exceed 1024. */
  lemma CorkedChannelsMeanTheirFrames(o: Output, ops: seq<Op>)
    requires !o.destroyed && o.corks == 0 && o.batch == [] && forall op :: op in ops && op.WriteOp? ==>
              FromChannel(op.frame)
    requires (forall k :: 0 <= k <= |ops| ==> Depth(1, ops[..k]) >= 1) && Depth(1, ops) == 1
    ensures var r, frames := Uncorked(Run(Apply(o, CorkOp), ops)), Writes(ops);
            if frames == [] then r == o
            else
              var es := SplitAll(frames);
              && o.written <= r.written
              && OnDataAll(r.written[|o.written|..]) == OnDataAll(frames[..Room(es[0].id, es, 0)])
              && (Room(es[0].id, es, 0) == |frames| <==> Weight(es[0].id, es) <= 1024)
  {
    hide Run, Uncorked, FromChannel, BatchFrame, OnData, Plain, Room, Weight;
    forall op | op in ops && op.WriteOp? ensures op.frame != [] && Plain(op.frame) {
      ChannelFramesArePlain(op.frame);
    }
    WritesAreWritten(ops);
    OutermostUncorkWrites(o, ops);
    var frames := Writes(ops);
    if frames != [] {
      CorkIsTransparent(frames);
      OneFrameOnly(BatchFrame(SplitAll(frames)));
      assert (o.written + [BatchFrame(SplitAll(frames))])[|o.written|..] == [BatchFrame(SplitAll(frames))];
    }
  }

  lemma OneFrameOnly(f: bytes)
    ensures OnDataAll([f]) == OnData(f)
  {
    hide OnData;
    assert [f][1..] == [] && OnDataAll([]) == [];
    assert OnData(f) + [] == OnData(f);
  }

  lemma {:induction false} WritesAreWritten(ops: seq<Op>)
    ensures forall f :: f in Writes(ops) ==> exists op :: op in ops && op.WriteOp? && op.frame == f
  {
    if ops != [] {
      var front, last := ops[..|ops| - 1], ops[|ops| - 1];
      WritesAreWritten(front);
      forall f | f in Writes(ops) ensures exists op :: op in ops && op.WriteOp? && op.frame == f {
        if f in Writes(front) {
          var op :| op in front && op.WriteOp? && op.frame == f;
          assert op in ops;
        } else {
          assert last in ops && last.WriteOp? && last.frame == f;
        }
      }
    }
  }

  /** The multiplexer. */
  class Mux {
    var corkCount: nat
    var batch: seq<Entry>
    var destroyed: bool
    /** The frames handed to the write function. */
    var written: seq<bytes>

    function View(): Output
      reads this
    {
      Output(corkCount, batch, destroyed, written)
    }

    constructor ()
      ensures View() == Output(0, [], false, [])
    {
      corkCount, batch, destroyed, written := 0, [], false, [];
    }

    method WriteFrame(data: Buffer)
      modifies this`batch, this`written
      ensures View() == Frames(old(View()), data)
      ensures written == if destroyed || corkCount > 0 then old(written) else old(written) + [data]
      ensures |batch| == |old(batch)| + (if !destroyed && corkCount > 0 && data != [] then 1 else 0)
      ensures old(batch) == batch[..|old(batch)|]
    {
      if destroyed {
        return;
      }
      if corkCount > 0 {
        if |data| == 0 {
          return;
        }
        var id, ptr := VarintDecode(data, 0, |data|);
        assert data[0..|data|] == data && data[ptr..|data|] == data[ptr..];
        batch := batch + [Entry(id % 0x1_0000_0000, data[ptr..])];
        return;
      }
      written := written + [data];
    }

    method Cork()
      modifies this`corkCount
      ensures View() == old(View()).(corks := old(corkCount) + 1)
    {
      corkCount := corkCount + 1;
    }

    /** Only the outermost uncork writes, one frame for the whole batch, whose size is computed
        beforehand. */
    method Uncork()
      modifies this
      ensures View() == Uncorked(old(View()))
      ensures corkCount == if old(corkCount) == 0 then 0 else old(corkCount) - 1
      ensures if old(corkCount) == 1 && old(batch) != []
              then batch == [] && |written| == |old(written)| + 1 && written[..|old(written)|] == old(written)
              else batch == old(batch) && written == old(written)
      ensures destroyed == old(destroyed)
    {
      if corkCount <= 0 {
        return;
      }
      corkCount := corkCount - 1;
      if corkCount > 0 {
        return;
      }
      if batch == [] {
        return;
      }
      var size := BatchSize(batch);
      var frame := new byte[size](_ => 0);
      var end := EncodeBatch(batch, frame);
      batch := [];
      written := written + [frame[..end]];
    }
  }

  /** The channel id written before entry i. */
  function PrevAt(es: seq<Entry>, i: nat): u32
    requires i <= |es| && es != []
  {
    if i == 0 then es[0].id else es[i - 1].id
  }

  lemma {:induction false} EntriesSplit(prev: u32, es: seq<Entry>, i: nat)
    requires i <= |es|
    ensures Entries(prev, es) == Entries(prev, es[..i]) + Entries(if i == 0 then prev else es[i - 1].id, es[i..])
    decreases es
  {
    hide EntryBytes;
    if i == 0 {
      assert es[0..] == es;
    } else {
      EntriesSplit(es[0].id, es[1..], i - 1);
      assert es[1..][i - 1..] == es[i..] && es[1..][..i - 1] == es[..i][1..];
    }
  }

  lemma EntriesNone(prev: u32)
    ensures Entries(prev, []) == []
  {
  }

  lemma EntriesStep(es: seq<Entry>, i: nat)
    requires i < |es|
    ensures Entries(es[0].id, es[..i + 1]) == Entries(es[0].id, es[..i]) + EntryBytes(PrevAt(es, i), es[i])
    ensures |Entries(es[0].id, es[..i + 1])| <= |Entries(es[0].id, es)|
  {
    hide EntryBytes;
    var front := es[..i + 1];
    assert front[..i] == es[..i] && front[i..] == [es[i]];
    EntriesSplit(es[0].id, front, i);
    EntriesSplit(es[0].id, es, i + 1);
    assert [es[i]][1..] == [];
  }

  method BatchSize(es: seq<Entry>) returns (size: nat)
    requires es != []
    ensures size == |BatchFrame(es)|
  {
    hide Varint, VarintSize;
    size := 2 + VarintSize(es[0].id);
    var prev := es[0].id;
    var i := 0;
    while i < |es|
      invariant i <= |es| && prev == PrevAt(es, i)
      invariant size == 2 + VarintSize(es[0].id) + |Entries(es[0].id, es[..i])|
    {
      var e := es[i];
      EntriesStep(es, i);
      if e.id != prev {
        size := size + 1 + VarintSize(e.id);
        prev := e.id;
      }
      size := size + VarintSize(|e.payload|) + |e.payload|;
      i := i + 1;
    }
    assert es[..|es|] == es;
  }

  lemma OverAppends(a: bytes, at: nat, s: bytes, prefix: bytes)
    requires at + |s| <= |a| && a[..at] == prefix
    ensures Over(a, at, s)[..at + |s|] == prefix + s && |Over(a, at, s)| == |a|
  {
  }

  method AppendBytes(buf: array<byte>, p: nat, s: bytes)
    requires p + |s| <= buf.Length
    modifies buf
    ensures buf[..p + |s|] == old(buf[..p]) + s
  {
    OverAppends(buf[..], p, s, buf[..p]);
    PutBytes(buf, p, s);
    assert buf[..][..p + |s|] == buf[..p + |s|];
  }

  method AppendVarint(buf: array<byte>, p: nat, v: u64) returns (next: nat)
    requires p + VarintSize(v) <= buf.Length
    modifies buf
    ensures next == p + VarintSize(v) && buf[..next] == old(buf[..p]) + Varint(v)
  {
    hide VarintSize;
    OverAppends(buf[..], p, Varint(v), buf[..p]);
    var n := VarintEncode(buf, p, v);
    next := p + n;
    assert buf[..][..next] == buf[..next];
  }

  /** Appends one entry at p. */
  method EncodeEntry(e: Entry, prev: u32, buf: array<byte>, p: nat) returns (next: nat)
    requires p + |EntryBytes(prev, e)| <= buf.Length
    modifies buf
    ensures next == p + |EntryBytes(prev, e)|
    ensures buf[..next] == old(buf[..p]) + EntryBytes(prev, e)
  {
    hide Varint, VarintSize;
    ghost var front := buf[..p];
    next := p;
    if e.id != prev {
      AppendBytes(buf, next, [0x00]);
      next := next + 1;
      next := AppendVarint(buf, next, e.id);
      assert front + [0] + Varint(e.id) == front + ([0] + Varint(e.id));
    }
    next := AppendSized(buf, next, e.payload);
  }

  /** Appends a payload behind its length. */
  method AppendSized(buf: array<byte>, p: nat, payload: Buffer) returns (next: nat)
    requires p + VarintSize(|payload|) + |payload| <= buf.Length
    modifies buf
    ensures next == p + |Varint(|payload|) + payload|
    ensures buf[..next] == old(buf[..p]) + (Varint(|payload|) + payload)
  {
    hide Varint, VarintSize;
    ghost var front := buf[..p];
    next := AppendVarint(buf, p, |payload|);
    AppendBytes(buf, next, payload);
    next := next + |payload|;
    assert front + Varint(|payload|) + payload == front + (Varint(|payload|) + payload);
  }

  /** The second pass of uncork: exactly the computed size is written. */
  method EncodeBatch(es: seq<Entry>, buf: array<byte>) returns (p: nat)
    requires es != [] && buf.Length == |BatchFrame(es)|
    modifies buf
    ensures p == buf.Length && buf[..p] == BatchFrame(es)
  {
    hide Varint, VarintSize, EntryBytes, Entries;
    EntriesNone(es[0].id);
    ghost var head := [0, 0] + Varint(es[0].id);
    p := EncodeHeader(es, buf);
    var prev := es[0].id;
    var i := 0;
    assert es[..0] == [];
    while i < |es|
      invariant i <= |es| && prev == PrevAt(es, i)
      invariant p == |head| + |Entries(es[0].id, es[..i])| <= buf.Length
      invariant buf[..p] == head + Entries(es[0].id, es[..i])
    {
      var e := es[i];
      EntriesStep(es, i);
      p := EncodeEntry(e, prev, buf, p);
      if e.id != prev {
        prev := e.id;
      }
      i := i + 1;
    }
    assert es[..|es|] == es;
  }

  method EncodeHeader(es: seq<Entry>, buf: array<byte>) returns (p: nat)
    requires es != [] && buf.Length == |BatchFrame(es)|
    modifies buf
    ensures p == 2 + VarintSize(es[0].id) <= buf.Length && buf[..p] == [0, 0] + Varint(es[0].id)
  {
    hide Varint, VarintSize;
    AppendBytes(buf, 0, [0x00, 0x00]);
    p := AppendVarint(buf, 2, es[0].id);
  }
}
