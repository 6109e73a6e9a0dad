/** Framing and delivery of the encrypted stream (src/secret_stream.cpp).

    The receiving half is a function on values, Feed, that the class Duplex computes in place. The
    secretstream cipher is a parameter: sealing and opening depend on the header and on the number
    of messages sealed or opened so far, and a message that does not open leaves the state alone. */
module SecretStream {
  import opened Wrappers
  import opened Bytes
  import opened Varints

  const ABYTES: nat := 17
  const STREAM_ID_LEN: nat := 32
  const HEADERBYTES: nat := 24
  const ID_HEADER_BYTES: nat := 56
  const MAX_ATOMIC_WRITE: nat := 0xFF_FFFF - ABYTES
  const FRAME_LEN_MAX: nat := MAX_ATOMIC_WRITE + ABYTES
  const MAX_PENDING: nat := 64

  // ------------------------------------------------------------------------------------------
  // Frames
  // ------------------------------------------------------------------------------------------

  function WriteUint24(n: nat): (r: bytes)
    ensures |r| == 3
  {
    [n % 0x100, n / 0x100 % 0x100, n / 0x1_0000 % 0x100]
  }

  function ReadUint24(b: bytes): (r: nat)
    requires |b| >= 3
  {
    var b0: int, b1: int, b2: int := b[0], b[1], b[2];
    b0 + 0x100 * b1 + 0x1_0000 * b2
  }

  lemma Uint24RoundTrip(n: nat, rest: bytes)
    requires n <= 0xFF_FFFF
    ensures ReadUint24(WriteUint24(n) + rest) == n
  {
    assert n / 0x100 / 0x100 == n / 0x1_0000;
  }

  function Frame(body: bytes): (r: bytes)
    ensures |r| == 3 + |body|
  {
    WriteUint24(|body|) + body
  }

  /** A body that try_extract_frame takes: not empty, and short enough for the 24-bit length. */
  predicate FrameBody(body: bytes) {
    1 <= |body| <= 0xFF_FFFF
  }

  function Wire(bodies: seq<bytes>): bytes {
    if bodies == [] then [] else Frame(bodies[0]) + Wire(bodies[1..])
  }

  // ------------------------------------------------------------------------------------------
  // The receiving half
  // ------------------------------------------------------------------------------------------

  /** The cipher, the peer's stream id, whether keepalive is on, and what the user's callbacks do:
      whether on_connect, or the n-th on_message, destroys the stream. */
  datatype Config = Config(
    remoteId: bytes,
    keepAlive: bool,
    initPull: bytes -> bool,
    push: (bytes, nat, bytes) -> bytes,
    pull: (bytes, nat, bytes) -> Option<bytes>,
    stopOnConnect: bool,
    stopAfter: nat -> bool)

  datatype Receiver = Receiver(
    buf: bytes, bytesRead: nat, headerSent: bool, headerReceived: bool, header: bytes, count: nat,
    connected: bool, destroyed: bool, error: int,
    pending: seq<bytes>, connects: nat, delivered: seq<bytes>)

  const IDLE := Receiver([], 0, false, false, [], 0, false, false, 0, [], 0, [])

  function Destroyed(st: Receiver, error: int): Receiver {
    if st.destroyed then st else st.(destroyed := true, error := error)
  }

  function Delivered(cfg: Config, st: Receiver, m: bytes): Receiver {
    var s := st.(delivered := st.delivered + [m]);
    if cfg.stopAfter(|s.delivered|) then Destroyed(s, 0) else s
  }

  function Replayed(cfg: Config, st: Receiver, ms: seq<bytes>): Receiver
    decreases ms
  {
    if ms == [] || st.destroyed then st else Replayed(cfg, Delivered(cfg, st, ms[0]), ms[1..])
  }

  /** maybe_fire_connect. */
  function Connected(cfg: Config, st: Receiver): Receiver {
    if st.connected || !st.headerSent || !st.headerReceived then st
    else
      var s := st.(connected := true, connects := st.connects + 1);
      var t := if cfg.stopOnConnect then Destroyed(s, 0) else s;
      Replayed(cfg, t.(pending := []), st.pending)
  }

  /** decrypt: nothing for a short, forged or suppressed message. */
  function Decrypted(cfg: Config, st: Receiver, body: bytes): (Receiver, Option<bytes>) {
    if !st.headerReceived || |body| < ABYTES then (st, None)
    else
      var plain := cfg.pull(st.header, st.count, body);
      if plain.None? then (st, None)
      else
        var s := st.(count := st.count + 1);
        if plain.value == [] && cfg.keepAlive then (s, None) else (s, plain)
  }

  /** handle_frame. */
  function Handled(cfg: Config, st: Receiver, body: bytes): Receiver {
    if !st.headerReceived then
      if |body| != ID_HEADER_BYTES then Destroyed(st, -5)
      else if body[..STREAM_ID_LEN] != cfg.remoteId || !cfg.initPull(body[STREAM_ID_LEN..]) then Destroyed(st, -6)
      else Connected(cfg, st.(headerReceived := true, header := body[STREAM_ID_LEN..], count := 0))
    else
      var (s, plain) := Decrypted(cfg, st, body);
      if plain.None? then s
      else if !s.connected then
        var q := s.(pending := s.pending + [plain.value]);
        if |q.pending| > MAX_PENDING then Destroyed(q, -7) else q
      else Delivered(cfg, s, plain.value)
  }

  /** try_extract_frame, with whether a frame was consumed. */
  function Extracted(cfg: Config, st: Receiver): (r: (Receiver, bool))
    ensures r.1 ==> |r.0.buf| < |st.buf|
  {
    if |st.buf| < 3 then (st, false)
    else
      var n := ReadUint24(st.buf);
      if n > FRAME_LEN_MAX then (Destroyed(st, -9), false)
      else if n == 0 then (Destroyed(st, -10), false)
      else if |st.buf| < 3 + n then (st, false)
      else
        var body := st.buf[3..3 + n];
        BufIsKept(cfg, st.(buf := st.buf[3 + n..]), body);
        (Handled(cfg, st.(buf := st.buf[3 + n..]), body), true)
  }

  function Drained(cfg: Config, st: Receiver): Receiver
    decreases |st.buf|
  {
    if st.destroyed then st
    else
      var (s, more) := Extracted(cfg, st);
      if more then Drained(cfg, s) else s
  }

  /** process_incoming_bytes. */
  function Feed(cfg: Config, st: Receiver, data: bytes): Receiver {
    if |data| == 0 then st
    else Drained(cfg, st.(bytesRead := st.bytesRead + |data|, buf := st.buf + data))
  }

  /** The acknowledgement of our own header frame. */
  function Acked(cfg: Config, st: Receiver): Receiver {
    Connected(cfg, st.(headerSent := true))
  }

  // ------------------------------------------------------------------------------------------
  // Chunking independence
  // ------------------------------------------------------------------------------------------

  lemma {:induction false} ReplayKeepsBuf(cfg: Config, st: Receiver, ms: seq<bytes>, b: bytes, n: nat)
    ensures Replayed(cfg, st.(buf := b, bytesRead := n), ms) == Replayed(cfg, st, ms).(buf := b, bytesRead := n)
    decreases ms
  {
    if ms != [] && !st.destroyed {
      ReplayKeepsBuf(cfg, Delivered(cfg, st, ms[0]), ms[1..], b, n);
    }
  }

  lemma ConnectIgnoresBuf(cfg: Config, st: Receiver, b: bytes, n: nat)
    ensures Connected(cfg, st.(buf := b, bytesRead := n)) == Connected(cfg, st).(buf := b, bytesRead := n)
  {
    var s := st.(connected := true, connects := st.connects + 1);
    var t := (if cfg.stopOnConnect then Destroyed(s, 0) else s).(pending := []);
    ReplayKeepsBuf(cfg, t, st.pending, b, n);
  }

  /** Handling a frame neither looks at nor changes the bytes behind it. */
  lemma BufIsIgnored(cfg: Config, st: Receiver, body: bytes, b: bytes, n: nat)
    ensures Handled(cfg, st.(buf := b, bytesRead := n), body) == Handled(cfg, st, body).(buf := b, bytesRead := n)
  {
    hide Connected;
    if !st.headerReceived && |body| == ID_HEADER_BYTES {
      ConnectIgnoresBuf(cfg, st.(headerReceived := true, header := body[STREAM_ID_LEN..], count := 0), b, n);
    }
  }

  lemma BufIsKept(cfg: Config, st: Receiver, body: bytes)
    ensures Handled(cfg, st, body).buf == st.buf
  {
    BufIsIgnored(cfg, st, body, st.buf, st.bytesRead);
    assert st.(buf := st.buf, bytesRead := st.bytesRead) == st;
  }

  /** Draining early makes no difference to draining later. */
  lemma {:induction false} DrainEarly(cfg: Config, st: Receiver, more: bytes, n: nat)
    ensures var early := Drained(cfg, st);
            Drained(cfg, st.(buf := st.buf + more, bytesRead := n)) ==
            Drained(cfg, early.(buf := early.buf + more, bytesRead := n))
    decreases |st.buf|
  {
    hide Handled, Drained, ReadUint24;
    var late := st.(buf := st.buf + more, bytesRead := n);
    if MayTake(st) {
      var len := ReadUint24(st.buf);
      var rest, body := st.buf[3 + len..], st.buf[3..3 + len];
      SameLength(st.buf, more);
      assert late.buf[3 + len..] == rest + more && late.buf[3..3 + len] == body;
      Taken(cfg, st);
      Taken(cfg, late);
      BufIsIgnored(cfg, st.(buf := rest), body, rest + more, n);
      BufIsKept(cfg, st.(buf := rest), body);
      DrainEarly(cfg, Handled(cfg, st.(buf := rest), body), more, n);
    } else {
      NotTaken(cfg, st, more, n);
    }
  }

  /** A whole frame of a legal length is there. */
  predicate MayTake(st: Receiver) {
    !st.destroyed && |st.buf| >= 3 && ReadUint24(st.buf) != 0 && |st.buf| >= 3 + ReadUint24(st.buf)
  }

  lemma SameLength(b: bytes, more: bytes)
    requires |b| >= 3
    ensures ReadUint24(b + more) == ReadUint24(b)
  {
  }

  lemma Taken(cfg: Config, st: Receiver)
    requires MayTake(st)
    ensures var len := ReadUint24(st.buf);
            Drained(cfg, st) == Drained(cfg, Handled(cfg, st.(buf := st.buf[3 + len..]), st.buf[3..3 + len]))
  {
    hide Handled;
  }

  lemma NotTaken(cfg: Config, st: Receiver, more: bytes, n: nat)
    requires !MayTake(st)
    ensures var early := Drained(cfg, st);
            Drained(cfg, st.(buf := st.buf + more, bytesRead := n)) ==
            Drained(cfg, early.(buf := early.buf + more, bytesRead := n))
  {
    hide Handled;
    if |st.buf| >= 3 {
      SameLength(st.buf, more);
    }
  }

  /** The parser does not care how the bytes are cut. */
  lemma FeedConcat(cfg: Config, st: Receiver, a: bytes, b: bytes)
    ensures Feed(cfg, Feed(cfg, st, a), b) == Feed(cfg, st, a + b)
  {
    hide Drained;
    if a == [] {
      assert a + b == b;
    } else if b == [] {
      assert a + b == a;
    } else {
      var s := st.(bytesRead := st.bytesRead + |a|, buf := st.buf + a);
      var n := st.bytesRead + |a| + |b|;
      var early := Drained(cfg, s);
      DrainEarly(cfg, s, b, n);
      DrainKeepsCount(cfg, s);
      assert Feed(cfg, early, b) == Drained(cfg, early.(buf := early.buf + b, bytesRead := n));
      assert st.buf + (a + b) == s.buf + b;
      assert Feed(cfg, st, a + b) == Drained(cfg, s.(buf := s.buf + b, bytesRead := n));
    }
  }

  lemma {:induction false} DrainKeepsCount(cfg: Config, st: Receiver)
    ensures Drained(cfg, st).bytesRead == st.bytesRead
    decreases |st.buf|
  {
    hide Handled;
    var (s, more) := Extracted(cfg, st);
    if !st.destroyed && more {
      var len := ReadUint24(st.buf);
      var r := st.(buf := st.buf[3 + len..]);
      BufIsIgnored(cfg, r, st.buf[3..3 + len], r.buf, st.bytesRead);
      assert r.(buf := r.buf, bytesRead := st.bytesRead) == r;
      DrainKeepsCount(cfg, s);
    }
  }

  function FeedAll(cfg: Config, st: Receiver, chunks: seq<bytes>): Receiver {
    if chunks == [] then st else Feed(cfg, FeedAll(cfg, st, chunks[..|chunks| - 1]), chunks[|chunks| - 1])
  }

  function Joined(chunks: seq<bytes>): bytes {
    if chunks == [] then [] else Joined(chunks[..|chunks| - 1]) + chunks[|chunks| - 1]
  }

  /** Any number of chunks, empty ones included, amount to one pass over their concatenation: the same
      messages, the same failure, the same bytes left over. */
  lemma {:induction false} ChunkingIsIrrelevant(cfg: Config, st: Receiver, chunks: seq<bytes>)
    ensures FeedAll(cfg, st, chunks) == Feed(cfg, st, Joined(chunks))
  {
    if chunks != [] {
      var init := chunks[..|chunks| - 1];
      ChunkingIsIrrelevant(cfg, st, init);
      FeedConcat(cfg, st, Joined(init), chunks[|chunks| - 1]);
    }
  }

  // ------------------------------------------------------------------------------------------
  // What a whole stream delivers
  // ------------------------------------------------------------------------------------------

  /** The n-th message pushed under a header is opened as the n-th message pulled under it. */
  ghost predicate PushLaw(cfg: Config) {
    forall h: bytes, n: nat, m: bytes ::
      cfg.pull(h, n, cfg.push(h, n, m)) == Some(m) && |cfg.push(h, n, m)| == |m| + ABYTES
  }

  ghost predicate NeverStops(cfg: Config) {
    !cfg.stopOnConnect && forall n: nat :: !cfg.stopAfter(n)
  }

  /** The bodies of the frames that write() makes of a list of messages. */
  function Bodies(push: (bytes, nat, bytes) -> bytes, h: bytes, msgs: seq<bytes>): (r: seq<bytes>)
    ensures |r| == |msgs|
  {
    seq(|msgs|, i requires 0 <= i < |msgs| => push(h, i, msgs[i]))
  }

  /** The messages that reach the user: all of them, without the empty ones when keepalive is on. */
  function Visible(cfg: Config, msgs: seq<bytes>): seq<bytes> {
    if msgs == [] then []
    else
      var m := msgs[|msgs| - 1];
      Visible(cfg, msgs[..|msgs| - 1]) + (if m == [] && cfg.keepAlive then [] else [m])
  }

  /** How many frames lie wholly within the first n bytes. */
  function Complete(frames: seq<bytes>, n: nat): (c: nat)
    ensures c <= |frames|
  {
    if frames == [] || n < 3 + |frames[0]| then 0 else 1 + Complete(frames[1..], n - 3 - |frames[0]|)
  }

  lemma {:induction false} AllComplete(frames: seq<bytes>)
    ensures Complete(frames, |Wire(frames)|) == |frames|
  {
    if frames != [] {
      AllComplete(frames[1..]);
    }
  }

  /** The header has come, our own has not been acknowledged: messages wait. */
  ghost predicate Waiting(cfg: Config, st: Receiver, h: bytes, msgs: seq<bytes>, i: nat) {
    && i <= |msgs|
    && !st.headerSent && st.headerReceived && !st.connected && !st.destroyed && st.header == h && st.count == i
    && st.pending == Visible(cfg, msgs[..i]) && st.delivered == [] && st.connects == 0
  }

  ghost predicate Live(cfg: Config, st: Receiver, h: bytes, msgs: seq<bytes>, i: nat) {
    && i <= |msgs|
    && st.headerSent && st.headerReceived && st.connected && !st.destroyed && st.header == h && st.count == i
    && st.pending == [] && st.delivered == Visible(cfg, msgs[..i]) && st.connects == 1
  }

  /** Too many messages came before the acknowledgement. */
  ghost predicate Overflowed(st: Receiver) {
    st.destroyed && st.error == -7 && st.delivered == []
  }

  lemma FrameTaken(cfg: Config, st: Receiver, body: bytes, rest: bytes)
    requires !st.destroyed && FrameBody(body) && st.buf == Frame(body) + rest
    ensures Drained(cfg, st) == Drained(cfg, Handled(cfg, st.(buf := rest), body))
    ensures Handled(cfg, st.(buf := rest), body).buf == rest
  {
    hide Handled;
    Uint24RoundTrip(|body|, body + rest);
    assert st.buf == WriteUint24(|body|) + (body + rest);
    assert st.buf[3..3 + |body|] == body && st.buf[3 + |body|..] == rest;
    BufIsKept(cfg, st.(buf := rest), body);
  }

  lemma NoFrame(cfg: Config, st: Receiver, body: bytes, more: bytes)
    requires FrameBody(body) && |st.buf| < 3 + |body| && st.buf <= Frame(body) + more
    ensures Drained(cfg, st) == st
  {
    if |st.buf| >= 3 {
      Uint24RoundTrip(|body|, body + more);
      assert st.buf[..3] == (Frame(body) + more)[..3] == WriteUint24(|body|);
      assert ReadUint24(st.buf) == ReadUint24(st.buf[..3]);
      assert ReadUint24(WriteUint24(|body|) + (body + more)) == ReadUint24(WriteUint24(|body|));
    }
  }

  lemma VisibleStep(cfg: Config, msgs: seq<bytes>, i: nat)
    requires i < |msgs|
    ensures Visible(cfg, msgs[..i + 1]) ==
              Visible(cfg, msgs[..i]) + (if msgs[i] == [] && cfg.keepAlive then [] else [msgs[i]])
  {
    assert msgs[..i + 1][..i] == msgs[..i];
  }

  lemma {:induction false} VisibleGrows(cfg: Config, msgs: seq<bytes>, i: nat, j: nat)
    requires i <= j <= |msgs|
    ensures |Visible(cfg, msgs[..i])| <= |Visible(cfg, msgs[..j])|
    decreases j - i
  {
    if i < j {
      VisibleStep(cfg, msgs, i);
      VisibleGrows(cfg, msgs, i + 1, j);
    }
  }

  lemma WaitingStep(cfg: Config, st: Receiver, h: bytes, msgs: seq<bytes>, i: nat)
    requires PushLaw(cfg) && Waiting(cfg, st, h, msgs, i) && i < |msgs|
    ensures var s := Handled(cfg, st, cfg.push(h, i, msgs[i]));
            if |Visible(cfg, msgs[..i + 1])| <= MAX_PENDING then Waiting(cfg, s, h, msgs, i + 1)
            else Overflowed(s) || |Visible(cfg, msgs[..i])| > MAX_PENDING
  {
    hide Visible, Connected;
    VisibleStep(cfg, msgs, i);
    assert cfg.pull(h, i, cfg.push(h, i, msgs[i])) == Some(msgs[i]);
  }

  lemma LiveStep(cfg: Config, st: Receiver, h: bytes, msgs: seq<bytes>, i: nat)
    requires PushLaw(cfg) && NeverStops(cfg) && Live(cfg, st, h, msgs, i) && i < |msgs|
    ensures Live(cfg, Handled(cfg, st, cfg.push(h, i, msgs[i])), h, msgs, i + 1)
  {
    hide Visible, Connected;
    VisibleStep(cfg, msgs, i);
    assert cfg.pull(h, i, cfg.push(h, i, msgs[i])) == Some(msgs[i]);
  }

  ghost predicate Writable(msgs: seq<bytes>) {
    forall i :: 0 <= i < |msgs| ==> |msgs[i]| <= MAX_ATOMIC_WRITE
  }

  lemma BodyFits(cfg: Config, h: bytes, msgs: seq<bytes>, i: nat)
    requires PushLaw(cfg) && Writable(msgs) && i < |msgs|
    ensures FrameBody(Bodies(cfg.push, h, msgs)[i]) && Bodies(cfg.push, h, msgs)[i] == cfg.push(h, i, msgs[i])
    ensures Wire(Bodies(cfg.push, h, msgs)[i..]) ==
              Frame(cfg.push(h, i, msgs[i])) + Wire(Bodies(cfg.push, h, msgs)[i + 1..])
  {
    var b := Bodies(cfg.push, h, msgs);
    assert |cfg.push(h, i, msgs[i])| == |msgs[i]| + ABYTES;
    assert b[i..][1..] == b[i + 1..];
  }

  /** A connected receiver delivers what has come completely; `rest` is what has not come yet. */
  lemma {:induction false} LiveRun(cfg: Config, st: Receiver, h: bytes, msgs: seq<bytes>, i: nat, rest: bytes)
    requires PushLaw(cfg) && NeverStops(cfg) && Writable(msgs) && Live(cfg, st, h, msgs, i)
    requires st.buf + rest == Wire(Bodies(cfg.push, h, msgs)[i..])
    ensures var c := Complete(Bodies(cfg.push, h, msgs)[i..], |st.buf|);
            var s := Drained(cfg, st);
            Live(cfg, s, h, msgs, i + c) && s.buf + rest == Wire(Bodies(cfg.push, h, msgs)[i + c..])
    decreases |msgs| - i
  {
    hide Handled, Live, PushLaw, NeverStops, Writable, Drained, Visible, Frame, Complete;
    LiveIs(cfg, st, h, msgs, i);
    var b := Bodies(cfg.push, h, msgs);
    CompleteStep(b[i..], |st.buf|);
    if i == |msgs| {
      EmptyIsDrained(cfg, st);
    } else {
      BodyFits(cfg, h, msgs, i);
      if |st.buf| < 3 + |b[i]| {
        NoFrame(cfg, st, b[i], Wire(b[i + 1..]));
      } else {
        var left := st.buf[3 + |b[i]|..];
        CutHeader(st.buf, rest, Frame(b[i]), Wire(b[i + 1..]));
        FrameTaken(cfg, st, b[i], left);
        LiveIgnoresBuf(cfg, st, st.(buf := left), h, msgs, i);
        LiveStep(cfg, st.(buf := left), h, msgs, i);
        assert b[i..][1..] == b[i + 1..];
        LiveRun(cfg, Handled(cfg, st.(buf := left), b[i]), h, msgs, i + 1, rest);
      }
    }
  }

  lemma LiveIs(cfg: Config, st: Receiver, h: bytes, msgs: seq<bytes>, i: nat)
    requires Live(cfg, st, h, msgs, i)
    ensures !st.destroyed && i <= |msgs|
  {
  }

  lemma LiveIgnoresBuf(cfg: Config, st: Receiver, s: Receiver, h: bytes, msgs: seq<bytes>, i: nat)
    requires Live(cfg, st, h, msgs, i) && s == st.(buf := s.buf, bytesRead := s.bytesRead)
    ensures Live(cfg, s, h, msgs, i)
  {
  }

  lemma EmptyIsDrained(cfg: Config, st: Receiver)
    requires st.buf == []
    ensures Drained(cfg, st) == st
  {
  }

  lemma {:induction false} WaitingRun(cfg: Config, st: Receiver, h: bytes, msgs: seq<bytes>, i: nat, rest: bytes)
    requires PushLaw(cfg) && Writable(msgs) && Waiting(cfg, st, h, msgs, i)
    requires st.buf + rest == Wire(Bodies(cfg.push, h, msgs)[i..])
    ensures var c := Complete(Bodies(cfg.push, h, msgs)[i..], |st.buf|);
            var s := Drained(cfg, st);
            if |Visible(cfg, msgs[..i + c])| <= MAX_PENDING then
              Waiting(cfg, s, h, msgs, i + c) && s.buf + rest == Wire(Bodies(cfg.push, h, msgs)[i + c..])
            else |Visible(cfg, msgs[..i])| > MAX_PENDING || Overflowed(s)
    decreases |msgs| - i
  {
    hide Handled, PushLaw, Writable, Drained, Visible, Frame, Complete, Overflowed;
    var b := Bodies(cfg.push, h, msgs);
    CompleteStep(b[i..], |st.buf|);
    if i == |msgs| {
      EmptyIsDrained(cfg, st);
    } else {
      BodyFits(cfg, h, msgs, i);
      if |st.buf| < 3 + |b[i]| {
        NoFrame(cfg, st, b[i], Wire(b[i + 1..]));
      } else {
        var left := st.buf[3 + |b[i]|..];
        CutHeader(st.buf, rest, Frame(b[i]), Wire(b[i + 1..]));
        FrameTaken(cfg, st, b[i], left);
        var s := Handled(cfg, st.(buf := left), b[i]);
        WaitingStep(cfg, st.(buf := left), h, msgs, i);
        assert b[i..][1..] == b[i + 1..];
        var c := Complete(b[i + 1..], |left|);
        VisibleGrows(cfg, msgs, i + 1, i + 1 + c);
        if |Visible(cfg, msgs[..i + 1])| <= MAX_PENDING {
          WaitingRun(cfg, s, h, msgs, i + 1, rest);
        } else if Overflowed(s) {
          OverflowedIs(s);
          DestroyedStays(cfg, s);
        }
      }
    }
  }

  lemma OverflowedIs(st: Receiver)
    requires Overflowed(st)
    ensures st.destroyed
  {
  }

  lemma DestroyedStays(cfg: Config, st: Receiver)
    requires st.destroyed
    ensures Drained(cfg, st) == st
  {
  }

  /** What the peer sends: the header message, then a frame per write. */
  function Whole(id: bytes, push: (bytes, nat, bytes) -> bytes, h: bytes, msgs: seq<bytes>): bytes {
    Frame(id + h) + Wire(Bodies(push, h, msgs))
  }

  ghost predicate HeaderFits(cfg: Config, h: bytes) {
    |cfg.remoteId| == STREAM_ID_LEN && |h| == HEADERBYTES && cfg.initPull(h)
  }

  lemma {:induction false} ReplayDelivers(cfg: Config, st: Receiver, ms: seq<bytes>)
    requires NeverStops(cfg) && !st.destroyed
    ensures Replayed(cfg, st, ms) == st.(delivered := st.delivered + ms)
    decreases ms
  {
    if ms == [] {
      assert st.delivered + ms == st.delivered;
    } else {
      ReplayDelivers(cfg, Delivered(cfg, st, ms[0]), ms[1..]);
      assert st.delivered + [ms[0]] + ms[1..] == st.delivered + ms;
    }
  }

  /** The acknowledgement hands over what waited. */
  lemma AckDelivers(cfg: Config, st: Receiver, h: bytes, msgs: seq<bytes>, i: nat)
    requires NeverStops(cfg) && Waiting(cfg, st, h, msgs, i)
    ensures Live(cfg, Acked(cfg, st), h, msgs, i) && Acked(cfg, st).buf == st.buf
  {
    hide Visible;
    var s := st.(headerSent := true, connected := true, connects := 1, pending := []);
    ReplayDelivers(cfg, s, st.pending);
    assert [] + st.pending == st.pending;
  }

  /** A header that is acknowledged after destroy() makes on_connect fire exactly if the stream was not
      connected and the peer's header has come. The stream stays destroyed and delivers nothing. */
  lemma AckAfterDestroyExactly(cfg: Config, st: Receiver)
    requires st.destroyed
    ensures Acked(cfg, st).connects > st.connects <==> !st.connected && st.headerReceived
    ensures st.connects <= Acked(cfg, st).connects <= st.connects + 1
    ensures Acked(cfg, st).destroyed && Acked(cfg, st).error == st.error && Acked(cfg, st).delivered == st.delivered
  {
  }

  lemma AckAfterOverflow(cfg: Config, st: Receiver, data: bytes)
    requires Overflowed(st)
    ensures Overflowed(Feed(cfg, Acked(cfg, st), data))
  {
  }

  lemma HeaderTaken(cfg: Config, st: Receiver, h: bytes, msgs: seq<bytes>, rest: bytes)
    requires HeaderFits(cfg, h) && NeverStops(cfg) &&
              st == IDLE.(buf := st.buf, bytesRead := st.bytesRead, headerSent := st.headerSent)
    requires st.buf == Frame(cfg.remoteId + h) + rest
    ensures var s := Handled(cfg, st.(buf := rest), cfg.remoteId + h);
            && Drained(cfg, st) == Drained(cfg, s) && s.buf == rest
            && (if st.headerSent then Live(cfg, s, h, msgs, 0) else Waiting(cfg, s, h, msgs, 0))
  {
    FrameTaken(cfg, st, cfg.remoteId + h, rest);
    assert (cfg.remoteId + h)[..STREAM_ID_LEN] == cfg.remoteId && (cfg.remoteId + h)[STREAM_ID_LEN..] == h;
    assert Visible(cfg, msgs[..0]) == [];
  }

  const HEADER_FRAME: nat := 3 + ID_HEADER_BYTES

  /** The acknowledgement comes before the peer's header is complete. */
  lemma HeaderNotYet(cfg: Config, h: bytes, msgs: seq<bytes>, x: bytes, y: bytes, z: bytes)
    requires HeaderFits(cfg, h) && PushLaw(cfg) && NeverStops(cfg) && Writable(msgs)
    requires x + y + z == Whole(cfg.remoteId, cfg.push, h, msgs) && |x| < HEADER_FRAME <= |x + y|
    ensures Arrives(cfg, Feed(cfg, Acked(cfg, Feed(cfg, IDLE, x)), y), h, msgs, |x + y| - HEADER_FRAME, z)
  {
    hide Handled, Live, Wire, Drained, NeverStops, PushLaw, Writable;
    var b := Bodies(cfg.push, h, msgs);
    Unread(cfg, x, y + z, h, msgs);
    var ready := IDLE.(headerSent := true, buf := x + y, bytesRead := |x| + |y|);
    assert Feed(cfg, Acked(cfg, Feed(cfg, IDLE, x)), y) == Drained(cfg, ready);
    var rest := (x + y)[HEADER_FRAME..];
    CutHeader(x + y, z, Frame(cfg.remoteId + h), Wire(b));
    HeaderTaken(cfg, ready, h, msgs, rest);
    assert b[0..] == b;
    LiveRun(cfg, Handled(cfg, ready.(buf := rest), cfg.remoteId + h), h, msgs, 0, z);
  }

  /** Less than the header frame has come: nothing happens. */
  lemma Unread(cfg: Config, x: bytes, y: bytes, h: bytes, msgs: seq<bytes>)
    requires HeaderFits(cfg, h) && x + y == Whole(cfg.remoteId, cfg.push, h, msgs) && |x| < HEADER_FRAME
    ensures Feed(cfg, IDLE, x) == IDLE.(buf := x, bytesRead := |x|)
    ensures Drained(cfg, IDLE.(buf := x, bytesRead := |x|, headerSent := true)) ==
              IDLE.(buf := x, bytesRead := |x|, headerSent := true)
  {
    hide Handled, Wire, Drained;
    var w := Wire(Bodies(cfg.push, h, msgs));
    var st := IDLE.(buf := x, bytesRead := |x|);
    assert x == (x + y)[..|x|];
    NoFrame(cfg, st, cfg.remoteId + h, w);
    NoFrame(cfg, st.(headerSent := true), cfg.remoteId + h, w);
    assert [] + x == x && Feed(cfg, IDLE, x) == st;
  }

  /** With n bytes behind the header, exactly the visible ones of the complete messages are delivered. */
  ghost predicate Arrives(cfg: Config, r: Receiver, h: bytes, msgs: seq<bytes>, n: nat, rest: bytes) {
    var b := Bodies(cfg.push, h, msgs);
    var got := Complete(b, n);
    Live(cfg, r, h, msgs, got) && r.buf + rest == Wire(b[got..])
  }

  lemma AckThenRest(cfg: Config, w: Receiver, h: bytes, msgs: seq<bytes>, early: nat, y: bytes, z: bytes)
    requires PushLaw(cfg) && NeverStops(cfg) && Writable(msgs) && Waiting(cfg, w, h, msgs, early)
    requires w.buf + y + z == Wire(Bodies(cfg.push, h, msgs)[early..])
    requires y == [] ==> Complete(Bodies(cfg.push, h, msgs)[early..], |w.buf|) == 0
    ensures var b := Bodies(cfg.push, h, msgs);
            var c := Complete(b[early..], |w.buf + y|);
            var r := Feed(cfg, Acked(cfg, w), y);
            Live(cfg, r, h, msgs, early + c) && r.buf + z == Wire(b[early + c..])
  {
    hide Live, Drained, NeverStops, PushLaw, Writable, Acked, Bodies, Waiting, Complete;
    AckDelivers(cfg, w, h, msgs, early);
    var a := Acked(cfg, w);
    if y == [] {
      assert w.buf + y == w.buf;
    } else {
      var ready := a.(bytesRead := a.bytesRead + |y|, buf := a.buf + y);
      WaitingIsBounded(cfg, w, h, msgs, early);
      LiveIgnoresBuf(cfg, a, ready, h, msgs, early);
      LiveRun(cfg, ready, h, msgs, early, z);
    }
  }

  /** What is complete after early frames were taken off. */
  lemma {:induction false} CompleteSplits(frames: seq<bytes>, n: nat, m: nat)
    requires n <= m
    ensures var e := Complete(frames, n);
            && |Wire(frames[..e])| <= n
            && Complete(frames, m) == e + Complete(frames[e..], m - |Wire(frames[..e])|)
            && Complete(frames[e..], n - |Wire(frames[..e])|) == 0
    decreases |frames|
  {
    hide Wire, Frame, Complete;
    CompleteStep(frames, n);
    CompleteStep(frames, m);
    if frames == [] || n < 3 + |frames[0]| {
      assert frames[..0] == [] && frames[0..] == frames;
      WireSize(frames[..0]);
    } else {
      var size, tail := 3 + |frames[0]|, frames[1..];
      CompleteSplits(tail, n - size, m - size);
      var e := Complete(tail, n - size);
      var front, back, w := frames[..e + 1], frames[e + 1..], |Wire(tail[..e])|;
      assert front[0] == frames[0] && front[1..] == tail[..e] && back == tail[e..];
      WireSize(front);
      assert |Wire(front)| == size + w;
      assert m - |Wire(front)| == m - size - w && n - |Wire(front)| == n - size - w;
    }
  }

  lemma CompleteStep(frames: seq<bytes>, n: nat)
    ensures Complete(frames, n) ==
            if frames == [] || n < 3 + |frames[0]| then 0 else 1 + Complete(frames[1..], n - 3 - |frames[0]|)
  {
  }

  lemma WireSize(frames: seq<bytes>)
    ensures |Wire(frames)| == if frames == [] then 0 else 3 + |frames[0]| + |Wire(frames[1..])|
  {
  }

  lemma {:induction false} WireSplits(frames: seq<bytes>, e: nat)
    requires e <= |frames|
    ensures Wire(frames) == Wire(frames[..e]) + Wire(frames[e..])
  {
    hide Frame;
    if e == 0 {
      assert frames[0..] == frames;
    } else {
      WireSplits(frames[1..], e - 1);
      assert frames[..e][0] == frames[0] && frames[..e][1..] == frames[1..][..e - 1] &&
             frames[e..] == frames[1..][e - 1..];
    }
  }

  lemma WaitingIsBounded(cfg: Config, w: Receiver, h: bytes, msgs: seq<bytes>, i: nat)
    requires Waiting(cfg, w, h, msgs, i)
    ensures i <= |msgs|
  {
  }

  lemma HeaderThere(cfg: Config, h: bytes, msgs: seq<bytes>, x: bytes, y: bytes, z: bytes, early: nat)
    requires HeaderFits(cfg, h) && PushLaw(cfg) && NeverStops(cfg) && Writable(msgs)
    requires x + y + z == Whole(cfg.remoteId, cfg.push, h, msgs) && |x| >= HEADER_FRAME
    requires early == Complete(Bodies(cfg.push, h, msgs), |x| - HEADER_FRAME)
    ensures var r := Feed(cfg, Acked(cfg, Feed(cfg, IDLE, x)), y);
            if |Visible(cfg, msgs[..early])| <= MAX_PENDING then Arrives(cfg, r, h, msgs, |x + y| - HEADER_FRAME, z)
               else Overflowed(r)
  {
    hide Handled, Live, Drained, NeverStops, PushLaw, Writable, Acked, Wire, Bodies, Visible, Complete, Overflowed,
         Waiting, Frame;
    var b := Bodies(cfg.push, h, msgs);
    var st := IDLE.(buf := x, bytesRead := |x|);
    var rest := x[HEADER_FRAME..];
    assert x + (y + z) == x + y + z;
    CutHeader(x, y + z, Frame(cfg.remoteId + h), Wire(b));
    assert [] + x == x && Feed(cfg, IDLE, x) == Drained(cfg, st);
    HeaderTaken(cfg, st, h, msgs, rest);
    var s := Handled(cfg, st.(buf := rest), cfg.remoteId + h);
    assert b[0..] == b && msgs[..0] == [];
    WaitingRun(cfg, s, h, msgs, 0, y + z);
    var w := Drained(cfg, s);
    NothingVisible(cfg);
    if |Visible(cfg, msgs[..early])| <= MAX_PENDING {
      assert (rest + y) + z == rest + (y + z) && (w.buf + y) + z == w.buf + (y + z);
      CompleteSplits(b, |rest|, |rest + y|);
      WireSplits(b, early);
      assert |w.buf| == |rest| - |Wire(b[..early])|;
      AckThenRest(cfg, w, h, msgs, early, y, z);
    } else {
      AckAfterOverflow(cfg, w, y);
    }
  }

  lemma CutHeader(x: bytes, y: bytes, f: bytes, w: bytes)
    requires x + y == f + w && |x| >= |f|
    ensures x == f + x[|f|..] && x[|f|..] + y == w
  {
    assert x == (x + y)[..|x|];
    assert (x + y)[|f|..] == x[|f|..] + y && (f + w)[|f|..] == w;
    assert x[..|f|] == (f + w)[..|f|] == f;
  }

  /** Any front of a peer's stream, cut into any chunks, with the acknowledgement of our own header at any
      point between them: it is never rejected for its lengths, and exactly the visible ones of the
      messages that have come completely are delivered, once and in order; unless more than 64 of them
      were complete before the acknowledgement: then the stream is destroyed with code -7 and nothing is
      delivered. Before the peer's header has come nothing happens. */
  lemma DeliversWhatHasCome(cfg: Config, h: bytes, msgs: seq<bytes>, before: seq<bytes>, after: seq<bytes>, left: bytes)
    requires HeaderFits(cfg, h) && PushLaw(cfg) && NeverStops(cfg) && Writable(msgs)
    requires Joined(before) + Joined(after) + left == Whole(cfg.remoteId, cfg.push, h, msgs)
    ensures var r := FeedAll(cfg, Acked(cfg, FeedAll(cfg, IDLE, before)), after);
            var b, n, m := Bodies(cfg.push, h, msgs), |Joined(before)|, |Joined(before) + Joined(after)|;
            var early := if n < 59 then 0 else Complete(b, n - 59);
            if m < 59 then !r.destroyed && !r.connected && r.delivered == []
            else if |Visible(cfg, msgs[..early])| > 64 then r.destroyed && r.error == -7 && r.delivered == []
            else
              var got := Complete(b, m - 59);
              && !r.destroyed && r.connected && r.connects == 1
              && r.delivered == Visible(cfg, msgs[..got]) && r.buf + left == Wire(b[got..])
  {
    var x, y := Joined(before), Joined(after);
    ChunkingIsIrrelevant(cfg, IDLE, before);
    ChunkingIsIrrelevant(cfg, Acked(cfg, Feed(cfg, IDLE, x)), after);
    hide Feed, FeedAll, Acked, Whole, Visible, Joined, PushLaw, NeverStops, Writable;
    if |x + y| < HEADER_FRAME {
      NoHeader(cfg, h, msgs, x, y, left);
    } else {
      if |x| < HEADER_FRAME {
        assert Visible(cfg, msgs[..0]) == [] by { NothingVisible(cfg); assert msgs[..0] == []; }
        HeaderNotYet(cfg, h, msgs, x, y, left);
      } else {
        HeaderThere(cfg, h, msgs, x, y, left, Complete(Bodies(cfg.push, h, msgs), |x| - HEADER_FRAME));
      }
    }
  }

  lemma NoHeader(cfg: Config, h: bytes, msgs: seq<bytes>, x: bytes, y: bytes, left: bytes)
    requires HeaderFits(cfg, h) && x + y + left == Whole(cfg.remoteId, cfg.push, h, msgs) && |x + y| < HEADER_FRAME
    ensures var r := Feed(cfg, Acked(cfg, Feed(cfg, IDLE, x)), y); !r.destroyed && !r.connected && r.delivered == []
  {
    hide Drained, Whole;
    assert x + y + left == x + (y + left);
    Unread(cfg, x, y + left, h, msgs);
    Unread(cfg, x + y, left, h, msgs);
    if y == [] {
      assert x + y == x;
    }
  }

  /** In particular a whole stream delivers everything visible. */
  lemma DeliversOnceInOrder(cfg: Config, h: bytes, msgs: seq<bytes>, before: seq<bytes>, after: seq<bytes>)
    requires HeaderFits(cfg, h) && PushLaw(cfg) && NeverStops(cfg) && Writable(msgs)
    requires Joined(before) + Joined(after) == Whole(cfg.remoteId, cfg.push, h, msgs)
    ensures var r := FeedAll(cfg, Acked(cfg, FeedAll(cfg, IDLE, before)), after);
            var n := |Joined(before)|;
            var early := if n < 59 then 0 else Complete(Bodies(cfg.push, h, msgs), n - 59);
            if |Visible(cfg, msgs[..early])| <= 64 then
              !r.destroyed && r.connected && r.connects == 1 && r.delivered == Visible(cfg, msgs) && r.buf == []
            else r.destroyed && r.error == -7 && r.delivered == []
  {
    hide FeedAll, Acked, Visible, Joined, PushLaw, NeverStops, Writable;
    var b, all := Bodies(cfg.push, h, msgs), Joined(before) + Joined(after);
    assert all + [] == all;
    DeliversWhatHasCome(cfg, h, msgs, before, after, []);
    AllComplete(b);
    assert |all| - HEADER_FRAME == |Wire(b)| && msgs[..|msgs|] == msgs && b[|b|..] == [];
  }

  lemma NothingVisible(cfg: Config)
    ensures Visible(cfg, []) == []
  {
  }

  // ------------------------------------------------------------------------------------------
  // Callbacks that destroy the stream
  // ------------------------------------------------------------------------------------------

  /** What has been delivered and what waits are the visible ones of the messages taken so far; once the
      stream is destroyed, what was delivered is a front of what is visible. */
  ghost predicate Safe(cfg: Config, st: Receiver, h: bytes, msgs: seq<bytes>, i: nat, rest: bytes) {
    if st.destroyed then st.delivered <= Visible(cfg, msgs)
    else
      && i <= |msgs| && st.headerReceived && st.header == h && st.count == i
      && (st.connected <==> st.headerSent) && (st.connected ==> st.pending == [])
      && st.delivered + st.pending == Visible(cfg, msgs[..i])
      && st.buf + rest == Wire(Bodies(cfg.push, h, msgs)[i..])
  }

  /** Safe after the peer's header has come, untouched before. */
  ghost predicate OnTrack(cfg: Config, st: Receiver, h: bytes, msgs: seq<bytes>, rest: bytes) {
    if st == IDLE.(buf := st.buf, bytesRead := st.bytesRead, headerSent := st.headerSent) then
      |st.buf| < HEADER_FRAME && st.buf + rest == Whole(cfg.remoteId, cfg.push, h, msgs)
    else exists i: nat :: Safe(cfg, st, h, msgs, i, rest)
  }

  lemma {:induction false} VisiblePrefix(cfg: Config, msgs: seq<bytes>, i: nat)
    requires i <= |msgs|
    ensures Visible(cfg, msgs[..i]) <= Visible(cfg, msgs)
    decreases |msgs| - i
  {
    if i < |msgs| {
      VisibleStep(cfg, msgs, i);
      VisiblePrefix(cfg, msgs, i + 1);
    } else {
      assert msgs[..i] == msgs;
    }
  }

  lemma {:induction false} ReplayIsAFront(cfg: Config, st: Receiver, ms: seq<bytes>)
    ensures var r := Replayed(cfg, st, ms);
            && st.delivered <= r.delivered <= st.delivered + ms
            && (!r.destroyed ==> r == st.(delivered := st.delivered + ms))
    decreases ms
  {
    if ms != [] && !st.destroyed {
      ReplayIsAFront(cfg, Delivered(cfg, st, ms[0]), ms[1..]);
      assert st.delivered + [ms[0]] + ms[1..] == st.delivered + ms;
    } else {
      assert st.delivered + [] == st.delivered;
    }
  }

  /** Becoming connected hands over what waits, up to where a callback destroys the stream. */
  lemma ConnectIsSafe(cfg: Config, st: Receiver, h: bytes, msgs: seq<bytes>, i: nat, rest: bytes)
    requires i <= |msgs| && !st.destroyed && !st.connected && st.headerReceived && st.header == h && st.count == i
    requires st.delivered + st.pending == Visible(cfg, msgs[..i]) &&
              st.buf + rest == Wire(Bodies(cfg.push, h, msgs)[i..])
    ensures Safe(cfg, Connected(cfg, st), h, msgs, i, rest)
  {
    hide Visible, Wire, Bodies;
    VisiblePrefix(cfg, msgs, i);
    if st.headerSent {
      var s := st.(connected := true, connects := st.connects + 1);
      var t := (if cfg.stopOnConnect then Destroyed(s, 0) else s).(pending := []);
      ReplayIsAFront(cfg, t, st.pending);
      assert t.delivered + st.pending + [] == t.delivered + st.pending;
    }
  }

  lemma FrameIsSafe(cfg: Config, st: Receiver, h: bytes, msgs: seq<bytes>, i: nat, rest: bytes)
    requires PushLaw(cfg) && i < |msgs| && !st.destroyed && st.headerReceived && st.header == h && st.count == i
    requires (st.connected <==> st.headerSent) && (st.connected ==> st.pending == [])
    requires st.delivered + st.pending == Visible(cfg, msgs[..i]) &&
              st.buf + rest == Wire(Bodies(cfg.push, h, msgs)[i + 1..])
    ensures Safe(cfg, Handled(cfg, st, cfg.push(h, i, msgs[i])), h, msgs, i + 1, rest)
  {
    hide Visible, Wire, Bodies, Connected;
    VisibleStep(cfg, msgs, i);
    VisiblePrefix(cfg, msgs, i + 1);
    var m, body := msgs[i], cfg.push(h, i, msgs[i]);
    assert cfg.pull(h, i, body) == Some(m);
    assert st.delivered + (st.pending + [m]) == st.delivered + st.pending + [m];
    assert st.connected ==> st.delivered + [m] + [] == st.delivered + [m];
    assert st.delivered + st.pending + [] == st.delivered + st.pending;
    assert st.delivered <= st.delivered + (st.pending + [m]);
  }

  lemma {:induction false} DrainIsSafe(cfg: Config, st: Receiver, h: bytes, msgs: seq<bytes>, i: nat,
                                       rest: bytes) returns (j: nat)
    requires PushLaw(cfg) && Writable(msgs) && Safe(cfg, st, h, msgs, i, rest)
    ensures Safe(cfg, Drained(cfg, st), h, msgs, j, rest)
    decreases |msgs| - i
  {
    hide Handled, PushLaw, Writable, Drained, Visible, Frame;
    var b := Bodies(cfg.push, h, msgs);
    j := i;
    if st.destroyed {
      DestroyedStays(cfg, st);
    } else if i == |msgs| {
      EmptyIsDrained(cfg, st);
    } else {
      BodyFits(cfg, h, msgs, i);
      if |st.buf| < 3 + |b[i]| {
        NoFrame(cfg, st, b[i], Wire(b[i + 1..]));
      } else {
        var left := st.buf[3 + |b[i]|..];
        CutHeader(st.buf, rest, Frame(b[i]), Wire(b[i + 1..]));
        FrameTaken(cfg, st, b[i], left);
        FrameIsSafe(cfg, st.(buf := left), h, msgs, i, rest);
        j := DrainIsSafe(cfg, Handled(cfg, st.(buf := left), b[i]), h, msgs, i + 1, rest);
      }
    }
  }

  lemma AckIsSafe(cfg: Config, st: Receiver, h: bytes, msgs: seq<bytes>, rest: bytes)
    requires OnTrack(cfg, st, h, msgs, rest)
    ensures OnTrack(cfg, Acked(cfg, st), h, msgs, rest)
  {
    hide Whole, Wire, Bodies, Visible, Replayed;
    if st != IDLE.(buf := st.buf, bytesRead := st.bytesRead, headerSent := st.headerSent) {
      var i: nat :| Safe(cfg, st, h, msgs, i, rest);
      if st.destroyed {
        AckOfDestroyed(cfg, st);
      } else if !st.connected {
        ConnectIsSafe(cfg, st.(headerSent := true), h, msgs, i, rest);
      }
      assert Safe(cfg, Acked(cfg, st), h, msgs, i, rest);
      KeepsHeader(cfg, st);
    }
  }

  lemma KeepsHeader(cfg: Config, st: Receiver)
    ensures var r := Acked(cfg, st); r.headerReceived == st.headerReceived && (st.destroyed ==> r.destroyed)
  {
    var s := st.(headerSent := true, connected := true, connects := st.connects + 1);
    ReplayKeepsHeader(cfg, (if cfg.stopOnConnect then Destroyed(s, 0) else s).(pending := []), st.pending);
  }

  lemma {:induction false} ReplayKeepsHeader(cfg: Config, st: Receiver, ms: seq<bytes>)
    ensures var r := Replayed(cfg, st, ms); r.headerReceived == st.headerReceived && (st.destroyed ==> r == st)
    decreases ms
  {
    if ms != [] && !st.destroyed {
      ReplayKeepsHeader(cfg, Delivered(cfg, st, ms[0]), ms[1..]);
    }
  }

  lemma AckOfDestroyed(cfg: Config, st: Receiver)
    requires st.destroyed
    ensures Acked(cfg, st).destroyed && Acked(cfg, st).delivered == st.delivered
  {
    var s := st.(headerSent := true, connected := true, connects := st.connects + 1, pending := []);
    ReplayKeepsHeader(cfg, s, st.pending);
  }

  lemma SafeIsOnTrack(cfg: Config, st: Receiver, h: bytes, msgs: seq<bytes>, i: nat, rest: bytes)
    requires Safe(cfg, st, h, msgs, i, rest)
    ensures OnTrack(cfg, st, h, msgs, rest)
  {
    hide Visible, Wire, Bodies;
  }

  lemma FeedIsSafe(cfg: Config, st: Receiver, h: bytes, msgs: seq<bytes>, data: bytes, rest: bytes)
    requires HeaderFits(cfg, h) && PushLaw(cfg) && Writable(msgs) && OnTrack(cfg, st, h, msgs, data + rest)
    ensures OnTrack(cfg, Feed(cfg, st, data), h, msgs, rest)
  {
    hide PushLaw, Writable, Visible, Wire, Bodies, Connected, Drained, Frame;
    var s := st.(bytesRead := st.bytesRead + |data|, buf := st.buf + data);
    assert st.buf + (data + rest) == s.buf + rest;
    if data == [] {
      assert [] + rest == rest;
    } else if st == IDLE.(buf := st.buf, bytesRead := st.bytesRead, headerSent := st.headerSent) {
      if |s.buf| < HEADER_FRAME {
        StillNoHeader(cfg, s, h, msgs, rest);
      } else {
        HeaderIsSafe(cfg, s, h, msgs, rest);
      }
    } else {
      var i: nat :| Safe(cfg, st, h, msgs, i, data + rest);
      var j := DrainIsSafe(cfg, s, h, msgs, i, rest);
      SafeIsOnTrack(cfg, Drained(cfg, s), h, msgs, j, rest);
    }
  }

  lemma StillNoHeader(cfg: Config, s: Receiver, h: bytes, msgs: seq<bytes>, rest: bytes)
    requires HeaderFits(cfg, h) && s == IDLE.(buf := s.buf, bytesRead := s.bytesRead, headerSent := s.headerSent)
    requires |s.buf| < HEADER_FRAME && s.buf + rest == Whole(cfg.remoteId, cfg.push, h, msgs)
    ensures Drained(cfg, s) == s
  {
    hide Wire;
    assert s.buf == (s.buf + rest)[..|s.buf|];
    NoFrame(cfg, s, cfg.remoteId + h, Wire(Bodies(cfg.push, h, msgs)));
  }

  lemma HeaderIsSafe(cfg: Config, s: Receiver, h: bytes, msgs: seq<bytes>, rest: bytes)
    requires HeaderFits(cfg, h) && PushLaw(cfg) && Writable(msgs)
    requires s == IDLE.(buf := s.buf, bytesRead := s.bytesRead, headerSent := s.headerSent)
    requires |s.buf| >= HEADER_FRAME && s.buf + rest == Whole(cfg.remoteId, cfg.push, h, msgs)
    ensures OnTrack(cfg, Drained(cfg, s), h, msgs, rest)
  {
    hide PushLaw, Writable, Wire, Connected, Drained, Frame;
    var b, body := Bodies(cfg.push, h, msgs), cfg.remoteId + h;
    var left := s.buf[HEADER_FRAME..];
    CutHeader(s.buf, rest, Frame(body), Wire(b));
    FrameTaken(cfg, s, body, left);
    assert body[..STREAM_ID_LEN] == cfg.remoteId && body[STREAM_ID_LEN..] == h;
    var t := s.(buf := left, headerReceived := true, header := h, count := 0);
    assert msgs[..0] == [] && b[0..] == b;
    NothingVisible(cfg);
    ConnectIsSafe(cfg, t, h, msgs, 0, rest);
    var j := DrainIsSafe(cfg, Connected(cfg, t), h, msgs, 0, rest);
    SafeIsOnTrack(cfg, Drained(cfg, Connected(cfg, t)), h, msgs, j, rest);
  }

  /** Whatever the callbacks do, what is delivered from any front of a peer's stream is a front of what is
      visible: nothing twice, nothing out of order, nothing that was not sent. */
  lemma DeliversAFront(cfg: Config, h: bytes, msgs: seq<bytes>, before: seq<bytes>, after: seq<bytes>, left: bytes)
    requires HeaderFits(cfg, h) && PushLaw(cfg) && Writable(msgs)
    requires Joined(before) + Joined(after) + left == Whole(cfg.remoteId, cfg.push, h, msgs)
    ensures FeedAll(cfg, Acked(cfg, FeedAll(cfg, IDLE, before)), after).delivered <= Visible(cfg, msgs)
  {
    hide PushLaw, Writable, Visible, Feed, Acked, Joined, FeedAll, Whole;
    var x, y := Joined(before), Joined(after);
    ChunkingIsIrrelevant(cfg, IDLE, before);
    ChunkingIsIrrelevant(cfg, Acked(cfg, Feed(cfg, IDLE, x)), after);
    assert x + y + left == x + (y + left) == IDLE.buf + (x + (y + left));
    assert OnTrack(cfg, IDLE, h, msgs, x + (y + left));
    FeedIsSafe(cfg, IDLE, h, msgs, x, y + left);
    AckIsSafe(cfg, Feed(cfg, IDLE, x), h, msgs, y + left);
    FeedIsSafe(cfg, Acked(cfg, Feed(cfg, IDLE, x)), h, msgs, y, left);
    TrackIsAFront(cfg, Feed(cfg, Acked(cfg, Feed(cfg, IDLE, x)), y), h, msgs, left);
  }

  lemma TrackIsAFront(cfg: Config, st: Receiver, h: bytes, msgs: seq<bytes>, rest: bytes)
    requires OnTrack(cfg, st, h, msgs, rest)
    ensures st.delivered <= Visible(cfg, msgs)
  {
    hide Visible, Wire, Bodies, Whole;
    if st != IDLE.(buf := st.buf, bytesRead := st.bytesRead, headerSent := st.headerSent) {
      var i: nat :| Safe(cfg, st, h, msgs, i, rest);
      if !st.destroyed {
        VisiblePrefix(cfg, msgs, i);
      }
    }
  }

  /** A length prefix can never exceed the limit, so the oversized-frame branch never runs. */
  lemma NoFrameIsOversized(cfg: Config, st: Receiver)
    requires |st.buf| >= 3
    ensures ReadUint24(st.buf) <= 0xFF_FFFF
    ensures !Extracted(cfg, st).1 && Extracted(cfg, st).0.error == -9 ==> st.error == -9
  {
    hide Handled;
  }

  // ------------------------------------------------------------------------------------------
  // The sending half
  // ------------------------------------------------------------------------------------------

  /** A message that was sealed, and whether the transport took its frame. */
  datatype Attempt = Attempt(data: bytes, sent: bool)

  function Data(atts: seq<Attempt>): (r: seq<bytes>)
    ensures |r| == |atts|
  {
    seq(|atts|, i requires 0 <= i < |atts| => atts[i].data)
  }

  /** The sealed messages that were sent, from number i on. Sealing counts even what is then refused. */
  function SentFrom(push: (bytes, nat, bytes) -> bytes, h: bytes, atts: seq<Attempt>, i: nat): seq<bytes>
    requires i <= |atts|
    decreases |atts| - i
  {
    if i == |atts| then []
    else (if atts[i].sent then [push(h, i, atts[i].data)] else []) + SentFrom(push, h, atts, i + 1)
  }

  /** All the output: the header message and a frame for each message sent. */
  function Stream(id: bytes, push: (bytes, nat, bytes) -> bytes, h: bytes, atts: seq<Attempt>): bytes {
    Frame(id + h) + Wire(SentFrom(push, h, atts, 0))
  }

  ghost predicate AllSent(atts: seq<Attempt>) {
    forall i :: 0 <= i < |atts| ==> atts[i].sent
  }

  /** The number of the first message from i on that was refused. */
  function FirstRefused(atts: seq<Attempt>, i: nat): (r: nat)
    requires i <= |atts|
    ensures i <= r <= |atts|
    decreases |atts| - i
  {
    if i == |atts| || !atts[i].sent then i else FirstRefused(atts, i + 1)
  }

  lemma {:induction false} WireAppend(bodies: seq<bytes>, body: bytes)
    ensures Wire(bodies + [body]) == Wire(bodies) + Frame(body)
  {
    if bodies == [] {
      assert [body][1..] == [];
    } else {
      WireAppend(bodies[1..], body);
      assert (bodies + [body])[1..] == bodies[1..] + [body];
    }
  }

  lemma {:induction false} SentAppend(push: (bytes, nat, bytes) -> bytes, h: bytes, atts: seq<Attempt>, a: Attempt,
                                      i: nat)
    requires i <= |atts|
    ensures SentFrom(push, h, atts + [a], i) ==
            SentFrom(push, h, atts, i) + (if a.sent then [push(h, |atts|, a.data)] else [])
    decreases |atts| - i
  {
    if i < |atts| {
      SentAppend(push, h, atts, a, i + 1);
      assert (atts + [a])[i] == atts[i];
    } else {
      assert SentFrom(push, h, atts + [a], i + 1) == [];
    }
  }

  /** A message that is sent adds one frame to the output, one that is refused adds nothing. */
  lemma WriteAppends(id: bytes, push: (bytes, nat, bytes) -> bytes, h: bytes, atts: seq<Attempt>, a: Attempt)
    ensures Stream(id, push, h, atts + [a]) ==
            Stream(id, push, h, atts) + (if a.sent then Frame(push(h, |atts|, a.data)) else [])
    ensures Data(atts + [a]) == Data(atts) + [a.data]
  {
    SentAppend(push, h, atts, a, 0);
    if a.sent {
      WireAppend(SentFrom(push, h, atts, 0), push(h, |atts|, a.data));
    } else {
      assert SentFrom(push, h, atts, 0) + [] == SentFrom(push, h, atts, 0);
    }
  }

  /** The frames sent are never longer than those of all messages, and shorter if one was refused. */
  lemma {:induction false} SentIsShorter(push: (bytes, nat, bytes) -> bytes, h: bytes, atts: seq<Attempt>, i: nat)
    requires i <= |atts|
    ensures var sent, all := SentFrom(push, h, atts, i), Bodies(push, h, Data(atts))[i..];
            if FirstRefused(atts, i) == |atts| then sent == all else |Wire(sent)| < |Wire(all)|
    ensures FirstRefused(atts, i) == |atts| <==> forall k :: i <= k < |atts| ==> atts[k].sent
    decreases |atts| - i
  {
    if i < |atts| {
      SentIsShorter(push, h, atts, i + 1);
      var all := Bodies(push, h, Data(atts));
      assert all[i..][0] == push(h, i, atts[i].data) && all[i..][1..] == all[i + 1..];
      var tail := SentFrom(push, h, atts, i + 1);
      if atts[i].sent {
        assert ([all[i]] + tail)[1..] == tail && Wire([all[i]] + tail) == Frame(all[i]) + Wire(tail);
        assert [all[i]] + all[i + 1..] == all[i..];
      } else {
        assert [] + tail == tail;
      }
    }
  }

  /** The output is one header message and one frame per sealed message exactly if none was refused. */
  lemma OneFramePerWriteExactly(id: bytes, push: (bytes, nat, bytes) -> bytes, h: bytes, atts: seq<Attempt>)
    ensures Stream(id, push, h, atts) == Whole(id, push, h, Data(atts)) <==> AllSent(atts)
  {
    SentIsShorter(push, h, atts, 0);
    var all := Bodies(push, h, Data(atts));
    assert all[0..] == all;
  }

  /** None of these messages opens as one with a lower number. It is a law about the messages of a run,
      not about all there could be, of which no cipher can keep that. */
  ghost predicate OutOfStepLaw(cfg: Config, h: bytes, atts: seq<Attempt>) {
    forall i: nat, j: nat :: i < j < |atts| ==> cfg.pull(h, i, cfg.push(h, j, atts[j].data)) == None
  }

  /** A toy cipher: behind the message comes its number. */
  function Numbered(h: bytes, n: nat, m: bytes): bytes {
    m + Le(n, ABYTES)
  }

  function Opened(h: bytes, n: nat, c: bytes): Option<bytes> {
    if |c| < ABYTES || c[|c| - ABYTES..] != Le(n, ABYTES) then None else Some(c[..|c| - ABYTES])
  }

  lemma NumbersDiffer(i: nat, j: nat)
    requires i < j < Pow256(ABYTES)
    ensures Le(i, ABYTES) != Le(j, ABYTES)
  {
    LeRoundTrip(i, ABYTES);
    LeRoundTrip(j, ABYTES);
  }

  /** A configuration exists that keeps all the laws, for every run of up to 2^136 messages. */
  lemma StreamLawsCanBeMet(id: bytes, h: bytes, keepAlive: bool)
    requires |id| == STREAM_ID_LEN && |h| == HEADERBYTES
    ensures exists cfg: Config ::
              && cfg.remoteId == id && cfg.keepAlive == keepAlive && HeaderFits(cfg, h) && PushLaw(cfg)
              && NeverStops(cfg) && forall atts: seq<Attempt> :: |atts| <= Pow256(ABYTES) ==> OutOfStepLaw(cfg, h, atts)
  {
    hide Le, Pow256;
    var cfg := Config(id, keepAlive, _ => true, Numbered, Opened, false, _ => false);
    forall k: bytes, n: nat, m: bytes
      ensures cfg.pull(k, n, cfg.push(k, n, m)) == Some(m) && |cfg.push(k, n, m)| == |m| + ABYTES
    {
      Unnumbered(m, n);
    }
    forall atts: seq<Attempt> | |atts| <= Pow256(ABYTES) ensures OutOfStepLaw(cfg, h, atts) {
      forall i: nat, j: nat | i < j < |atts| ensures cfg.pull(h, i, cfg.push(h, j, atts[j].data)) == None {
        NumbersDiffer(i, j);
        Unnumbered(atts[j].data, j);
      }
    }
  }

  lemma Unnumbered(m: bytes, n: nat)
    ensures var c := m + Le(n, ABYTES); c[..|m|] == m && c[|m|..] == Le(n, ABYTES) && |c| == |m| + ABYTES
  {
  }

  lemma SentStep(push: (bytes, nat, bytes) -> bytes, h: bytes, atts: seq<Attempt>, i: nat)
    requires i < |atts|
    ensures Wire(SentFrom(push, h, atts, i)) ==
            (if atts[i].sent then Frame(push(h, i, atts[i].data)) else []) + Wire(SentFrom(push, h, atts, i + 1))
  {
    var tail := SentFrom(push, h, atts, i + 1);
    if atts[i].sent {
      assert ([push(h, i, atts[i].data)] + tail)[1..] == tail;
    } else {
      assert [] + tail == tail;
    }
  }

  /** Behind a refused message nothing opens any more. */
  lemma {:induction false} LateRun(cfg: Config, st: Receiver, h: bytes, atts: seq<Attempt>, i: nat, j: nat)
    requires PushLaw(cfg) && OutOfStepLaw(cfg, h, atts) && Writable(Data(atts)) && Live(cfg, st, h, Data(atts), i)
    requires i < j <= |atts| && st.buf == Wire(SentFrom(cfg.push, h, atts, j))
    ensures Drained(cfg, st) == st.(buf := [])
    decreases |atts| - j
  {
    if j == |atts| {
      EmptyIsDrained(cfg, st);
    } else {
      SentStep(cfg.push, h, atts, j);
      var tail := Wire(SentFrom(cfg.push, h, atts, j + 1));
      var next := st.(buf := tail);
      if atts[j].sent {
        var body := cfg.push(h, j, atts[j].data);
        BodyFits(cfg, h, Data(atts), j);
        FrameTaken(cfg, st, body, tail);
        assert cfg.pull(h, i, body) == None;
        assert Handled(cfg, next, body) == next;
      } else {
        assert [] + tail == tail && next == st;
      }
      hide Drained, Handled, Wire, SentFrom;
      LateRun(cfg, next, h, atts, i, j + 1);
    }
  }

  /** A connected receiver delivers the messages before the first refused one. */
  lemma {:induction false} RunToRefusal(cfg: Config, st: Receiver, h: bytes, atts: seq<Attempt>, i: nat)
    requires PushLaw(cfg) && OutOfStepLaw(cfg, h, atts) && NeverStops(cfg) && Writable(Data(atts)) &&
              Live(cfg, st, h, Data(atts), i)
    requires st.buf == Wire(SentFrom(cfg.push, h, atts, i))
    ensures Live(cfg, Drained(cfg, st), h, Data(atts), FirstRefused(atts, i))
    decreases |atts| - i
  {
    hide PushLaw, OutOfStepLaw, NeverStops, Writable, Live, Drained, Handled, Wire, SentFrom;
    LiveIs(cfg, st, h, Data(atts), i);
    if i == |atts| {
      NothingSent(cfg.push, h, atts);
      EmptyIsDrained(cfg, st);
    } else {
      SentStep(cfg.push, h, atts, i);
      var tail := Wire(SentFrom(cfg.push, h, atts, i + 1));
      if atts[i].sent {
        var body := cfg.push(h, i, atts[i].data);
        BodyFits(cfg, h, Data(atts), i);
        FrameTaken(cfg, st, body, tail);
        LiveIgnoresBuf(cfg, st, st.(buf := tail), h, Data(atts), i);
        LiveStep(cfg, st.(buf := tail), h, Data(atts), i);
        RunToRefusal(cfg, Handled(cfg, st.(buf := tail), body), h, atts, i + 1);
      } else {
        assert [] + tail == tail;
        LateRun(cfg, st, h, atts, i, i + 1);
        LiveIgnoresBuf(cfg, st, st.(buf := []), h, Data(atts), i);
      }
    }
  }

  lemma NothingSent(push: (bytes, nat, bytes) -> bytes, h: bytes, atts: seq<Attempt>)
    ensures Wire(SentFrom(push, h, atts, |atts|)) == []
  {
  }

  /** What a refused write costs: the cipher has moved on, so the peer delivers exactly the visible ones
      of the messages before the first refused one, whatever was sent after it. */
  lemma DeliversUpToARefusal(cfg: Config, h: bytes, atts: seq<Attempt>, chunks: seq<bytes>)
    requires HeaderFits(cfg, h) && PushLaw(cfg) && OutOfStepLaw(cfg, h, atts) && NeverStops(cfg) && Writable(Data(atts))
    requires Joined(chunks) == Stream(cfg.remoteId, cfg.push, h, atts)
    ensures var r := FeedAll(cfg, Acked(cfg, IDLE), chunks);
            !r.destroyed && r.delivered == Visible(cfg, Data(atts)[..FirstRefused(atts, 0)])
  {
    hide PushLaw, OutOfStepLaw, NeverStops, Writable, Drained, Handled, Wire, SentFrom, Visible;
    var x := Joined(chunks);
    ChunkingIsIrrelevant(cfg, Acked(cfg, IDLE), chunks);
    var rest := Wire(SentFrom(cfg.push, h, atts, 0));
    var st := IDLE.(buf := x, bytesRead := |x|, headerSent := true);
    assert [] + x == x && Feed(cfg, Acked(cfg, IDLE), x) == Drained(cfg, st);
    HeaderTaken(cfg, st, h, Data(atts), rest);
    RunToRefusal(cfg, Handled(cfg, st.(buf := rest), cfg.remoteId + h), h, atts, 0);
  }

  // ------------------------------------------------------------------------------------------
  // The stream object
  // ------------------------------------------------------------------------------------------

  class Duplex {
    const cfg: Config
    const localId: bytes
    const localHeader: bytes
    const seal: (bytes, nat, bytes) -> bytes

    var recvBuf: bytes
    var rawBytesRead: nat
    var started: bool
    var ended: bool
    var headerSent: bool
    var headerReceived: bool
    var connected: bool
    var destroyed: bool
    var closeError: int
    var pullHeader: bytes
    var pullCount: nat
    var pushCount: nat
    var pending: seq<bytes>

    /** The calls of on_connect and on_message made so far. */
    var connects: nat
    var delivered: seq<bytes>
    /** Whether the transport took the header frame; the messages sealed; and the bytes that went out. */
    ghost var headerTaken: bool
    ghost var attempts: seq<Attempt>
    ghost var wire: bytes

    function View(): Receiver
      reads this
    {
      Receiver(recvBuf, rawBytesRead, headerSent, headerReceived, pullHeader, pullCount,
               connected, destroyed, closeError, pending, connects, delivered)
    }

    /** All output is one header message followed by a frame for each message that was sent. */
    ghost predicate Valid()
      reads this
    {
      && |localId| == STREAM_ID_LEN && |localHeader| == HEADERBYTES
      && (connected ==> headerSent && headerReceived) && (headerSent ==> headerTaken) && (headerTaken ==> started)
      && pushCount == |attempts| && Writable(Data(attempts))
      && wire == (if headerTaken then Stream(localId, seal, localHeader, attempts) else [])
      && (!headerTaken ==> attempts == [])
    }

    constructor (cfg: Config, localId: bytes, localHeader: bytes, seal: (bytes, nat, bytes) -> bytes)
      requires |localId| == STREAM_ID_LEN && |localHeader| == HEADERBYTES
      ensures Valid() && View() == IDLE && !started && !ended && !headerTaken && wire == [] && attempts == []
      ensures this.cfg == cfg && this.localId == localId && this.localHeader == localHeader && this.seal == seal
    {
      this.cfg, this.localId, this.localHeader, this.seal := cfg, localId, localHeader, seal;
      recvBuf, rawBytesRead, started, ended, headerSent, headerReceived := [], 0, false, false, false, false;
      connected, destroyed, closeError, pullHeader, pullCount, pushCount := false, false, 0, [], 0, 0;
      pending, connects, delivered, headerTaken, attempts, wire := [], 0, [], false, [], [];
    }

    /** start(): the header message goes out first. The transport may refuse it at once with a negative
        code, which destroys the stream. */
    method Start(rc: int)
      requires Valid()
      modifies `started, `headerTaken, `wire, `destroyed, `closeError
      ensures Valid() && started == (old(started) || !old(destroyed))
      ensures old(started || destroyed) ==>
                View() == old(View()) && headerTaken == old(headerTaken) && wire == old(wire)
      ensures !old(started || destroyed) ==>
                && headerTaken == (rc >= 0)
                && wire == (if rc >= 0 then Frame(localId + localHeader) else [])
                && View() == (if rc >= 0 then old(View()) else Destroyed(old(View()), rc))
    {
      hide Writable;
      if started || destroyed {
        return;
      }
      started := true;
      if rc >= 0 {
        headerTaken := true;
        wire := Frame(localId + localHeader);
        NothingSent(seal, localHeader, attempts);
        assert Frame(localId + localHeader) + [] == Frame(localId + localHeader);
      } else {
        Destroy(rc);
      }
    }

    /** The transport reports on the header frame: written, or failed with a negative status. */
    method OnHeaderWritten(status: int)
      requires Valid() && headerTaken
      modifies `headerSent, `connected, `destroyed, `closeError, `pending, `connects, `delivered
      ensures Valid() && View() == if status >= 0 then Acked(cfg, old(View())) else Destroyed(old(View()), status)
      ensures old(destroyed) ==>
                (connects > old(connects) <==> status >= 0 && !old(connected) && old(headerReceived))
    {
      hide Stream, Writable;
      if status >= 0 {
        headerSent := true;
        MaybeFireConnect();
      } else {
        Destroy(status);
      }
    }

    method Destroy(error: int)
      requires Valid()
      modifies `destroyed, `closeError
      ensures Valid() && View() == Destroyed(old(View()), error)
    {
      hide Stream;
      if destroyed {
        return;
      }
      destroyed := true;
      closeError := error;
    }

    /** The user's message callback, which may destroy the stream. */
    method Deliver(m: bytes)
      requires Valid()
      modifies `delivered, `destroyed, `closeError
      ensures Valid() && View() == Delivered(cfg, old(View()), m)
    {
      hide Stream, Writable;
      delivered := delivered + [m];
      if cfg.stopAfter(|delivered|) {
        Destroy(0);
      }
    }

    method MaybeFireConnect()
      requires Valid()
      modifies `connected, `destroyed, `closeError, `pending, `connects, `delivered
      ensures Valid() && View() == Connected(cfg, old(View()))
    {
      hide Stream, Writable;
      if connected {
        return;
      }
      if !headerSent || !headerReceived {
        return;
      }
      hide Replayed;
      connected := true;
      connects := connects + 1;
      if cfg.stopOnConnect {
        Destroy(0);
      }
      var waiting := pending;
      pending := [];
      Replay(waiting);
    }

    method Replay(waiting: seq<bytes>)
      requires Valid()
      modifies `delivered, `destroyed, `closeError
      ensures Valid() && View() == Replayed(cfg, old(View()), waiting)
    {
      hide Stream, Writable, Delivered, Valid;
      ghost var s := View();
      var i := 0;
      assert waiting[0..] == waiting;
      while i < |waiting| && !destroyed
        invariant i <= |waiting| && Valid()
        invariant Replayed(cfg, s, waiting) == Replayed(cfg, View(), waiting[i..])
      {
        Deliver(waiting[i]);
        assert waiting[i..][0] == waiting[i] && waiting[i..][1..] == waiting[i + 1..];
        i := i + 1;
      }
    }

    method Decrypt(body: bytes) returns (plain: Option<bytes>)
      requires Valid()
      modifies `pullCount
      ensures Valid() && (View(), plain) == Decrypted(cfg, old(View()), body)
    {
      hide Stream, Writable;
      if !headerReceived {
        return None;
      }
      if |body| < ABYTES {
        return None;
      }
      plain := cfg.pull(pullHeader, pullCount, body);
      if plain.None? {
        return;
      }
      pullCount := pullCount + 1;
      if plain.value == [] && cfg.keepAlive {
        return None;
      }
    }

    method HandleFrame(msg: bytes)
      requires Valid()
      modifies `headerReceived, `pullHeader, `pullCount
      modifies `connected, `destroyed, `closeError, `pending, `connects, `delivered
      ensures Valid() && View() == Handled(cfg, old(View()), msg)
    {
      hide Stream, Writable, Connected, Delivered, Decrypted, Data;
      if !headerReceived {
        if |msg| != ID_HEADER_BYTES {
          Destroy(-5);
          return;
        }
        if msg[..STREAM_ID_LEN] != cfg.remoteId || !cfg.initPull(msg[STREAM_ID_LEN..]) {
          Destroy(-6);
          return;
        }
        headerReceived := true;
        pullHeader, pullCount := msg[STREAM_ID_LEN..], 0;
        MaybeFireConnect();
        return;
      }
      var plain := Decrypt(msg);
      if plain.None? {
        return;
      }
      if !connected {
        pending := pending + [plain.value];
        if |pending| > MAX_PENDING {
          Destroy(-7);
        }
        return;
      }
      Deliver(plain.value);
    }

    method TryExtractFrame() returns (more: bool)
      requires Valid()
      modifies `recvBuf, `headerReceived, `pullHeader, `pullCount
      modifies `connected, `destroyed, `closeError, `pending, `connects, `delivered
      ensures Valid() && (View(), more) == Extracted(cfg, old(View()))
    {
      hide Stream, Writable, Handled, ReadUint24;
      if |recvBuf| < 3 {
        return false;
      }
      var frameLen := ReadUint24(recvBuf);
      if frameLen > FRAME_LEN_MAX {
        Destroy(-9);
        return false;
      }
      if frameLen == 0 {
        Destroy(-10);
        return false;
      }
      if |recvBuf| < 3 + frameLen {
        return false;
      }
      var body := recvBuf[3..3 + frameLen];
      recvBuf := recvBuf[3 + frameLen..];
      HandleFrame(body);
      more := true;
    }

    method ProcessIncomingBytes(data: bytes)
      requires Valid()
      modifies `rawBytesRead, `recvBuf, `headerReceived, `pullHeader, `pullCount
      modifies `connected, `destroyed, `closeError, `pending, `connects, `delivered
      ensures Valid() && View() == Feed(cfg, old(View()), data)
    {
      hide Valid, Extracted;
      if |data| == 0 {
        return;
      }
      Arrived(data);
      ghost var s := View();
      var more := !destroyed;
      while more
        invariant Valid()
        invariant Drained(cfg, s) == if more then Drained(cfg, View()) else View()
        invariant more ==> !destroyed
        decreases more, |recvBuf|
      {
        more := TryExtractFrame();
        more := more && !destroyed;
      }
    }

    method Arrived(data: bytes)
      requires Valid()
      modifies `rawBytesRead, `recvBuf
      ensures Valid() && View() == old(View()).(bytesRead := old(rawBytesRead) + |data|, buf := old(recvBuf) + data)
    {
      hide Stream, Writable;
      rawBytesRead := rawBytesRead + |data|;
      recvBuf := recvBuf + data;
    }

    /** write(): each failure code under its condition. Sealing may fail, and the transport may refuse the
        frame with a negative code, after the cipher has moved on. */
    method Write(data: bytes, sealFails: bool, rc: int) returns (code: int)
      requires Valid()
      modifies `pushCount, `attempts, `wire
      ensures Valid() && View() == old(View())
      ensures code ==
              if destroyed || ended then -1
              else if !connected then -2
              else if |data| > 0xFF_FFFF - 17 then -3
              else if sealFails && data != [] then -4
              else if rc < 0 then rc
              else 0
      ensures var sealed := !destroyed && !ended && connected && |data| <= 0xFF_FFFF - 17 && !sealFails;
              && attempts == old(attempts) + (if sealed then [Attempt(data, rc >= 0)] else [])
              && wire == old(wire) + (if sealed && rc >= 0 then Frame(seal(localHeader, old(pushCount), data)) else [])
    {
      hide Stream, Writable;
      if destroyed || ended {
        return -1;
      }
      if !connected {
        return -2;
      }
      if |data| > MAX_ATOMIC_WRITE {
        return -3;
      }
      if sealFails && data != [] {
        return -4;
      }
      if !sealFails {
        Count(Attempt(data, rc >= 0));
      }
      code := if rc < 0 then rc else 0;
    }

    /** The cipher moves on, and a frame that the transport takes goes out. */
    method Count(a: Attempt)
      requires Valid() && headerTaken && |a.data| <= MAX_ATOMIC_WRITE
      modifies `pushCount, `attempts, `wire
      ensures Valid() && attempts == old(attempts) + [a]
      ensures wire == old(wire) + (if a.sent then Frame(seal(localHeader, old(pushCount), a.data)) else [])
    {
      hide Stream;
      WriteAppends(localId, seal, localHeader, attempts, a);
      pushCount := pushCount + 1;
      attempts := attempts + [a];
      if a.sent {
        wire := wire + Frame(seal(localHeader, pushCount - 1, a.data));
      }
    }

    method End()
      requires Valid()
      modifies `ended
      ensures Valid() && ended == (old(ended) || !destroyed)
    {
      hide Stream, Writable;
      if ended || destroyed {
        return;
      }
      ended := true;
    }
  }

  /** A destroyed stream that connects: the transport reports the header as written after destroy(). */
  method ConnectsAfterDestroy(cfg: Config, localId: bytes, localHeader: bytes, seal: (bytes, nat, bytes) -> bytes,
                              h: bytes)
    returns (stream: Duplex)
    requires HeaderFits(cfg, h) && NeverStops(cfg) && |localId| == STREAM_ID_LEN && |localHeader| == HEADERBYTES
    ensures fresh(stream) && stream.Valid() && stream.destroyed && stream.connected && stream.connects == 1
  {
    hide Stream, Writable, NeverStops, Drained, Handled, Duplex.Valid;
    stream := new Duplex(cfg, localId, localHeader, seal);
    stream.Start(0);
    var frame := Frame(cfg.remoteId + h);
    stream.ProcessIncomingBytes(frame);
    HeaderAlone(cfg, h, frame);
    stream.Destroy(-1);
    stream.OnHeaderWritten(0);
  }

  lemma HeaderAlone(cfg: Config, h: bytes, frame: bytes)
    requires HeaderFits(cfg, h) && NeverStops(cfg) && frame == Frame(cfg.remoteId + h)
    ensures var r := Feed(cfg, IDLE, frame);
            !r.destroyed && !r.connected && r.headerReceived && r.connects == 0
  {
    hide Drained, Handled, NeverStops;
    var st := IDLE.(buf := frame, bytesRead := |frame|);
    assert [] + frame == frame && frame == frame + [];
    HeaderTaken(cfg, st, h, [], []);
    EmptyIsDrained(cfg, Handled(cfg, st.(buf := []), cfg.remoteId + h));
  }
}
