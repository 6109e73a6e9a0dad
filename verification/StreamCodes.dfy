/** Frame by frame: what each kind of frame leads to, and with which code a stream is destroyed
    (src/secret_stream.cpp:54-64, 605-735). */
module StreamCodes {
  import opened Wrappers
  import opened Bytes
  import opened SecretStream

  /** The length of a frame has its low byte first. */
  lemma LengthBytes(n: nat, low: byte, mid: byte, high: byte, rest: bytes)
    requires n <= 0xFF_FFFF
    ensures WriteUint24(n) == [n % 0x100, n / 0x100 % 0x100, n / 0x1_0000]
    ensures ReadUint24([low, mid, high] + rest) == low + 0x100 * mid + 0x1_0000 * high
    ensures forall body: bytes :: |body| == n ==>
              Frame(body) == [n % 0x100, n / 0x100 % 0x100, n / 0x1_0000] + body
  {
  }

  /** The first frame must be the peer's stream id and a header, 56 bytes in all: another length ends the stream
      with -5, a wrong id or a header that the cipher refuses with -6. A good one is taken, and the stream
      connects if our own header is out. */
  lemma FirstFrame(cfg: Config, st: Receiver, body: bytes)
    requires !st.headerReceived && !st.destroyed && !st.connected && |cfg.remoteId| == 32
    ensures var r := Handled(cfg, st, body);
            && (|body| != 56 ==> r == st.(destroyed := true, error := -5))
            && (|body| == 56 && (body[..32] != cfg.remoteId || !cfg.initPull(body[32..])) ==>
                  r == st.(destroyed := true, error := -6))
            && (|body| == 56 && body[..32] == cfg.remoteId && cfg.initPull(body[32..]) ==>
                  && r.headerReceived && r.header == body[32..] && r.count == 0
                  && r.connected == st.headerSent
                  && r.connects == st.connects + (if st.headerSent then 1 else 0)
                  && (!st.headerSent ==> !r.destroyed && r.pending == st.pending && r.delivered == st.delivered))
  {
    hide Replayed;
    if |body| == 56 && body[..32] == cfg.remoteId && cfg.initPull(body[32..]) {
      var s := st.(headerReceived := true, header := body[32..], count := 0, connected := true,
                   connects := st.connects + 1);
      ReplayStops(cfg, (if cfg.stopOnConnect then Destroyed(s, 0) else s).(pending := []), st.pending);
    }
  }

  /** The acknowledgement of our own header: it connects the stream if the peer's has come and it was not
      connected; a callback that destroys it leaves nothing to deliver, otherwise what waited is handed
      over up to the first message whose callback destroys the stream. */
  lemma OwnHeader(cfg: Config, st: Receiver)
    requires !st.destroyed
    ensures st.connected || !st.headerReceived ==> Acked(cfg, st) == st.(headerSent := true)
    ensures !st.connected && st.headerReceived ==>
              var r := Acked(cfg, st);
              && r.connected && r.connects == st.connects + 1 && r.pending == [] && r.buf == st.buf
              && st.delivered <= r.delivered <= st.delivered + st.pending
              && (cfg.stopOnConnect ==> r.destroyed && r.error == 0 && r.delivered == st.delivered)
              && (!cfg.stopOnConnect && !r.destroyed ==> r.delivered == st.delivered + st.pending)
              && (!cfg.stopOnConnect && r.destroyed ==>
                    r.error == 0 && |r.delivered| > |st.delivered| && cfg.stopAfter(|r.delivered|))
  {
    hide Replayed;
    if !st.connected && st.headerReceived {
      var s := st.(headerSent := true, connected := true, connects := st.connects + 1);
      var t := (if cfg.stopOnConnect then Destroyed(s, 0) else s).(pending := []);
      ReplayStops(cfg, t, st.pending);
      ReplayKeepsBuf(cfg, t, st.pending, t.buf, t.bytesRead);
    }
  }

  /** Later frames. One that is shorter than 17 bytes or does not open changes nothing; an empty message with
      keepalive on only moves the cipher on. */
  lemma IgnoredFrame(cfg: Config, st: Receiver, body: bytes)
    requires st.headerReceived
    ensures |body| < 17 || cfg.pull(st.header, st.count, body) == None ==> Handled(cfg, st, body) == st
    ensures |body| >= 17 && cfg.pull(st.header, st.count, body) == Some([]) && cfg.keepAlive ==>
              Handled(cfg, st, body) == st.(count := st.count + 1)
  {
  }

  /** A message that opens is delivered if the stream is connected, and waits if it is not; the 65th to wait
      ends the stream with -7. */
  lemma OpenedFrame(cfg: Config, st: Receiver, body: bytes, m: bytes)
    requires st.headerReceived && !st.destroyed && |body| >= 17 && cfg.pull(st.header, st.count, body) == Some(m)
    requires m != [] || !cfg.keepAlive
    ensures var r := Handled(cfg, st, body);
            && r.count == st.count + 1
            && (st.connected ==>
                  && r.delivered == st.delivered + [m] && r.pending == st.pending
                  && r.destroyed == cfg.stopAfter(|st.delivered| + 1)
                  && (r.destroyed ==> r.error == 0))
            && (!st.connected ==>
                  && r.delivered == st.delivered && r.pending == st.pending + [m]
                  && r.destroyed == (|st.pending| >= 64)
                  && (r.destroyed ==> r.error == -7))
  {
  }

  /** A length of zero ends the stream with -10; a frame that is not complete waits. */
  lemma ZeroLength(cfg: Config, st: Receiver, rest: bytes)
    requires !st.destroyed
    ensures var b := [0, 0, 0] + rest; Drained(cfg, st.(buf := b)) == st.(buf := b, destroyed := true, error := -10)
    ensures |st.buf| < 3 ==> Drained(cfg, st) == st
    ensures |st.buf| >= 3 && st.buf[..3] != [0, 0, 0] &&
            |st.buf| < 3 + st.buf[0] as int + 0x100 * st.buf[1] as int + 0x1_0000 * st.buf[2] as int ==>
              Drained(cfg, st) == st
  {
    LengthBytes(0, 0, 0, 0, rest);
  }

  /** A destroyed stream takes no frame and keeps its first error. */
  lemma NothingAfterDestroy(cfg: Config, st: Receiver, data: bytes, error: int)
    requires st.destroyed
    ensures Feed(cfg, st, data) == st.(buf := st.buf + data, bytesRead := st.bytesRead + |data|)
    ensures Destroyed(st, error) == st
  {
    assert data == [] ==> st.buf + data == st.buf;
  }

  /** What waited is handed over in order until a callback destroys the stream: nothing behind that. */
  lemma {:induction false} ReplayStops(cfg: Config, st: Receiver, ms: seq<bytes>)
    ensures var r := Replayed(cfg, st, ms);
            && r.connected == st.connected && r.connects == st.connects && r.headerReceived == st.headerReceived
            && r.header == st.header && r.count == st.count && r.pending == st.pending
            && |st.delivered| <= |r.delivered| <= |st.delivered| + |ms|
            && r.delivered == st.delivered + ms[..|r.delivered| - |st.delivered|]
            && (forall n :: |st.delivered| < n < |r.delivered| ==> !cfg.stopAfter(n))
            && (st.destroyed ==> r == st)
            && (!st.destroyed && r.destroyed ==> r.error == 0)
            && (!st.destroyed ==>
                  r.destroyed == (|r.delivered| > |st.delivered| && cfg.stopAfter(|r.delivered|)))
            && (!r.destroyed ==> |r.delivered| == |st.delivered| + |ms|)
    decreases ms
  {
    if ms != [] && !st.destroyed {
      var s := Delivered(cfg, st, ms[0]);
      ReplayStops(cfg, s, ms[1..]);
      var r := Replayed(cfg, st, ms);
      var k := |r.delivered| - |s.delivered|;
      assert ms[..k + 1] == [ms[0]] + ms[1..][..k];
    }
  }
}
