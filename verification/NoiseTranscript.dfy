/** The Noise IK handshake in terms of the primitives alone (src/noise_wrap.cpp:112-140, 169-255, 270-321,
    331-516): which bytes are sent, under which keys, and what both ends come out with. */
module NoiseTranscript {
  import opened Wrappers
  import opened Bytes
  import opened Varints
  import opened NoiseIK

  /** The name of the protocol in ASCII, padded with zeros to 64 bytes. */
  const NAME: Hash :=
    [78, 111, 105, 115, 101, 95, 73, 75, 95, 69, 100, 50, 53, 53, 49, 57, 95, 67, 104, 97, 67, 104, 97, 80, 111,
     108, 121, 95, 66, 76, 65, 75, 69, 50, 98] + Zeros(29)

  const FIRST_NONCE: bytes := [0, 0, 0, 0, 0, 0, 0, 0, 0, 0, 0, 0]

  /** The first 32 of 64 bytes. */
  function Half(h: Hash): Key {
    h[..32]
  }

  lemma NameIs()
    ensures InitialHash() == NAME
  {
    assert Ascii(PROTOCOL_NAME) == NAME[..35];
  }

  lemma FirstNonceIs()
    ensures BuildNonce(0) == FIRST_NONCE
  {
  }

  // ------------------------------------------------------------------------------------------
  // The steps
  // ------------------------------------------------------------------------------------------

  ghost predicate AllZero(k: Key) {
    forall i :: 0 <= i < 32 ==> k[i] == 0
  }

  /** A DH result extends the chaining key it finds and gives the key of the next encryptions; one of all
      zeros does neither, and only marks the state corrupt. */
  lemma KeysFrom(c: Crypto, s: Symmetric, remote: PubKey, local: Keypair)
    ensures var d := c.dh(local.sec, remote);
            var q := c.hmac(s.chainingKey, d);
            var ck := c.hmac(q, [1]);
            KeyMixed(c, s, remote, local) ==
              if AllZero(d) then s.(corrupt := true)
              else Symmetric(s.digest, ck, s.corrupt, Cipher(Some(Half(c.hmac(q, ck + [2]))), 0))
  {
    var d := c.dh(local.sec, remote);
    assert AllZero(d) <==> d == ZERO_KEY;
  }

  /** The first thing sealed under a key. */
  lemma FirstSealed(c: Crypto, s: Symmetric, k: Key, pt: bytes)
    requires s.cipher == Cipher(Some(k), 0)
    ensures var ct := c.seal(k, FIRST_NONCE, s.digest, pt);
            SealAndHash(c, s, pt) ==
              (Symmetric(c.hash(s.digest + ct), s.chainingKey, s.corrupt, Cipher(Some(k), 1)), ct)
  {
    FirstNonceIs();
  }

  /** The nonce: four zero bytes, the counter modulo 2^32 with its low byte first, four zero bytes. */
  lemma NonceBytes(counter: nat)
    ensures |BuildNonce(counter)| == 12
    ensures BuildNonce(counter)[..4] == [0, 0, 0, 0] == BuildNonce(counter)[8..]
    ensures BuildNonce(counter)[4..8] == Le(counter % 0x1_0000_0000, 4)
  {
    LeFour(counter % 0x1_0000_0000);
  }

  /** Without a key everything passes as it is; with one, nothing is sealed once the counter has reached
      0xFFFFFFFF, and nothing shorter than a tag opens. */
  lemma CipherLimits(c: Crypto, s: Cipher, ad: bytes, text: bytes)
    ensures s.key.None? ==> Seal(c, s, ad, text) == (s, text) && Open(c, s, ad, text) == (s, Some(text))
    ensures s.key.Some? && s.nonce >= 0xFFFF_FFFF ==> Seal(c, s, ad, text) == (s, [])
    ensures s.key.Some? && s.nonce < 0xFFFF_FFFF ==>
              Seal(c, s, ad, text) == (Cipher(s.key, s.nonce + 1),
                                       c.seal(s.key.value, BuildNonce(s.nonce), ad, text))
    ensures s.key.Some? && |text| < 16 ==> Open(c, s, ad, text) == (s, None)
    ensures s.key.Some? && |text| >= 16 ==>
              var pt := c.open(s.key.value, BuildNonce(s.nonce), ad, text);
              Open(c, s, ad, text) == (Cipher(s.key, if pt.Some? then s.nonce + 1 else s.nonce), pt)
  {
  }

  // ------------------------------------------------------------------------------------------
  // The messages
  // ------------------------------------------------------------------------------------------

  /** What both ends have absorbed before the first message. */
  lemma Opening(c: Crypto, initiator: bool, s: Keypair, prologue: bytes, remote: PubKey)
    ensures var h := Start(c, initiator, s, prologue, remote);
            && h.symmetric == Symmetric(c.hash(c.hash(NAME + prologue) + (if initiator then remote else s.pub)),
                                        NAME, false, Cipher(None, 0))
            && h.initiator == initiator && h.index == 0 && !h.complete && !h.corrupt && h.s == s && !h.eGenerated
            && (initiator ==> h.rs == remote)
  {
    NameIs();
  }

  /** The first message: the ephemeral key, the static key sealed under the key from es alone, the payload
      sealed under the key from es and ss. */
  lemma FirstMessage(c: Crypto, si: Keypair, remote: PubKey, ei: Keypair, prologue: bytes, payload: bytes)
    requires !AllZero(c.dh(ei.sec, remote)) && !AllZero(c.dh(si.sec, remote))
    ensures var (i, m) := Sent(c, Start(c, true, si, prologue, remote), payload, ei);
            var q1 := c.hmac(NAME, c.dh(ei.sec, remote));
            var ck1 := c.hmac(q1, [1]);
            var k1 := Half(c.hmac(q1, ck1 + [2]));
            var q2 := c.hmac(ck1, c.dh(si.sec, remote));
            var ck2 := c.hmac(q2, [1]);
            var k2 := Half(c.hmac(q2, ck2 + [2]));
            var h := c.hash(c.hash(c.hash(NAME + prologue) + remote) + ei.pub);
            var sealedKey := c.seal(k1, FIRST_NONCE, h, si.pub);
            var h' := c.hash(h + sealedKey);
            var sealedPayload := c.seal(k2, FIRST_NONCE, h', payload);
            && m == ei.pub + sealedKey + sealedPayload
            && i.symmetric == Symmetric(c.hash(h' + sealedPayload), ck2, false, Cipher(Some(k2), 1))
  {
    hide KeyMixed, SealAndHash;
    Opening(c, true, si, prologue, remote);
    var i := Start(c, true, si, prologue, remote);
    var s0 := HashMixed(c, i.symmetric, ei.pub);
    KeysFrom(c, s0, remote, ei);
    var s1 := KeyMixed(c, s0, remote, ei);
    FirstSealed(c, s1, s1.cipher.key.value, si.pub);
    var s2 := SealAndHash(c, s1, si.pub).0;
    KeysFrom(c, s2, remote, si);
    var s3 := KeyMixed(c, s2, remote, si);
    FirstSealed(c, s3, s3.cipher.key.value, payload);
  }

  /** The second message: the ephemeral key and the payload sealed under the key from all four results. The
      responder, which sends it, takes the second key of the split to send and the first to receive. */
  lemma SecondMessage(c: Crypto, r: Handshake, er: Keypair, payload: bytes)
    requires !r.initiator && !r.complete && !r.corrupt && !r.eGenerated && r.index == 1 && !r.symmetric.corrupt
    requires !AllZero(c.dh(er.sec, r.re)) && !AllZero(c.dh(er.sec, r.rs))
    ensures var (g, m) := Sent(c, r, payload, er);
            var q3 := c.hmac(r.symmetric.chainingKey, c.dh(er.sec, r.re));
            var ck3 := c.hmac(q3, [1]);
            var q4 := c.hmac(ck3, c.dh(er.sec, r.rs));
            var ck4 := c.hmac(q4, [1]);
            var k4 := Half(c.hmac(q4, ck4 + [2]));
            var h := c.hash(r.symmetric.digest + er.pub);
            var sealedPayload := c.seal(k4, FIRST_NONCE, h, payload);
            var q := c.hmac(ck4, []);
            var t := c.hmac(q, [1]);
            && m == er.pub + sealedPayload
            && g.complete && !g.corrupt && g.hash == c.hash(h + sealedPayload)
            && g.rx == Half(t) && g.tx == Half(c.hmac(q, t + [2]))
  {
    hide KeyMixed, SealAndHash;
    var s0 := HashMixed(c, r.symmetric, er.pub);
    KeysFrom(c, s0, r.re, er);
    var s1 := KeyMixed(c, s0, r.re, er);
    KeysFrom(c, s1, r.rs, er);
    var s2 := KeyMixed(c, s1, r.rs, er);
    FirstSealed(c, s2, s2.cipher.key.value, payload);
  }

  /** What a two-message run leaves: the messages, what was taken from them, and both ends. */
  datatype TwoMessages = TwoMessages(m1: bytes, got1: Option<bytes>, m2: bytes, got2: Option<bytes>,
                                     i: Handshake, r: Handshake)

  /** The four static and ephemeral key pairs. */
  datatype Pairs = Pairs(si: Keypair, sr: Keypair, ei: Keypair, er: Keypair)

  /** The two-message run of two ends that share the prologue, the initiator knowing the responder's static
      key. */
  function RunOf(c: Crypto, k: Pairs, prologue: bytes, p1: bytes, p2: bytes, other: PubKey): TwoMessages
    requires TagLaw(c)
  {
    var (i1, m1) := Sent(c, Start(c, true, k.si, prologue, k.sr.pub), p1, k.ei);
    var (r1, got1) := Received(c, Start(c, false, k.sr, prologue, other), m1);
    var (r2, m2) := Sent(c, r1, p2, k.er);
    var (i2, got2) := Received(c, i1, m2);
    TwoMessages(m1, got1, m2, got2, i2, r2)
  }

  /** Honest key pairs none of whose four DH results is zero. */
  ghost predicate GoodPairs(c: Crypto, k: Pairs) {
    && Honest(c, k.si) && Honest(c, k.sr) && Honest(c, k.ei) && Honest(c, k.er)
    && !AllZero(c.dh(k.ei.sec, k.sr.pub)) && !AllZero(c.dh(k.si.sec, k.sr.pub))
    && !AllZero(c.dh(k.ei.sec, k.er.pub)) && !AllZero(c.dh(k.si.sec, k.er.pub))
  }

  /** The run of honest ends, as bytes: the initiator's static key is sealed under the key from es
      alone, its payload under the key from es and ss, the responder's under the key from all four DH results,
      each of which extends the chaining key that the ones before it have left. What is sealed is bound to
      the prologue, the responder's static key and everything sent before. */
  lemma HonestBytes(c: Crypto, k: Pairs, prologue: bytes, p1: bytes, p2: bytes, other: PubKey)
    requires TagLaw(c) && SealLaw(c) && DhLaw(c) && GoodPairs(c, k)
    ensures var run := RunOf(c, k, prologue, p1, p2, other);
            var q1 := c.hmac(NAME, c.dh(k.ei.sec, k.sr.pub));
            var ck1 := c.hmac(q1, [1]);
            var q2 := c.hmac(ck1, c.dh(k.si.sec, k.sr.pub));
            var ck2 := c.hmac(q2, [1]);
            var ck3 := c.hmac(c.hmac(ck2, c.dh(k.ei.sec, k.er.pub)), [1]);
            var q4 := c.hmac(ck3, c.dh(k.si.sec, k.er.pub));
            var ck4 := c.hmac(q4, [1]);
            var h3 := c.hash(c.hash(c.hash(NAME + prologue) + k.sr.pub) + k.ei.pub);
            var s1 := c.seal(Half(c.hmac(q1, ck1 + [2])), FIRST_NONCE, h3, k.si.pub);
            var h4 := c.hash(h3 + s1);
            var s2 := c.seal(Half(c.hmac(q2, ck2 + [2])), FIRST_NONCE, h4, p1);
            var h6 := c.hash(c.hash(h4 + s2) + k.er.pub);
            var s3 := c.seal(Half(c.hmac(q4, ck4 + [2])), FIRST_NONCE, h6, p2);
            && run.m1 == k.ei.pub + s1 + s2 && run.m2 == k.er.pub + s3
            && run.got1 == Some(p1) && run.got2 == Some(p2)
            && run.i.hash == run.r.hash == c.hash(h6 + s3)
  {
    hide Hkdf, InitialHash, KeyMixed, SentFirst, ReceivedFirst, SentSecond, ReceivedSecond, NoiseIK.Split;
    AllResults(c, k.si, k.sr, k.ei, k.er);
    HonestEndsAgree(c, k.si, k.sr, k.ei, k.er, prologue, p1, p2, other);
    Opening(c, true, k.si, prologue, k.sr.pub);
    Opening(c, false, k.sr, prologue, other);
    FirstMessageAgrees(c, Start(c, true, k.si, prologue, k.sr.pub), Start(c, false, k.sr, prologue, other), k.ei, p1);
    FirstMessage(c, k.si, k.sr.pub, k.ei, prologue, p1);
    var m1 := Sent(c, Start(c, true, k.si, prologue, k.sr.pub), p1, k.ei);
    var r1 := Received(c, Start(c, false, k.sr, prologue, other), m1.1).0;
    SecondMessage(c, r1, k.er, p2);
  }

  /** The transport keys of the same run: the initiator sends under the first output for the final chaining
      key and receives under the second, the responder the other way round. */
  lemma HonestKeys(c: Crypto, k: Pairs, prologue: bytes, p1: bytes, p2: bytes, other: PubKey)
    requires TagLaw(c) && SealLaw(c) && DhLaw(c) && GoodPairs(c, k)
    ensures var run := RunOf(c, k, prologue, p1, p2, other);
            var ck1 := c.hmac(c.hmac(NAME, c.dh(k.ei.sec, k.sr.pub)), [1]);
            var ck2 := c.hmac(c.hmac(ck1, c.dh(k.si.sec, k.sr.pub)), [1]);
            var ck3 := c.hmac(c.hmac(ck2, c.dh(k.ei.sec, k.er.pub)), [1]);
            var ck4 := c.hmac(c.hmac(ck3, c.dh(k.si.sec, k.er.pub)), [1]);
            var q := c.hmac(ck4, []);
            var t := c.hmac(q, [1]);
            && run.i.complete && run.r.complete && !run.i.corrupt && !run.r.corrupt
            && run.i.tx == run.r.rx == Half(t)
            && run.i.rx == run.r.tx == Half(c.hmac(q, t + [2]))
  {
    hide Hkdf, InitialHash, KeyMixed, SentFirst, ReceivedFirst, SentSecond, ReceivedSecond, NoiseIK.Split;
    AllResults(c, k.si, k.sr, k.ei, k.er);
    HonestEndsAgree(c, k.si, k.sr, k.ei, k.er, prologue, p1, p2, other);
    Opening(c, true, k.si, prologue, k.sr.pub);
    Opening(c, false, k.sr, prologue, other);
    FirstMessageAgrees(c, Start(c, true, k.si, prologue, k.sr.pub), Start(c, false, k.sr, prologue, other), k.ei, p1);
    FirstMessage(c, k.si, k.sr.pub, k.ei, prologue, p1);
    var m1 := Sent(c, Start(c, true, k.si, prologue, k.sr.pub), p1, k.ei);
    var r1 := Received(c, Start(c, false, k.sr, prologue, other), m1.1).0;
    SecondMessage(c, r1, k.er, p2);
  }

  lemma AllResults(c: Crypto, si: Keypair, sr: Keypair, ei: Keypair, er: Keypair)
    requires Laws(c) && Honest(c, si) && Honest(c, sr) && Honest(c, ei) && Honest(c, er)
    ensures NoiseIK.NonZero(c, ei, sr) <==> !AllZero(c.dh(ei.sec, sr.pub))
    ensures NoiseIK.NonZero(c, si, sr) <==> !AllZero(c.dh(si.sec, sr.pub))
    ensures NoiseIK.NonZero(c, er, ei) <==> !AllZero(c.dh(ei.sec, er.pub))
    ensures NoiseIK.NonZero(c, er, si) <==> !AllZero(c.dh(si.sec, er.pub))
    ensures c.dh(er.sec, ei.pub) == c.dh(ei.sec, er.pub) && c.dh(er.sec, si.pub) == c.dh(si.sec, er.pub)
  {
    LawsAre(c);
    var s := Symmetric(ZERO_HASH, ZERO_HASH, false, Cipher(None, 0));
    MixKeyAgrees(c, s, er, ei);
    MixKeyAgrees(c, s, er, si);
    forall k: Key ensures AllZero(k) <==> k == ZERO_KEY {
      assert AllZero(k) ==> forall i :: 0 <= i < 32 ==> k[i] == ZERO_KEY[i];
    }
  }

  // ------------------------------------------------------------------------------------------
  // What goes wrong
  // ------------------------------------------------------------------------------------------

  /** The initiator sends first and receives second, the responder the other way round; any other call, and
      any call on a complete or corrupt handshake, changes nothing and gives nothing. */
  lemma TurnsAreKept(c: Crypto, h: Handshake, text: bytes, generated: Keypair)
    requires TagLaw(c) && h.index <= 2 && (h.index == 2 ==> h.complete)
    ensures h.complete || h.corrupt || h.initiator != (h.index == 0) ==>
              Sent(c, h, text, generated) == (h, [])
    ensures h.complete || h.corrupt || h.initiator != (h.index == 1) ==> Received(c, h, text) == (h, None)
  {
  }

  /** In its turn, a message that is not taken leaves the handshake corrupt, and one that is taken advances
      it, the second to completion. */
  lemma RefusedIsCorrupt(c: Crypto, h: Handshake, msg: bytes)
    requires TagLaw(c) && !h.complete && !h.corrupt && h.index <= 1 && h.initiator == (h.index == 1)
    ensures var (g, payload) := Received(c, h, msg);
            if payload.None? then g.corrupt && !g.complete && g.index == h.index
            else !g.corrupt && g.index == h.index + 1 && (g.complete <==> g.index == 2)
  {
    hide Hkdf, NoiseIK.Split;
  }

  /** Nothing shorter than its fixed parts and a tag is taken: 96 bytes for the first message, 48 for the
      second, each after a key exchange. */
  lemma ShortIsRefused(c: Crypto, h: Handshake, msg: bytes)
    requires TagLaw(c) && !h.complete && !h.corrupt && h.index <= 1 && h.initiator == (h.index == 1)
    requires h.index == 1 ==> !h.symmetric.corrupt
    requires |msg| < (if h.index == 0 then 96 else 48)
    ensures Received(c, h, msg).1 == None && Received(c, h, msg).0.corrupt
  {
    hide Hkdf, NoiseIK.Split;
  }

  /** A sender whose key exchange gives all zeros sends nothing and is corrupt. */
  lemma ZeroIsNotSent(c: Crypto, h: Handshake, e: Keypair, payload: bytes)
    requires !h.complete && !h.corrupt && !h.eGenerated && h.index <= 1 && h.initiator == (h.index == 0)
    requires AllZero(c.dh(e.sec, if h.index == 0 then h.rs else h.re)) ||
             AllZero(c.dh(if h.index == 0 then h.s.sec else e.sec, h.rs))
    ensures var (g, out) := Sent(c, h, payload, e); out == [] && g.corrupt && !g.complete
  {
    hide Hkdf, NoiseIK.Split;
    forall k: Key | AllZero(k) ensures k == ZERO_KEY {
      assert forall i :: 0 <= i < 32 ==> k[i] == ZERO_KEY[i];
    }
  }
}
