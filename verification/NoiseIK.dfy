/** The Noise IK handshake (src/noise_wrap.cpp): cipher state, symmetric state and handshake state.

    The primitives are parameters with the laws the pattern needs. Each operation is a function on
    values, which says in particular what a failing call leaves behind; the classes update the same
    state in place and are proved to do exactly that. */
module NoiseIK {
  import opened Wrappers
  import opened Bytes

  const HASHLEN: nat := 64
  const PKLEN: nat := 32
  const MACLEN: nat := 16
  const KEYLEN: nat := 32
  const MAX_COUNTER: nat := 0xFFFF_FFFF

  type Hash = s: bytes | |s| == HASHLEN witness Zeros(64)
  type Key = s: bytes | |s| == KEYLEN witness Zeros(32)
  type PubKey = s: bytes | |s| == PKLEN witness Zeros(32)

  const ZERO_KEY: Key := Zeros(32)
  const ZERO_HASH: Hash := Zeros(64)

  datatype Keypair = Keypair(pub: PubKey, sec: bytes)

  const NO_KEYPAIR := Keypair(ZERO_KEY, Zeros(64))

  /** Diffie-Hellman, hash, HMAC and the AEAD. */
  datatype Crypto = Crypto(
    publicOf: bytes -> PubKey,
    dh: (bytes, PubKey) -> Key,
    hash: bytes -> Hash,
    hmac: (bytes, bytes) -> Hash,
    seal: (Key, bytes, bytes, bytes) -> bytes,
    open: (Key, bytes, bytes, bytes) -> Option<bytes>)

  /** A ciphertext is its plaintext and a tag. */
  ghost predicate TagLaw(c: Crypto) {
    forall k: Key, n: bytes, ad: bytes, ct: bytes :: c.open(k, n, ad, ct).Some? ==>
           |c.open(k, n, ad, ct).value| + MACLEN == |ct|
  }

  ghost predicate SealLaw(c: Crypto) {
    forall k: Key, n: bytes, ad: bytes, pt: bytes ::
      c.open(k, n, ad, c.seal(k, n, ad, pt)) == Some(pt) && |c.seal(k, n, ad, pt)| == |pt| + MACLEN
  }

  ghost predicate DhLaw(c: Crypto) {
    forall a: bytes, b: bytes :: c.dh(a, c.publicOf(b)) == c.dh(b, c.publicOf(a))
  }

  ghost predicate Laws(c: Crypto) {
    TagLaw(c) && SealLaw(c) && DhLaw(c)
  }

  // ------------------------------------------------------------------------------------------
  // HKDF and nonces
  // ------------------------------------------------------------------------------------------

  function Hkdf(c: Crypto, salt: bytes, ikm: bytes): (Hash, Hash) {
    var prk := c.hmac(salt, ikm);
    var t1 := c.hmac(prk, [0x01]);
    var t2 := c.hmac(prk, t1 + [0x02]);
    (t1, t2)
  }

  /** Four zero bytes, the low 32 bits of the counter in little-endian order, four zero bytes. */
  function BuildNonce(counter: nat): bytes {
    var n := counter % 0x1_0000_0000;
    [0, 0, 0, 0, n % 0x100, n / 0x100 % 0x100, n / 0x1_0000 % 0x100, n / 0x100_0000, 0, 0, 0, 0]
  }

  /** Two counters share a nonce exactly when they agree modulo 2^32. */
  lemma NonceInjective(a: nat, b: nat)
    ensures BuildNonce(a) == BuildNonce(b) <==> a % 0x1_0000_0000 == b % 0x1_0000_0000
  {
    var m, n := a % 0x1_0000_0000, b % 0x1_0000_0000;
    if BuildNonce(a) == BuildNonce(b) {
      assert BuildNonce(a)[4] == BuildNonce(b)[4] && BuildNonce(a)[5] == BuildNonce(b)[5];
      assert BuildNonce(a)[6] == BuildNonce(b)[6] && BuildNonce(a)[7] == BuildNonce(b)[7];
      FourBytes(m);
      FourBytes(n);
    }
  }

  lemma FourBytes(n: nat)
    requires n < 0x1_0000_0000
    ensures n == n % 0x100 + 0x100 * (n / 0x100 % 0x100) + 0x1_0000 * (n / 0x1_0000 % 0x100) +
              0x100_0000 * (n / 0x100_0000)
  {
    assert n / 0x100 / 0x100 == n / 0x1_0000 && n / 0x1_0000 / 0x100 == n / 0x100_0000;
  }

  // ------------------------------------------------------------------------------------------
  // The states as values
  // ------------------------------------------------------------------------------------------

  datatype Cipher = Cipher(key: Option<Key>, nonce: nat)

  function Seal(c: Crypto, s: Cipher, ad: bytes, pt: bytes): (Cipher, bytes) {
    if s.key.None? then (s, pt)
    else if s.nonce >= MAX_COUNTER then (s, [])
    else (s.(nonce := s.nonce + 1), c.seal(s.key.value, BuildNonce(s.nonce), ad, pt))
  }

  function Open(c: Crypto, s: Cipher, ad: bytes, ct: bytes): (Cipher, Option<bytes>) {
    if s.key.None? then (s, Some(ct))
    else if |ct| < MACLEN then (s, None)
    else
      var pt := c.open(s.key.value, BuildNonce(s.nonce), ad, ct);
      (if pt.Some? then s.(nonce := s.nonce + 1) else s, pt)
  }

  datatype Symmetric = Symmetric(digest: Hash, chainingKey: Hash, corrupt: bool, cipher: Cipher)

  function HashMixed(c: Crypto, s: Symmetric, data: bytes): Symmetric {
    s.(digest := c.hash(s.digest + data))
  }

  /** A DH result of all zeros only marks the state corrupt. */
  function KeyMixed(c: Crypto, s: Symmetric, remote: PubKey, local: Keypair): Symmetric {
    var d := c.dh(local.sec, remote);
    if d == ZERO_KEY then s.(corrupt := true)
    else
      var keys := Hkdf(c, s.chainingKey, d);
      s.(chainingKey := keys.0, cipher := Cipher(Some(keys.1[..KEYLEN]), 0))
  }

  function SealAndHash(c: Crypto, s: Symmetric, pt: bytes): (Symmetric, bytes) {
    var r := Seal(c, s.cipher, s.digest, pt);
    (HashMixed(c, s.(cipher := r.0), r.1), r.1)
  }

  /** The ciphertext is mixed in even when it does not open. */
  function OpenAndHash(c: Crypto, s: Symmetric, ct: bytes): (Symmetric, Option<bytes>) {
    var r := Open(c, s.cipher, s.digest, ct);
    (HashMixed(c, s.(cipher := r.0), ct), r.1)
  }

  function Split(c: Crypto, s: Symmetric): (Key, Key) {
    var keys := Hkdf(c, s.chainingKey, []);
    (keys.0[..KEYLEN], keys.1[..KEYLEN])
  }

  datatype Handshake = Handshake(
    initiator: bool, complete: bool, corrupt: bool, index: nat, s: Keypair, e: Keypair, eGenerated: bool,
    rs: PubKey, re: PubKey, symmetric: Symmetric, tx: Key, rx: Key, hash: Hash)

  function Ascii(s: string): (r: bytes)
    ensures |r| == |s|
  {
    seq(|s|, i requires 0 <= i < |s| => s[i] as int % 0x100)
  }

  /** The protocol name, padded to the hash length. */
  const PROTOCOL_NAME: string := "Noise_IK_Ed25519_ChaChaPoly_BLAKE2b"

  function InitialHash(): Hash {
    Ascii(PROTOCOL_NAME) + Zeros(29)
  }

  /** Both sides mix in the responder's static key before the first message. */
  function Start(c: Crypto, initiator: bool, s: Keypair, prologue: bytes, remote: PubKey): Handshake {
    var h0 := Symmetric(InitialHash(), InitialHash(), false, Cipher(None, 0));
    var h1 := HashMixed(c, h0, prologue);
    var h2 := HashMixed(c, h1, if initiator then remote else s.pub);
    Handshake(initiator, false, false, 0, s, NO_KEYPAIR, false,
              if initiator then remote else ZERO_KEY, ZERO_KEY, h2, ZERO_KEY, ZERO_KEY, ZERO_HASH)
  }

  function Corrupted(h: Handshake, sym: Symmetric): Handshake {
    h.(symmetric := sym, corrupt := true)
  }

  /** After a message: the next one, or the end of the handshake. */
  function Advance(c: Crypto, h: Handshake, sym: Symmetric): Handshake {
    var g := h.(symmetric := sym, index := h.index + 1);
    if g.index < 2 then g
    else
      var keys := Split(c, sym);
      g.(tx := if h.initiator then keys.0 else keys.1, rx := if h.initiator then keys.1 else keys.0,
         hash := sym.digest, complete := true)
  }

  predicate MaySend(h: Handshake) {
    !h.complete && !h.corrupt && !(h.index == 0 && !h.initiator) && !(h.index == 1 && h.initiator)
  }

  predicate MayReceive(h: Handshake) {
    !h.complete && !h.corrupt && !(h.index == 0 && h.initiator) && !(h.index == 1 && !h.initiator)
  }

  function SentPayload(c: Crypto, h: Handshake, sym: Symmetric, out: bytes, payload: bytes): (Handshake, bytes) {
    var sealed := SealAndHash(c, sym, payload);
    (Advance(c, h, sealed.0), out + sealed.1)
  }

  /** e, es, s, ss. */
  function SentFirst(c: Crypto, h: Handshake, e: Keypair, payload: bytes): (Handshake, bytes) {
    var g := h.(e := e, eGenerated := true);
    var s1 := KeyMixed(c, HashMixed(c, h.symmetric, e.pub), h.rs, e);
    if s1.corrupt then (Corrupted(g, s1), [])
    else
      var sealed := SealAndHash(c, s1, h.s.pub);
      var s2 := KeyMixed(c, sealed.0, h.rs, h.s);
      if s2.corrupt then (Corrupted(g, s2), [])
      else SentPayload(c, g, s2, e.pub + sealed.1, payload)
  }

  /** e, ee, se. */
  function SentSecond(c: Crypto, h: Handshake, e: Keypair, payload: bytes): (Handshake, bytes) {
    var g := h.(e := e, eGenerated := true);
    var s1 := KeyMixed(c, HashMixed(c, h.symmetric, e.pub), h.re, e);
    if s1.corrupt then (Corrupted(g, s1), [])
    else
      var s2 := KeyMixed(c, s1, h.rs, e);
      if s2.corrupt then (Corrupted(g, s2), [])
      else SentPayload(c, g, s2, e.pub, payload)
  }

  function Ephemeral(h: Handshake, generated: Keypair): Keypair {
    if h.eGenerated then h.e else generated
  }

  /** send(): `generated` is the fresh key pair used when no ephemeral one has been set. */
  function Sent(c: Crypto, h: Handshake, payload: bytes, generated: Keypair): (Handshake, bytes) {
    if !MaySend(h) then (h, [])
    else if h.index == 0 then SentFirst(c, h, Ephemeral(h, generated), payload)
    else SentSecond(c, h, Ephemeral(h, generated), payload)
  }

  function ReceivedPayload(c: Crypto, h: Handshake, sym: Symmetric, ct: bytes): (Handshake, Option<bytes>) {
    var plain := OpenAndHash(c, sym, ct);
    if plain.1.None? then (Corrupted(h, plain.0), None) else (Advance(c, h, plain.0), plain.1)
  }

  /** s, ss: the remote static key, opened and mixed in. */
  function ReceivedStatic(c: Crypto, h: Handshake, ct: bytes): (Handshake, bool)
    requires TagLaw(c) && h.symmetric.cipher.key.Some? && |ct| == PKLEN + MACLEN
  {
    var plain := OpenAndHash(c, h.symmetric, ct);
    if plain.1.None? then (Corrupted(h, plain.0), false)
    else
      var g := h.(rs := plain.1.value[..PKLEN]);
      var s2 := KeyMixed(c, plain.0, g.rs, h.s);
      if s2.corrupt then (Corrupted(g, s2), false) else (g.(symmetric := s2), true)
  }

  function ReceivedFirst(c: Crypto, h: Handshake, msg: bytes): (Handshake, Option<bytes>)
    requires TagLaw(c)
  {
    if |msg| < PKLEN then (h.(corrupt := true), None)
    else
      var s1 := KeyMixed(c, HashMixed(c, h.symmetric, msg[..PKLEN]), msg[..PKLEN], h.s);
      var g := h.(re := msg[..PKLEN], symmetric := s1);
      if s1.corrupt || |msg| < 2 * PKLEN + MACLEN then (Corrupted(g, s1), None)
      else
        var (g2, ok) := ReceivedStatic(c, g, msg[PKLEN..2 * PKLEN + MACLEN]);
        if !ok then (g2, None) else ReceivedPayload(c, g2, g2.symmetric, msg[2 * PKLEN + MACLEN..])
  }

  function ReceivedSecond(c: Crypto, h: Handshake, msg: bytes): (Handshake, Option<bytes>) {
    if |msg| < PKLEN then (h.(corrupt := true), None)
    else
      var g := h.(re := msg[..PKLEN]);
      var s1 := KeyMixed(c, HashMixed(c, h.symmetric, msg[..PKLEN]), msg[..PKLEN], h.e);
      if s1.corrupt then (Corrupted(g, s1), None)
      else
        var s2 := KeyMixed(c, s1, msg[..PKLEN], h.s);
        if s2.corrupt then (Corrupted(g, s2), None) else ReceivedPayload(c, g, s2, msg[PKLEN..])
  }

  function Received(c: Crypto, h: Handshake, msg: bytes): (Handshake, Option<bytes>)
    requires TagLaw(c)
  {
    if !MayReceive(h) then (h, None)
    else if h.index == 0 then ReceivedFirst(c, h, msg)
    else ReceivedSecond(c, h, msg)
  }

  // ------------------------------------------------------------------------------------------
  // Two honest ends agree
  // ------------------------------------------------------------------------------------------

  ghost predicate Honest(c: Crypto, k: Keypair) {
    k.pub == c.publicOf(k.sec)
  }

  /** Whichever end computes it, a key is mixed in the same way. */
  lemma MixKeyAgrees(c: Crypto, s: Symmetric, a: Keypair, b: Keypair)
    requires DhLaw(c) && Honest(c, a) && Honest(c, b)
    ensures KeyMixed(c, s, b.pub, a) == KeyMixed(c, s, a.pub, b)
    ensures c.dh(a.sec, b.pub) == c.dh(b.sec, a.pub)
  {
    assert c.dh(a.sec, c.publicOf(b.sec)) == c.dh(b.sec, c.publicOf(a.sec));
  }

  /** What one end seals the other opens, and both are left in the same state. */
  lemma SealOpens(c: Crypto, s: Symmetric, pt: bytes)
    requires SealLaw(c) && s.cipher.key.Some? && s.cipher.nonce < MAX_COUNTER
    ensures OpenAndHash(c, s, SealAndHash(c, s, pt).1) == (SealAndHash(c, s, pt).0, Some(pt))
    ensures |SealAndHash(c, s, pt).1| == |pt| + MACLEN
    ensures SealAndHash(c, s, pt).0.corrupt == s.corrupt
  {
    var k, n, ad := s.cipher.key.value, BuildNonce(s.cipher.nonce), s.digest;
    assert c.open(k, n, ad, c.seal(k, n, ad, pt)) == Some(pt) && |c.seal(k, n, ad, pt)| == |pt| + MACLEN;
  }

  /** The sender's and the receiver's tail of a message. */
  lemma PayloadAgrees(c: Crypto, a: Handshake, b: Handshake, sym: Symmetric, out: bytes, payload: bytes)
    requires SealLaw(c) && sym.cipher.key.Some? && sym.cipher.nonce < MAX_COUNTER
    ensures var sent := SentPayload(c, a, sym, out, payload);
            var got := ReceivedPayload(c, b, sym, sent.1[|out|..]);
            && out <= sent.1 && |sent.1| == |out| + |payload| + MACLEN
            && sent.0 == Advance(c, a, SealAndHash(c, sym, payload).0)
            && got == (Advance(c, b, SealAndHash(c, sym, payload).0), Some(payload))
  {
    SealOpens(c, sym, payload);
    var sealed := SealAndHash(c, sym, payload).1;
    assert (out + sealed)[|out|..] == sealed;
  }

  ghost predicate NonZero(c: Crypto, a: Keypair, b: Keypair) {
    c.dh(a.sec, b.pub) != ZERO_KEY
  }

  /** The state of an end before the first message. */
  ghost predicate Fresh(h: Handshake) {
    !h.complete && !h.corrupt && h.index == 0 && !h.symmetric.corrupt
  }

  lemma FirstMessageAgrees(c: Crypto, i: Handshake, r: Handshake, e: Keypair, payload: bytes)
    requires Laws(c) && Fresh(i) && Fresh(r) && i.symmetric == r.symmetric && i.rs == r.s.pub
    requires Honest(c, i.s) && Honest(c, r.s) && Honest(c, e)
    ensures var sent := SentFirst(c, i, e, payload);
            var got := ReceivedFirst(c, r, sent.1);
            if NonZero(c, e, r.s) && NonZero(c, i.s, r.s) then
              && got.1 == Some(payload)
              && sent.0.symmetric == got.0.symmetric && !sent.0.symmetric.corrupt
              && sent.0 == i.(e := e, eGenerated := true, symmetric := sent.0.symmetric, index := 1)
              && got.0 == r.(re := e.pub, rs := i.s.pub, symmetric := sent.0.symmetric, index := 1)
              && |sent.1| == 2 * PKLEN + 2 * MACLEN + |payload|
            else sent.0.corrupt && got.0.corrupt && !sent.0.complete && !got.0.complete && got.1 == None
  {
    hide Laws, DhLaw, SealLaw, Hkdf, InitialHash;
    MixKeyAgrees(c, HashMixed(c, i.symmetric, e.pub), e, r.s) by { LawsAre(c); }
    var sent := SentFirst(c, i, e, payload);
    var s1 := KeyMixed(c, HashMixed(c, i.symmetric, e.pub), i.rs, e);
    if !s1.corrupt {
      SealOpens(c, s1, i.s.pub) by { LawsAre(c); }
      var sealed := SealAndHash(c, s1, i.s.pub);
      MixKeyAgrees(c, sealed.0, i.s, r.s) by { LawsAre(c); }
      var s2 := KeyMixed(c, sealed.0, i.rs, i.s);
      if !s2.corrupt {
        var out := e.pub + sealed.1;
        var g := r.(re := e.pub, rs := i.s.pub);
        PayloadAgrees(c, i.(e := e, eGenerated := true), g, s2, out, payload) by { LawsAre(c); }
        var msg := sent.1;
        assert msg[..PKLEN] == e.pub && msg[PKLEN..2 * PKLEN + MACLEN] == sealed.1 by {
          assert msg[..|out|] == out;
          assert out[..PKLEN] == e.pub && out[PKLEN..] == sealed.1;
        }
        assert i.s.pub[..PKLEN] == i.s.pub;
      }
    }
  }

  lemma SecondMessageAgrees(c: Crypto, i: Handshake, r: Handshake, e: Keypair, payload: bytes)
    requires Laws(c) && i.index == 1 && r.index == 1 && i.initiator && !r.initiator
    requires i.symmetric == r.symmetric && !i.symmetric.corrupt && r.re == i.e.pub && r.rs == i.s.pub
    requires !i.complete && !r.complete && !i.corrupt && !r.corrupt
    requires Honest(c, i.s) && Honest(c, i.e) && Honest(c, e)
    ensures var sent := SentSecond(c, r, e, payload);
            var got := ReceivedSecond(c, i, sent.1);
            if NonZero(c, e, i.e) && NonZero(c, e, i.s) then
              && got.1 == Some(payload)
              && sent.0.complete && got.0.complete && !sent.0.corrupt && !got.0.corrupt
              && sent.0.tx == got.0.rx && sent.0.rx == got.0.tx && sent.0.hash == got.0.hash
              && sent.0.rs == r.rs && got.0.rs == i.rs
              && |sent.1| == PKLEN + MACLEN + |payload|
            else sent.0.corrupt && got.0.corrupt && !sent.0.complete && !got.0.complete && got.1 == None
  {
    hide Laws, DhLaw, SealLaw, Hkdf, InitialHash;
    MixKeyAgrees(c, HashMixed(c, r.symmetric, e.pub), e, i.e) by { LawsAre(c); }
    var sent := SentSecond(c, r, e, payload);
    var s1 := KeyMixed(c, HashMixed(c, r.symmetric, e.pub), r.re, e);
    if !s1.corrupt {
      MixKeyAgrees(c, s1, e, i.s) by { LawsAre(c); }
      var s2 := KeyMixed(c, s1, r.rs, e);
      if !s2.corrupt {
        PayloadAgrees(c, r.(e := e, eGenerated := true), i.(re := e.pub), s2, e.pub, payload) by { LawsAre(c); }
        assert sent.1[..PKLEN] == e.pub;
      }
    }
  }

  /** The two-message run of two ends that share the prologue, the initiator knowing the responder's
      static key. It completes on both sides exactly when none of the four DH results is zero; then
      each side's sending key is the other's receiving key, the handshake hashes agree, both payloads
      are delivered and the responder has learned the initiator's static key. */
  lemma HonestEndsAgree(c: Crypto, si: Keypair, sr: Keypair, ei: Keypair, er: Keypair, prologue: bytes, p1: bytes,
                        p2: bytes, other: PubKey)
    requires Laws(c) && Honest(c, si) && Honest(c, sr) && Honest(c, ei) && Honest(c, er)
    ensures var i0, r0 := Start(c, true, si, prologue, sr.pub), Start(c, false, sr, prologue, other);
            var m1 := Sent(c, i0, p1, ei);
            var q1 := Received(c, r0, m1.1);
            var m2 := Sent(c, q1.0, p2, er);
            var q2 := Received(c, m1.0, m2.1);
            var i, r := q2.0, m2.0;
            if NonZero(c, ei, sr) && NonZero(c, si, sr) && NonZero(c, er, ei) && NonZero(c, er, si) then
              && i.complete && r.complete && !i.corrupt && !r.corrupt
              && i.tx == r.rx && i.rx == r.tx && i.hash == r.hash
              && q1.1 == Some(p1) && q2.1 == Some(p2)
              && r.rs == si.pub && i.rs == sr.pub
              && |m1.1| == 2 * PKLEN + 2 * MACLEN + |p1| && |m2.1| == PKLEN + MACLEN + |p2|
            else !i.complete && !r.complete && i.corrupt && r.corrupt
  {
    hide Hkdf, InitialHash, KeyMixed, SentFirst, ReceivedFirst, SentSecond, ReceivedSecond, Split;
    var i0, r0 := Start(c, true, si, prologue, sr.pub), Start(c, false, sr, prologue, other);
    FirstMessageAgrees(c, i0, r0, ei, p1);
    var m1 := SentFirst(c, i0, ei, p1);
    var q1 := ReceivedFirst(c, r0, m1.1);
    if NonZero(c, ei, sr) && NonZero(c, si, sr) {
      SecondMessageAgrees(c, m1.0, q1.0, er, p2);
    }
  }

  lemma LawsAre(c: Crypto)
    requires Laws(c)
    ensures TagLaw(c) && SealLaw(c) && DhLaw(c)
  {
  }

  /** A toy key exchange: a public key is the front of the secret, and two keys are added byte by byte
      without ever giving a zero. */
  function Front(secret: bytes): PubKey {
    (secret + Zeros(PKLEN))[..PKLEN]
  }

  function Mixed(secret: bytes, remote: PubKey): Key {
    seq(PKLEN, i requires 0 <= i < PKLEN =>
      var x: int, y: int := Front(secret)[i], remote[i];
      (x + y) % 0xFF + 1)
  }

  lemma MixedCommutes(a: bytes, b: bytes)
    ensures Mixed(a, Front(b)) == Mixed(b, Front(a))
  {
  }

  lemma MixedIsNotZero(a: bytes, p: PubKey)
    ensures Mixed(a, p) != ZERO_KEY
  {
    assert Mixed(a, p)[0] >= 1 && ZERO_KEY[0] == 0;
  }

  /** Primitives with these laws exist, with key exchanges that never give zero: so neither the laws nor
      the success of honest ends is empty. */
  lemma LawsCanBeMet()
    ensures exists c: Crypto :: Laws(c) && forall a: Keypair, b: Keypair :: NonZero(c, a, b)
  {
    var c := Crypto(Front, Mixed, _ => ZERO_HASH, (_, _) => ZERO_HASH,
      (_, _, _, pt) => pt + Zeros(MACLEN),
      (_, _, _, ct) => if |ct| < MACLEN then None else Some(ct[..|ct| - MACLEN]));
    forall k: Key, n: bytes, ad: bytes, pt: bytes
      ensures c.open(k, n, ad, c.seal(k, n, ad, pt)) == Some(pt) && |c.seal(k, n, ad, pt)| == |pt| + MACLEN
    {
      assert (pt + Zeros(MACLEN))[..|pt|] == pt;
    }
    forall a: bytes, b: bytes ensures c.dh(a, c.publicOf(b)) == c.dh(b, c.publicOf(a)) {
      MixedCommutes(a, b);
    }
    forall a: Keypair, b: Keypair ensures NonZero(c, a, b) {
      MixedIsNotZero(a.sec, b.pub);
    }
    assert Laws(c);
  }

  // ------------------------------------------------------------------------------------------
  // Every call sequence
  // ------------------------------------------------------------------------------------------

  /** Complete and corrupt exclude each other, and a handshake is complete after its second message. */
  ghost predicate Consistent(h: Handshake) {
    !(h.complete && h.corrupt) && (h.complete <==> h.index == 2) && h.index <= 2 && (h.symmetric.corrupt ==> h.corrupt)
  }

  lemma SentKeepsConsistent(c: Crypto, h: Handshake, payload: bytes, generated: Keypair)
    requires Consistent(h)
    ensures Consistent(Sent(c, h, payload, generated).0)
  {
    hide Hkdf, Split;
  }

  lemma ReceivedKeepsConsistent(c: Crypto, h: Handshake, msg: bytes)
    requires Consistent(h) && TagLaw(c)
    ensures Consistent(Received(c, h, msg).0)
  {
    hide Hkdf, Split;
  }

  datatype Call = SendCall(payload: bytes, generated: Keypair) | RecvCall(msg: bytes) | SetEphemeralCall(k: Keypair)

  function Step(c: Crypto, h: Handshake, call: Call): Handshake
    requires TagLaw(c)
  {
    match call
    case SendCall(p, g) => Sent(c, h, p, g).0
    case RecvCall(m) => Received(c, h, m).0
    case SetEphemeralCall(k) => h.(e := k, eGenerated := true)
  }

  function Run(c: Crypto, h: Handshake, calls: seq<Call>): Handshake
    requires TagLaw(c)
    decreases calls
  {
    if calls == [] then h else Run(c, Step(c, h, calls[0]), calls[1..])
  }

  /** Once complete or corrupt, no sequence of calls changes anything but the unused ephemeral key:
      keys, hash and the two flags stay; and from the start the two are never set together. */
  lemma {:induction false} CompleteAndCorruptAreAbsorbing(c: Crypto, h: Handshake, calls: seq<Call>)
    requires TagLaw(c) && Consistent(h)
    ensures Consistent(Run(c, h, calls))
    ensures h.complete || h.corrupt ==> Run(c, h, calls).(e := h.e, eGenerated := h.eGenerated) == h
    decreases calls
  {
    hide Hkdf, Split, SentFirst, SentSecond, ReceivedFirst, ReceivedSecond;
    if calls != [] {
      var g := Step(c, h, calls[0]);
      match calls[0] {
        case SendCall(p, k) => SentKeepsConsistent(c, h, p, k);
        case RecvCall(m) => ReceivedKeepsConsistent(c, h, m);
        case SetEphemeralCall(k) =>
      }
      CompleteAndCorruptAreAbsorbing(c, g, calls[1..]);
    }
  }

  // ------------------------------------------------------------------------------------------
  // The states as objects
  // ------------------------------------------------------------------------------------------

  /** No pair of key epoch and nonce occurs twice among the encryptions. */
  ghost predicate NoNonceReuse(log: seq<(nat, nat)>) {
    forall i, j :: 0 <= i < j < |log| ==> log[i].0 != log[j].0 || BuildNonce(log[i].1) != BuildNonce(log[j].1)
  }

  ghost predicate LogOk(log: seq<(nat, nat)>, epoch: nat, nonce: nat) {
    && (forall i :: 0 <= i < |log| ==>
       log[i].1 < MAX_COUNTER && (log[i].0 < epoch || (log[i].0 == epoch && log[i].1 < nonce)))
    && NoNonceReuse(log)
  }

  lemma LogExtended(log: seq<(nat, nat)>, epoch: nat, nonce: nat)
    requires LogOk(log, epoch, nonce) && nonce < MAX_COUNTER
    ensures LogOk(log + [(epoch, nonce)], epoch, nonce + 1)
  {
    hide BuildNonce;
    forall i | 0 <= i < |log| ensures log[i].0 != epoch || BuildNonce(log[i].1) != BuildNonce(nonce) {
      NonceInjective(log[i].1, nonce);
    }
  }

  class CipherState {
    const c: Crypto
    var key: Option<Key>
    var nonce: nat
    /** The number of keys set so far and, per encryption, the key's number and the counter used. */
    ghost var epoch: nat
    ghost var log: seq<(nat, nat)>

    ghost predicate Valid()
      reads this
    {
      LogOk(log, epoch, nonce)
    }

    function View(): Cipher
      reads this
    {
      Cipher(key, nonce)
    }

    constructor (c: Crypto)
      ensures Valid() && this.c == c && View() == Cipher(None, 0) && log == []
    {
      this.c, key, nonce, epoch, log := c, None, 0, 0, [];
    }

    method InitialiseKey(k: Key)
      requires Valid()
      modifies this
      ensures Valid() && View() == Cipher(Some(k), 0) && log == old(log) && epoch == old(epoch) + 1
    {
      hide BuildNonce;
      key, nonce := Some(k), 0;
      epoch := epoch + 1;
    }

    method EncryptWithAd(ad: bytes, pt: bytes) returns (ct: bytes)
      requires Valid()
      modifies this`nonce, this`log
      ensures Valid() && (View(), ct) == Seal(c, old(View()), ad, pt)
      ensures log == old(log) + (if nonce == old(nonce) then [] else [(epoch, old(nonce))])
    {
      hide LogOk;
      if key.None? {
        return pt;
      }
      if nonce >= MAX_COUNTER {
        return [];
      }
      ct := c.seal(key.value, BuildNonce(nonce), ad, pt);
      LogExtended(log, epoch, nonce);
      log := log + [(epoch, nonce)];
      nonce := nonce + 1;
    }

    method DecryptWithAd(ad: bytes, ct: bytes) returns (pt: Option<bytes>)
      requires Valid()
      modifies this`nonce
      ensures Valid() && (View(), pt) == Open(c, old(View()), ad, ct)
    {
      hide NoNonceReuse;
      if key.None? {
        return Some(ct);
      }
      if |ct| < MACLEN {
        return None;
      }
      pt := c.open(key.value, BuildNonce(nonce), ad, ct);
      if pt.Some? {
        nonce := nonce + 1;
      }
    }
  }

  class SymmetricState {
    const c: Crypto
    const cipher: CipherState
    var digest: Hash
    var chainingKey: Hash
    var corrupt: bool

    ghost predicate Valid()
      reads this, cipher
    {
      cipher.Valid() && cipher.c == c
    }

    function View(): Symmetric
      reads this, cipher
    {
      Symmetric(digest, chainingKey, corrupt, cipher.View())
    }

    constructor (c: Crypto, name: Hash)
      ensures Valid() && fresh(cipher) && this.c == c && View() == Symmetric(name, name, false, Cipher(None, 0)) &&
                cipher.log == []
    {
      this.c, digest, chainingKey, corrupt := c, name, name, false;
      cipher := new CipherState(c);
    }

    method MixHash(data: bytes)
      requires Valid()
      modifies this`digest
      ensures Valid() && View() == HashMixed(c, old(View()), data)
    {
      digest := c.hash(digest + data);
    }

    method MixKey(remote: PubKey, local: Keypair)
      requires Valid()
      modifies this, cipher
      ensures Valid() && View() == KeyMixed(c, old(View()), remote, local) && cipher.log == old(cipher.log)
    {
      var d := c.dh(local.sec, remote);
      if d == ZERO_KEY {
        corrupt := true;
        return;
      }
      var (ck, tempKey) := Hkdf(c, chainingKey, d);
      chainingKey := ck;
      cipher.InitialiseKey(tempKey[..KEYLEN]);
    }

    method EncryptAndHash(pt: bytes) returns (ct: bytes)
      requires Valid()
      modifies this`digest, cipher
      ensures Valid() && (View(), ct) == SealAndHash(c, old(View()), pt)
      ensures old(cipher.log) <= cipher.log
    {
      ct := cipher.EncryptWithAd(digest, pt);
      MixHash(ct);
    }

    method DecryptAndHash(ct: bytes) returns (pt: Option<bytes>)
      requires Valid()
      modifies this`digest, cipher
      ensures Valid() && (View(), pt) == OpenAndHash(c, old(View()), ct) && cipher.log == old(cipher.log)
    {
      pt := cipher.DecryptWithAd(digest, ct);
      MixHash(ct);
    }
  }

  class HandshakeState {
    const c: Crypto
    const initiator: bool
    const s: Keypair
    const symmetric: SymmetricState
    var complete: bool
    var corrupt: bool
    var index: nat
    var e: Keypair
    var eGenerated: bool
    var rs: PubKey
    var re: PubKey
    var tx: Key
    var rx: Key
    var hash: Hash

    ghost predicate Linked()
      reads this, symmetric, symmetric.cipher
    {
      symmetric.Valid() && symmetric.c == c && TagLaw(c)
    }

    /** What holds between calls. */
    ghost predicate Valid()
      reads this, symmetric, symmetric.cipher
    {
      Linked() && Consistent(View())
    }

    function View(): Handshake
      reads this, symmetric, symmetric.cipher
    {
      Handshake(initiator, complete, corrupt, index, s, e, eGenerated, rs, re, symmetric.View(), tx, rx, hash)
    }

    /** The encryptions made so far. */
    ghost function Log(): seq<(nat, nat)>
      reads this, symmetric, symmetric.cipher
    {
      symmetric.cipher.log
    }

    /** After any sequence of calls no nonce has been used twice to encrypt under one key. */
    lemma NoncesAreFresh()
      requires Linked()
      ensures NoNonceReuse(Log())
    {
      assert symmetric.cipher.Valid();
    }

    constructor (c: Crypto, initiator: bool, s: Keypair, prologue: bytes, remote: PubKey)
      requires TagLaw(c)
      ensures Valid() && fresh(symmetric) && fresh(symmetric.cipher) && this.c == c
      ensures View() == Start(c, initiator, s, prologue, remote)
    {
      this.c, this.initiator, this.s := c, initiator, s;
      complete, corrupt, index, e, eGenerated := false, false, 0, NO_KEYPAIR, false;
      rs, re, tx, rx, hash := if initiator then remote else ZERO_KEY, ZERO_KEY, ZERO_KEY, ZERO_KEY, ZERO_HASH;
      symmetric := new SymmetricState(c, InitialHash());
      new;
      symmetric.MixHash(prologue);
      if initiator {
        symmetric.MixHash(rs);
      } else {
        symmetric.MixHash(s.pub);
      }
    }

    method SetEphemeral(ephemeral: Keypair)
      requires Valid()
      modifies this`e, this`eGenerated
      ensures Valid() && View() == old(View()).(e := ephemeral, eGenerated := true) && Log() == old(Log())
    {
      e, eGenerated := ephemeral, true;
    }

    /** The end of a message, and of the handshake after the second one. */
    method Finish()
      requires Linked()
      modifies this
      ensures Linked() && View() == Advance(c, old(View()), symmetric.View()) && Log() == old(Log())
      ensures index == old(index) + 1
      ensures index >= 2 ==>
                var q := c.hmac(symmetric.chainingKey, []);
                var t := c.hmac(q, [1]);
                && complete && hash == symmetric.digest
                && (if initiator then tx else rx) == t[..32]
                && (if initiator then rx else tx) == c.hmac(q, t + [2])[..32]
    {
      hide LogOk, TagLaw;
      index := index + 1;
      if index >= 2 {
        var (k1, k2) := Split(c, symmetric.View());
        tx := if initiator then k1 else k2;
        rx := if initiator then k2 else k1;
        hash := symmetric.digest;
        complete := true;
      }
    }

    method Generate(generated: Keypair)
      requires Linked()
      modifies this`e, this`eGenerated, symmetric`digest
      ensures Linked() && Log() == old(Log())
      ensures var h := old(View());
              View() == h.(e := Ephemeral(h, generated), eGenerated := true,
                           symmetric := HashMixed(c, h.symmetric, Ephemeral(h, generated).pub))
    {
      if !eGenerated {
        e := generated;
        eGenerated := true;
      }
      symmetric.MixHash(e.pub);
    }

    /** Our ephemeral key, mixed in by itself and with a key of the other end. */
    method WriteEphemeral(generated: Keypair, remote: PubKey) returns (out: bytes)
      requires Linked()
      modifies this`e, this`eGenerated, symmetric, symmetric.cipher
      ensures Linked() && Log() == old(Log())
      ensures var h := old(View());
              var key := Ephemeral(h, generated);
              && out == key.pub
              && View() == h.(e := key, eGenerated := true,
                              symmetric := KeyMixed(c, HashMixed(c, h.symmetric, key.pub), remote, key))
    {
      hide LogOk, TagLaw, Hkdf, BuildNonce, Split, KeyMixed, HashMixed;
      Generate(generated);
      out := e.pub;
      symmetric.MixKey(remote, e);
    }

    /** The key part of the first message. */
    method WriteFirst(generated: Keypair) returns (out: bytes)
      requires Linked() && !complete && !corrupt && !symmetric.corrupt
      modifies this, symmetric, symmetric.cipher
      ensures Linked() && old(Log()) <= Log()
      ensures forall payload :: SentFirst(c, old(View()), Ephemeral(old(View()), generated), payload) ==
                (if corrupt then (View(), []) else SentPayload(c, View(), symmetric.View(), out, payload))
    {
      hide LogOk, TagLaw, Hkdf, BuildNonce, Split;
      out := WriteEphemeral(generated, rs);
      if symmetric.corrupt {
        corrupt := true;
        return;
      }
      var sealed := symmetric.EncryptAndHash(s.pub);
      out := out + sealed;
      symmetric.MixKey(rs, s);
      if symmetric.corrupt {
        corrupt := true;
      }
    }

    method WriteSecond(generated: Keypair) returns (out: bytes)
      requires Linked() && !complete && !corrupt && !symmetric.corrupt
      modifies this, symmetric, symmetric.cipher
      ensures Linked() && old(Log()) <= Log()
      ensures forall payload :: SentSecond(c, old(View()), Ephemeral(old(View()), generated), payload) ==
                (if corrupt then (View(), []) else SentPayload(c, View(), symmetric.View(), out, payload))
    {
      hide LogOk, TagLaw, Hkdf, BuildNonce, Split;
      out := WriteEphemeral(generated, re);
      if symmetric.corrupt {
        corrupt := true;
        return;
      }
      symmetric.MixKey(rs, e);
      if symmetric.corrupt {
        corrupt := true;
      }
    }

    method Send(payload: bytes, generated: Keypair) returns (out: bytes)
      requires Valid()
      modifies this, symmetric, symmetric.cipher
      ensures Valid() && (View(), out) == Sent(c, old(View()), payload, generated)
      ensures old(Log()) <= Log()
    {
      hide LogOk, TagLaw, SentFirst, SentSecond, Split, KeyMixed, HashMixed;
      SentKeepsConsistent(c, View(), payload, generated);
      if complete || corrupt {
        return [];
      }
      if index == 0 && !initiator {
        return [];
      }
      if index == 1 && initiator {
        return [];
      }
      if index == 0 {
        out := WriteFirst(generated);
      } else {
        out := WriteSecond(generated);
      }
      if corrupt {
        return [];
      }
      var sealed := symmetric.EncryptAndHash(payload);
      out := out + sealed;
      Finish();
    }

    /** The remote ephemeral key, mixed in by itself and with one of our keys. */
    method ReadEphemeral(remote: PubKey, local: Keypair)
      requires Linked()
      modifies this`re, symmetric, symmetric.cipher
      ensures Linked() && Log() == old(Log())
      ensures View() ==
                old(View()).(re := remote,
                             symmetric := KeyMixed(c, HashMixed(c, old(symmetric.View()), remote), remote, local))
    {
      hide LogOk, TagLaw, Hkdf, BuildNonce, Split;
      re := remote;
      symmetric.MixHash(re);
      symmetric.MixKey(re, local);
    }

    method ReadStatic(ct: bytes) returns (ok: bool)
      requires Linked() && symmetric.cipher.key.Some? && |ct| == PKLEN + MACLEN && !corrupt
      modifies this, symmetric, symmetric.cipher
      ensures Linked() && Log() == old(Log()) && ok == !corrupt
      ensures (View(), ok) == ReceivedStatic(c, old(View()), ct)
    {
      hide LogOk, Hkdf, BuildNonce, Split;
      var remoteStatic := symmetric.DecryptAndHash(ct);
      if remoteStatic.None? {
        corrupt := true;
        return false;
      }
      rs := remoteStatic.value[..PKLEN];
      symmetric.MixKey(rs, s);
      if symmetric.corrupt {
        corrupt := true;
        return false;
      }
      ok := true;
    }

    /** The key part of a received first message; what is left is the sealed payload. */
    method ReadFirst(msg: bytes) returns (rest: bytes)
      requires Linked() && !complete && !corrupt && !symmetric.corrupt
      modifies this, symmetric, symmetric.cipher
      ensures Linked() && Log() == old(Log())
      ensures ReceivedFirst(c, old(View()), msg) ==
                (if corrupt then (View(), None) else ReceivedPayload(c, View(), symmetric.View(), rest))
    {
      hide LogOk, Hkdf, BuildNonce, Split, ReceivedStatic;
      rest := [];
      if |msg| < PKLEN {
        corrupt := true;
        return;
      }
      ReadEphemeral(msg[..PKLEN], s);
      if symmetric.corrupt {
        corrupt := true;
        return;
      }
      if |msg| < 2 * PKLEN + MACLEN {
        corrupt := true;
        return;
      }
      var ok := ReadStatic(msg[PKLEN..2 * PKLEN + MACLEN]);
      if !ok {
        return;
      }
      rest := msg[2 * PKLEN + MACLEN..];
    }

    method ReadSecond(msg: bytes) returns (rest: bytes)
      requires Linked() && !complete && !corrupt && !symmetric.corrupt
      modifies this, symmetric, symmetric.cipher
      ensures Linked() && Log() == old(Log())
      ensures ReceivedSecond(c, old(View()), msg) ==
                (if corrupt then (View(), None) else ReceivedPayload(c, View(), symmetric.View(), rest))
    {
      hide LogOk, TagLaw, Hkdf, BuildNonce, Split;
      rest := [];
      if |msg| < PKLEN {
        corrupt := true;
        return;
      }
      ReadEphemeral(msg[..PKLEN], e);
      if symmetric.corrupt {
        corrupt := true;
        return;
      }
      symmetric.MixKey(re, s);
      if symmetric.corrupt {
        corrupt := true;
        return;
      }
      rest := msg[PKLEN..];
    }

    method Recv(msg: bytes) returns (payload: Option<bytes>)
      requires Valid()
      modifies this, symmetric, symmetric.cipher
      ensures Valid() && (View(), payload) == Received(c, old(View()), msg)
      ensures Log() == old(Log())
    {
      hide LogOk, TagLaw, ReceivedFirst, ReceivedSecond, Split, KeyMixed, HashMixed;
      ReceivedKeepsConsistent(c, View(), msg);
      if complete || corrupt {
        return None;
      }
      if index == 0 && initiator {
        return None;
      }
      if index == 1 && !initiator {
        return None;
      }
      var rest;
      if index == 0 {
        rest := ReadFirst(msg);
      } else {
        rest := ReadSecond(msg);
      }
      if corrupt {
        return None;
      }
      payload := symmetric.DecryptAndHash(rest);
      if payload.None? {
        corrupt := true;
        return;
      }
      Finish();
    }
  }
}
