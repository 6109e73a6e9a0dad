/** Mutable and immutable storage over the LRU caches (src/rpc_handlers.cpp:657-823).

    Token validation, the hash and the signature check are parameters. */
module Storage {
  import opened Wrappers
  import opened Bytes
  import opened Varints
  import opened Compact
  import opened Fields
  import opened Messages
  import Lru = LruCache

  const MAX_VALUE: nat := 32768
  const ERR_SEQ_REUSED: u32 := 16
  const ERR_SEQ_TOO_LOW: u32 := 17

  /** What a put leads to: nothing at all, an error reply, or storage. */
  datatype Outcome = Dropped | Refused(error: u32) | Stored

  ghost predicate Storable(m: MutableGet) {
    0 < |m.value| <= MAX_VALUE && |m.signature| == 64
  }

  /** Every entry is the encoding of the last put accepted for its key. */
  ghost predicate Faithful(entries: seq<Lru.Entry<bytes, bytes>>, last: map<bytes, MutableGet>) {
    forall e :: e in entries ==> e.key in last && Storable(last[e.key]) && e.value == EncodeGet(last[e.key])
  }

  type Verify = (bytes, nat, bytes, bytes) -> bool

  /** What is kept for a key is signed with a public key that hashes to it. */
  ghost predicate SignedBy(hash: bytes -> bytes, verify: Verify, last: map<bytes, MutableGet>,
                           signer: map<bytes, bytes>)
  {
    forall k :: k in last ==>
      && k in signer && hash(signer[k]) == k
      && verify(last[k].signature, last[k].sequence, last[k].value, signer[k])
  }

  lemma SignedOneMore(hash: bytes -> bytes, verify: Verify, last: map<bytes, MutableGet>,
                      signer: map<bytes, bytes>, m: MutableGet, publicKey: bytes)
    requires SignedBy(hash, verify, last, signer) && verify(m.signature, m.sequence, m.value, publicKey)
    ensures SignedBy(hash, verify, last[hash(publicKey) := m], signer[hash(publicKey) := publicKey])
  {
  }

  lemma {:induction false} WithoutMembers<V>(s: seq<Lru.Entry<bytes, V>>, k: bytes)
    requires Lru.DistinctKeys(s)
    ensures forall e :: e in Lru.Without(s, k) ==> e in s && e.key != k
    ensures forall e :: e in s && e.key != k ==> e in Lru.Without(s, k)
  {
    if s != [] {
      assert forall e :: e in s <==> e == s[0] || e in s[1..];
      if s[0].key == k {
        assert forall i :: 0 < i < |s| ==> s[i].key != k;
      } else {
        WithoutMembers(s[1..], k);
      }
    }
  }

  lemma StoredDecodes(m: MutableGet)
    requires Storable(m)
    ensures DecodeGet(EncodeGet(m)) == Some(m) && GetFields(EncodeGet(m)) == m
  {
    GetTripIffSmall(m);
  }

  /** A lookup of a cached key moves its entry to the front; a miss changes nothing. */
  ghost predicate Used<V>(before: seq<Lru.Entry<bytes, V>>, after: seq<Lru.Entry<bytes, V>>, key: bytes, hit: bool) {
    if hit then after != [] && after[0] in before && after[0].key == key && after[1..] == Lru.Without(before, key)
    else after == before
  }

  /** A put leads the list with its value; of the others only what no longer fits is lost, from the back. */
  ghost predicate Led<V>(before: seq<Lru.Entry<bytes, V>>, after: seq<Lru.Entry<bytes, V>>, key: bytes, value: V,
                         now: nat, known: bool, max: nat)
  {
    && after != [] && after[0].key == key && after[0].value == value && after[0].createdAt == now
    && after[1..] == if known then Lru.Without(before, key)
                     else before[..if |before| < Lru.Cap(max) then |before| else Lru.Cap(max) - 1]
  }

  lemma UsedThenLed<V>(before: seq<Lru.Entry<bytes, V>>, used: seq<Lru.Entry<bytes, V>>,
                       after: seq<Lru.Entry<bytes, V>>, key: bytes, value: V, now: nat, known: bool, max: nat)
    requires Used(before, used, key, known) && Led(used, after, key, value, now, known, max)
    ensures Led(before, after, key, value, now, known, max)
  {
  }

  class Store {
    const hash: bytes -> bytes
    const verify: Verify
    const mutables: Lru.LruCache<bytes, bytes>
    const immutables: Lru.LruCache<bytes, bytes>

    /** The last put accepted per key. */
    ghost var last: map<bytes, MutableGet>
    /** The public key that put was signed with. */
    ghost var signer: map<bytes, bytes>

    ghost predicate Valid()
      reads this, mutables, immutables
    {
      && mutables.Valid() && immutables.Valid() && mutables != immutables
      && Faithful(mutables.entries, last)
      && SignedBy(hash, verify, last, signer)
      && (forall e :: e in immutables.entries ==> hash(e.value) == e.key && 0 < |e.value| <= MAX_VALUE)
    }

    /** A put that is let through: complete, with a valid token, signed for its target, of a legal size. */
    predicate Admissible(req: Request, tokenValid: bool) {
      && req.target.Some? && req.token.Some? && req.value.Some? && tokenValid
      && var p := PutFields(req.value.value);
         hash(p.publicKey) == req.target.value && 0 < |p.value| <= MAX_VALUE &&
           verify(p.signature, p.sequence, p.value, p.publicKey)
    }

    constructor (hash: bytes -> bytes, verify: Verify, maxSize: nat)
      ensures Valid() && fresh(mutables) && fresh(immutables) && mutables.entries == [] && immutables.entries == [] &&
                last == map[]
    {
      this.hash, this.verify, last, signer := hash, verify, map[], map[];
      mutables := new Lru.LruCache<bytes, bytes>(if maxSize / 2 == 0 then 1 else maxSize / 2);
      immutables := new Lru.LruCache<bytes, bytes>(if maxSize / 2 == 0 then 1 else maxSize / 2);
    }

    /** MUTABLE_PUT. A put is stored only if it is signed for the target and does not go back: a
        sequence number never decreases, and a different value needs a larger one. */
    method HandleMutablePut(req: Request, tokenValid: bool, now: nat) returns (r: Outcome)
      requires Valid()
      modifies this, mutables
      ensures Valid() && immutables.entries == old(immutables.entries)
      ensures r != Dropped <==>
                && tokenValid && req.target.Some? && req.token.Some? && req.value.Some?
                && var p := PutFields(req.value.value);
                   && hash(p.publicKey) == req.target.value && 0 < |p.value| <= 32768
                   && verify(p.signature, p.sequence, p.value, p.publicKey)
      ensures !Admissible(req, tokenValid) ==>
                r == Dropped && mutables.entries == old(mutables.entries) && last == old(last)
      ensures Admissible(req, tokenValid) ==>
                var p, k := PutFields(req.value.value), req.target.value;
                var m := MutableGet(p.sequence, p.value, p.signature);
                var known := k in old(mutables.index);
                && (known ==> k in old(last))
                && (if known && old(last)[k].sequence == p.sequence && old(last)[k].value != p.value then
                   r == Refused(16)
                    else if known && p.sequence < old(last)[k].sequence then r == Refused(17)
                    else r == Stored)
                && (if r == Stored then
                      last == old(last)[k := m] && Led(old(mutables.entries), mutables.entries, k, EncodeGet(m), now,
                        known, mutables.maxSize)
                    else
                      last == old(last) && Used(old(mutables.entries), mutables.entries, k, true))
      ensures r == Stored ==>
                forall k :: k in old(mutables.index) && k in old(last) ==>
                  && k in last && last[k].sequence >= old(last)[k].sequence
                  && (last[k].value != old(last)[k].value ==> last[k].sequence > old(last)[k].sequence)
    {
      hide PutFields, GetFields, Faithful, SignedBy, EncodeGet, Used, Led;
      if req.target.None? || req.token.None? || req.value.None? {
        return Dropped;
      }
      if !tokenValid {
        return Dropped;
      }
      var put := PutFields(req.value.value);
      if hash(put.publicKey) != req.target.value {
        return Dropped;
      }
      if put.value == [] || |put.value| > MAX_VALUE {
        return Dropped;
      }
      if !verify(put.signature, put.sequence, put.value, put.publicKey) {
        return Dropped;
      }
      var key := req.target.value;
      ghost var before := mutables.entries;
      var existing := Lookup(key);
      ghost var used := mutables.entries;
      if existing.Some? {
        var e := GetFields(existing.value);
        if e.sequence == put.sequence && e.value != put.value {
          return Refused(ERR_SEQ_REUSED);
        }
        if put.sequence < e.sequence {
          return Refused(ERR_SEQ_TOO_LOW);
        }
      }
      var m := MutableGet(put.sequence, put.value, put.signature);
      Keep(key, m, put.publicKey, now);
      UsedThenLed(before, used, mutables.entries, key, EncodeGet(m), now, existing.Some?, mutables.maxSize);
      r := Stored;
    }

    /** The cache lookup, which counts as a use. */
    method Lookup(key: bytes) returns (r: Option<bytes>)
      requires Valid()
      modifies mutables
      ensures Valid() && mutables.index == old(mutables.index)
      ensures r.Some? <==> key in mutables.index
      ensures r.Some? ==>
                key in last && Storable(last[key]) && r.value == EncodeGet(last[key]) && GetFields(r.value) == last[key]
      ensures r.Some? ==> DecodeGet(r.value) == Some(last[key])
      ensures Used(old(mutables.entries), mutables.entries, key, r.Some?)
    {
      hide EncodeGet, Lru.ListOk, GetFields, SignedBy;
      ghost var before := mutables.entries;
      KeysAreDistinct();
      r := mutables.Get(key);
      if r.Some? {
        WithoutMembers(before, key);
        StillFaithful(before, mutables.entries, last);
        StoredDecodes(last[key]);
      }
    }

    lemma KeysAreDistinct()
      requires Valid()
      ensures Lru.DistinctKeys(mutables.entries)
    {
    }

    method Keep(key: bytes, m: MutableGet, ghost publicKey: bytes, now: nat)
      requires Valid() && Storable(m)
      requires hash(publicKey) == key && verify(m.signature, m.sequence, m.value, publicKey)
      modifies this`last, this`signer, mutables
      ensures Valid() && last == old(last)[key := m]
      ensures Led(old(mutables.entries), mutables.entries, key, EncodeGet(m), now, key in old(mutables.index),
                mutables.maxSize)
    {
      hide EncodeGet, Lru.ListOk, SignedBy;
      ghost var before, known := mutables.entries, last;
      SignedOneMore(hash, verify, last, signer, m, publicKey);
      KeysAreDistinct();
      WithoutMembers(before, key);
      KnownKeys();
      mutables.Put(key, EncodeGet(m), now);
      last := last[key := m];
      signer := signer[key := publicKey];
      StillFaithfulAfterPut(before, mutables.entries, known, key, m);
    }

    lemma AreSigned(k: bytes)
      requires Valid()
      ensures k in last ==>
                && k in signer && hash(signer[k]) == k
                && verify(last[k].signature, last[k].sequence, last[k].value, signer[k])
    {
    }

    lemma KnownKeys()
      requires Valid()
      ensures forall e :: e in mutables.entries ==> e.key in mutables.index
    {
    }

    /** MUTABLE_GET: the stored bytes, if their sequence number is at least the requested one. */
    method HandleMutableGet(req: Request) returns (replied: bool, value: Option<bytes>)
      requires Valid()
      modifies mutables
      ensures Valid() && mutables.index == old(mutables.index)
      ensures replied == (req.target.Some? && req.value.Some?)
      ensures !replied ==> value == None && mutables.entries == old(mutables.entries)
      ensures replied ==>
                var k := req.target.value;
                var asked := Requested(req.value.value);
                && (value.Some? <==> k in mutables.index && k in last && last[k].sequence >= asked)
                && (value.Some? ==> DecodeGet(value.value) == Some(last[k]))
                && (value.Some? ==>
                      && k in signer && hash(signer[k]) == k
                      && verify(last[k].signature, last[k].sequence, last[k].value, signer[k]))
                && Used(old(mutables.entries), mutables.entries, k, k in mutables.index)
    {
      hide Used, GetFields, Faithful, SignedBy, EncodeGet, DecodeGet, Requested;
      value := None;
      if req.target.Some? {
        AreSigned(req.target.value);
      }
      if req.target.None? || req.value.None? {
        return false, None;
      }
      var asked := Requested(req.value.value);
      var stored := Lookup(req.target.value);
      if stored.Some? {
        var local := GetFields(stored.value);
        if local.sequence >= asked {
          value := stored;
        }
      }
      replied := true;
    }

    /** IMMUTABLE_PUT: a value is stored under its own hash. */
    method HandleImmutablePut(req: Request, tokenValid: bool, now: nat) returns (r: Outcome)
      requires Valid()
      modifies immutables
      ensures Valid() && mutables.entries == old(mutables.entries)
      ensures r == Dropped || r == Stored
      ensures r == Stored <==>
                req.target.Some? && req.token.Some? && req.value.Some? && 0 < |req.value.value| <= 32768 &&
                  tokenValid &&
                hash(req.value.value) == req.target.value
      ensures r == Stored ==>
                var k := req.target.value;
                && k in immutables.index
                && Led(old(immutables.entries), immutables.entries, k, req.value.value, now,
                   k in old(immutables.index), immutables.maxSize)
      ensures r == Dropped ==> immutables.entries == old(immutables.entries)
    {
      hide Faithful, SignedBy, Lru.ListOk;
      if req.target.None? || req.token.None? || req.value.None? || req.value.value == [] {
        return Dropped;
      }
      if |req.value.value| > MAX_VALUE {
        return Dropped;
      }
      if !tokenValid {
        return Dropped;
      }
      if hash(req.value.value) != req.target.value {
        return Dropped;
      }
      ghost var before := immutables.entries;
      ImmutableKeys();
      WithoutMembers(before, req.target.value);
      immutables.Put(req.target.value, req.value.value, now);
      FrontAndRest(immutables.entries);
      PresentAfterPut();
      r := Stored;
    }

    lemma ImmutableKeys()
      requires Valid()
      ensures Lru.DistinctKeys(immutables.entries)
    {
    }

    lemma PresentAfterPut()
      requires immutables.Valid()
      ensures forall e :: e in immutables.entries ==> e.key in immutables.index
    {
    }

    /** IMMUTABLE_GET: whatever comes back hashes to the target. */
    method HandleImmutableGet(req: Request) returns (value: Option<bytes>)
      requires Valid()
      modifies immutables
      ensures Valid() && immutables.index == old(immutables.index)
      ensures value.Some? <==> req.target.Some? && req.target.value in immutables.index
      ensures value.Some? ==>
                hash(value.value) == req.target.value && immutables.entries != [] &&
                value == Some(immutables.entries[0].value)
      ensures if req.target.None? then immutables.entries == old(immutables.entries)
              else Used(old(immutables.entries), immutables.entries, req.target.value, value.Some?)
    {
      hide Faithful, SignedBy, Lru.ListOk;
      if req.target.None? {
        return None;
      }
      ghost var before := immutables.entries;
      ImmutableKeys();
      WithoutMembers(before, req.target.value);
      value := immutables.Get(req.target.value);
      if value.Some? {
        FrontAndRest(immutables.entries);
      }
    }
  }

  /** The sequence number asked for: 0 if there is none or it does not decode. */
  function Requested(value: bytes): nat {
    match DecUint(value)
    case None => 0
    case Some((v, _)) => v
  }

  /** It is the number that the value encodes, whatever follows. */
  lemma RequestedIs(sequence: u64, rest: bytes)
    ensures Requested(Varint(sequence) + rest) == sequence && Requested([]) == 0
  {
    hide Varint;
    UintTrip(sequence, rest);
  }

  lemma FrontAndRest<T>(s: seq<T>)
    requires s != []
    ensures s == [s[0]] + s[1..]
  {
  }

  lemma StillFaithful(before: seq<Lru.Entry<bytes, bytes>>, after: seq<Lru.Entry<bytes, bytes>>,
                      last: map<bytes, MutableGet>)
    requires Faithful(before, last) && after != [] && after[0] in before && forall e :: e in after[1..] ==> e in before
    ensures Faithful(after, last)
  {
    FrontAndRest(after);
  }

  lemma StillFaithfulAfterPut(before: seq<Lru.Entry<bytes, bytes>>, after: seq<Lru.Entry<bytes, bytes>>,
                              last: map<bytes, MutableGet>,
                              key: bytes, m: MutableGet)
    requires Faithful(before, last) && Storable(m)
    requires after != [] && after[0].key == key && after[0].value == EncodeGet(m)
    requires forall e :: e in after[1..] ==> e in before && e.key != key
    ensures Faithful(after, last[key := m])
  {
    FrontAndRest(after);
  }
}
