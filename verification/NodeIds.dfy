/** 256-bit node ids, their XOR distance and the bucket index (src/routing_table.cpp:19-39).

    Distances are defined here on the bits of an id, from the first bit in which two ids differ;
    the byte loops of the source are proved to compute exactly these definitions. */
module NodeIds {

  const ID_LEN: nat := 32
  const ID_BITS: nat := 256

  const ZEROES: seq<bv8> :=
    [0, 0, 0, 0, 0, 0, 0, 0, 0, 0, 0, 0, 0, 0, 0, 0, 0, 0, 0, 0, 0, 0, 0, 0, 0, 0, 0, 0, 0, 0, 0, 0]

  type NodeId = s: seq<bv8> | |s| == ID_LEN witness ZEROES

  const ZERO_ID: NodeId := ZEROES

  /** Bit j of a byte, counted from the most significant one. */
  predicate ByteBit(b: bv8, j: nat)
    requires j < 8
  {
    if j == 0 then b & 0x80 != 0 else if j == 1 then b & 0x40 != 0
    else if j == 2 then b & 0x20 != 0 else if j == 3 then b & 0x10 != 0
    else if j == 4 then b & 0x08 != 0 else if j == 5 then b & 0x04 != 0
    else if j == 6 then b & 0x02 != 0 else b & 0x01 != 0
  }

  predicate Bit(id: NodeId, k: nat)
    requires k < ID_BITS
  {
    ByteBit(id[k / 8], k % 8)
  }

  /** The first position at or after `from` in which the two ids differ, ID_BITS if there is none. */
  function FirstDiff(a: NodeId, b: NodeId, from: nat): (r: nat)
    requires from <= ID_BITS
    ensures from <= r <= ID_BITS
    ensures forall j :: from <= j < r ==> Bit(a, j) == Bit(b, j)
    ensures r < ID_BITS ==> Bit(a, r) != Bit(b, r)
    decreases ID_BITS - from
  {
    if from == ID_BITS || Bit(a, from) != Bit(b, from) then from else FirstDiff(a, b, from + 1)
  }

  /** Length of the common bit prefix: the index of the bucket in which one id stores the other. */
  function Prefix(a: NodeId, b: NodeId): (r: nat)
    ensures r <= ID_BITS
  {
    FirstDiff(a, b, 0)
  }

  /** a is strictly nearer to t than b in the XOR metric: where a and b first differ, a agrees with t. */
  predicate Nearer(t: NodeId, a: NodeId, b: NodeId) {
    var k := Prefix(a, b);
    k < ID_BITS && Bit(a, k) == Bit(t, k)
  }

  /** The lexicographic order of the id arrays, which is the distance to the zero id. */
  predicate IdLess(a: NodeId, b: NodeId) {
    Nearer(ZERO_ID, a, b)
  }

  // ------------------------------------------------------------------------------------------
  // Order theory of the metric
  // ------------------------------------------------------------------------------------------

  lemma PrefixIs(a: NodeId, b: NodeId, k: nat)
    requires k <= ID_BITS
    requires forall j :: 0 <= j < k ==> Bit(a, j) == Bit(b, j)
    requires k < ID_BITS ==> Bit(a, k) != Bit(b, k)
    ensures Prefix(a, b) == k == Prefix(b, a)
  {
  }

  lemma PrefixAtLeast(a: NodeId, b: NodeId, n: nat)
    requires n <= ID_BITS && forall j :: 0 <= j < n ==> Bit(a, j) == Bit(b, j)
    ensures Prefix(a, b) >= n
  {
  }

  lemma ByteExtensional(a: bv8, b: bv8)
    requires forall j :: 0 <= j < 8 ==> ByteBit(a, j) == ByteBit(b, j)
    ensures a == b
  {
    assert ByteBit(a, 0) == ByteBit(b, 0) && ByteBit(a, 1) == ByteBit(b, 1);
    assert ByteBit(a, 2) == ByteBit(b, 2) && ByteBit(a, 3) == ByteBit(b, 3);
    assert ByteBit(a, 4) == ByteBit(b, 4) && ByteBit(a, 5) == ByteBit(b, 5);
    assert ByteBit(a, 6) == ByteBit(b, 6) && ByteBit(a, 7) == ByteBit(b, 7);
  }

  lemma FullPrefixIffEqual(a: NodeId, b: NodeId)
    ensures Prefix(a, b) == ID_BITS <==> a == b
  {
    if Prefix(a, b) == ID_BITS {
      forall i | 0 <= i < ID_LEN ensures a[i] == b[i] {
        SameBitsSameByte(a, b, i);
      }
    }
  }

  lemma SameBitsSameByte(a: NodeId, b: NodeId, i: nat)
    requires i < ID_LEN && forall k :: 0 <= k < ID_BITS ==> Bit(a, k) == Bit(b, k)
    ensures a[i] == b[i]
  {
    forall j | 0 <= j < 8 ensures ByteBit(a[i], j) == ByteBit(b[i], j) {
      assert Bit(a, 8 * i + j) == Bit(b, 8 * i + j);
    }
    ByteExtensional(a[i], b[i]);
  }

  /** Of two different ids exactly one is nearer: XOR distances never tie. */
  lemma NearerTotal(t: NodeId, a: NodeId, b: NodeId)
    ensures a == b ==> !Nearer(t, a, b)
    ensures a != b ==> (Nearer(t, a, b) <==> !Nearer(t, b, a))
  {
    FullPrefixIffEqual(a, b);
    PrefixIs(a, b, Prefix(a, b));
  }

  lemma NothingNearerThanItself(t: NodeId, a: NodeId)
    requires a != t
    ensures Nearer(t, t, a)
  {
    FullPrefixIffEqual(t, a);
  }

  lemma NearerTransitive(t: NodeId, a: NodeId, b: NodeId, c: NodeId)
    requires Nearer(t, a, b) && Nearer(t, b, c)
    ensures Nearer(t, a, c)
  {
    var k, m := Prefix(a, b), Prefix(b, c);
    PrefixIs(a, c, if k < m then k else m);
  }

  /** a longer common prefix with the target means a smaller distance. */
  lemma LongerPrefixIsNearer(t: NodeId, a: NodeId, b: NodeId)
    requires Prefix(t, a) > Prefix(t, b)
    ensures Nearer(t, a, b)
  {
    PrefixIs(a, b, Prefix(t, b));
  }

  /** The bucket of x under the local id, against the bucket d of the target, fixes how far x is
      from the target: beyond d all nodes share exactly d bits with it, before d exactly their own
      bucket index, and in d itself strictly more than d. */
  lemma PrefixThroughLocal(local: NodeId, t: NodeId, x: NodeId)
    ensures Prefix(local, x) < Prefix(local, t) ==> Prefix(t, x) == Prefix(local, x)
    ensures Prefix(local, x) > Prefix(local, t) ==> Prefix(t, x) == Prefix(local, t)
    ensures Prefix(local, x) == Prefix(local, t) < ID_BITS ==> Prefix(t, x) > Prefix(local, t)
  {
    hide Bit, FirstDiff;
    var d, i := Prefix(local, t), Prefix(local, x);
    if i < d {
      PrefixIs(t, x, i);
    } else if d < i {
      PrefixIs(t, x, d);
    } else if i < ID_BITS {
      forall j | 0 <= j <= d ensures Bit(t, j) == Bit(x, j) {
      }
      PrefixAtLeast(t, x, d + 1);
    }
  }

  // ------------------------------------------------------------------------------------------
  // The byte loops
  // ------------------------------------------------------------------------------------------

  /** std::countl_zero of a byte. */
  function CountLeadingZeros(b: bv8): nat {
    if b >= 0x80 then 0 else if b >= 0x40 then 1 else if b >= 0x20 then 2 else if b >= 0x10 then 3
    else if b >= 0x08 then 4 else if b >= 0x04 then 5 else if b >= 0x02 then 6 else if b == 1 then 7 else 8
  }

  ghost predicate Same(a: bv8, b: bv8, i: nat)
    requires i < 8
  {
    ByteBit(a, i) == ByteBit(b, i)
  }

  /** j is the first bit in which the two bytes differ. */
  ghost predicate FirstDifferingBit(a: bv8, b: bv8, j: nat) {
    j < 8 && !Same(a, b, j) && forall i :: 0 <= i < j ==> Same(a, b, i)
  }

  /** Bit j alone decides how the distances of a and b to t compare. */
  ghost predicate Decides(t: bv8, a: bv8, b: bv8, j: nat) {
    j < 8 && (t ^ a < t ^ b <==> ByteBit(a, j) == ByteBit(t, j)) && t ^ a != t ^ b
  }

  // Bit-vector facts, with constant positions and split so that each is cheap.

  lemma XorZero(a: bv8, b: bv8)
    ensures a ^ b == 0 <==> a == b
  {
  }

  lemma DecidesHigh(t: bv8, a: bv8, b: bv8)
    ensures !Same(a, b, 0) ==> Decides(t, a, b, 0)
    ensures Same(a, b, 0) && !Same(a, b, 1) ==> Decides(t, a, b, 1)
    ensures Same(a, b, 0) && Same(a, b, 1) && !Same(a, b, 2) ==> Decides(t, a, b, 2)
    ensures Same(a, b, 0) && Same(a, b, 1) && Same(a, b, 2) && !Same(a, b, 3) ==> Decides(t, a, b, 3)
  {
  }

  lemma DecidesLow(t: bv8, a: bv8, b: bv8)
    ensures Same(a, b, 0) && Same(a, b, 1) && Same(a, b, 2) && Same(a, b, 3) && !Same(a, b, 4) ==> Decides(t, a, b, 4)
    ensures Same(a, b, 0) && Same(a, b, 1) && Same(a, b, 2) && Same(a, b, 3) && Same(a, b, 4) && !Same(a, b, 5) ==>
              Decides(t, a, b, 5)
  {
  }

  lemma DecidesSix(t: bv8, a: bv8, b: bv8)
    ensures Same(a, b, 0) && Same(a, b, 1) && Same(a, b, 2) && Same(a, b, 3) && Same(a, b, 4) ==>
              Same(a, b, 5) && !Same(a, b, 6) ==> Decides(t, a, b, 6)
  {
  }

  lemma DecidesLast(t: bv8, a: bv8, b: bv8)
    ensures Same(a, b, 0) && Same(a, b, 1) && Same(a, b, 2) && Same(a, b, 3) && Same(a, b, 4) ==>
              Same(a, b, 5) && Same(a, b, 6) && !Same(a, b, 7) ==> Decides(t, a, b, 7)
  {
  }

  lemma FirstDifferingBitDecides(t: bv8, a: bv8, b: bv8, j: nat)
    requires FirstDifferingBit(a, b, j)
    ensures Decides(t, a, b, j)
  {
    DecidesHigh(t, a, b);
    DecidesLow(t, a, b);
    DecidesSix(t, a, b);
    DecidesLast(t, a, b);
    assert 0 < j ==> Same(a, b, 0);
  }

  lemma LeadingZerosSame(a: bv8, b: bv8, c: nat)
    requires c == CountLeadingZeros(a ^ b)
    ensures 0 < c ==> Same(a, b, 0)
    ensures 1 < c ==> Same(a, b, 1)
    ensures 2 < c ==> Same(a, b, 2)
    ensures 3 < c ==> Same(a, b, 3)
  {
  }

  lemma LeadingZerosSameLow(a: bv8, b: bv8, c: nat)
    requires c == CountLeadingZeros(a ^ b)
    ensures 4 < c ==> Same(a, b, 4)
    ensures 5 < c ==> Same(a, b, 5)
    ensures 6 < c ==> Same(a, b, 6)
  {
  }

  lemma LeadingZerosDiffer(a: bv8, b: bv8, c: nat)
    requires a != b && c == CountLeadingZeros(a ^ b)
    ensures c < 8 && !Same(a, b, c)
  {
  }

  lemma LeadingZerosDecide(t: bv8, a: bv8, b: bv8)
    requires a != b
    ensures FirstDifferingBit(a, b, CountLeadingZeros(a ^ b))
    ensures Decides(t, a, b, CountLeadingZeros(a ^ b))
  {
    var c := CountLeadingZeros(a ^ b);
    LeadingZerosSame(a, b, c);
    LeadingZerosSameLow(a, b, c);
    LeadingZerosDiffer(a, b, c);
    FirstDifferingBitDecides(t, a, b, c);
  }

  /** Where the first i bytes agree and byte i does not, byte i decides which of the two is nearer. */
  lemma DecidingByte(t: NodeId, a: NodeId, b: NodeId, i: nat)
    requires i < ID_LEN && a[i] != b[i] && forall m :: 0 <= m < i ==> a[m] == b[m]
    ensures t[i] ^ a[i] < t[i] ^ b[i] <==> Nearer(t, a, b)
    ensures t[i] ^ a[i] != t[i] ^ b[i]
  {
    var x, y, z := t[i], a[i], b[i];
    LeadingZerosDecide(x, y, z);
    DecidingBit(t, a, b, i, CountLeadingZeros(y ^ z));
  }

  /** Ids are ordered as arrays of bytes: by the first byte in which they differ. */
  lemma IdLessIsLexicographic(a: NodeId, b: NodeId)
    ensures IdLess(a, b) <==> exists i: nat :: FirstDifferingByte(a, b, i) && a[i] < b[i]
  {
    hide Nearer, Prefix;
    if a == b {
      NearerTotal(ZERO_ID, a, b);
    } else {
      var i := DifferingByte(a, b, 0);
      FirstByteDecides(a, b, i);
      forall j: nat | FirstDifferingByte(a, b, j) ensures j == i {
        OnlyOneFirst(a, b, i, j);
      }
    }
  }

  lemma FirstByteDecides(a: NodeId, b: NodeId, i: nat)
    requires FirstDifferingByte(a, b, i)
    ensures IdLess(a, b) <==> a[i] < b[i]
  {
    hide Nearer, Prefix;
    DecidingByte(ZERO_ID, a, b, i);
    ZeroXor(a[i]);
    ZeroXor(b[i]);
    assert ZERO_ID[i] == 0;
  }

  lemma OnlyOneFirst(a: NodeId, b: NodeId, i: nat, j: nat)
    requires FirstDifferingByte(a, b, i) && FirstDifferingByte(a, b, j)
    ensures i == j
  {
  }

  ghost predicate FirstDifferingByte(a: NodeId, b: NodeId, i: nat) {
    i < ID_LEN && a[i] != b[i] && forall m :: 0 <= m < i ==> a[m] == b[m]
  }

  lemma DifferingByte(a: NodeId, b: NodeId, from: nat) returns (i: nat)
    requires a != b && from < ID_LEN && forall m :: 0 <= m < from ==> a[m] == b[m]
    ensures FirstDifferingByte(a, b, i)
    decreases ID_LEN - from
  {
    if a[from] != b[from] {
      i := from;
    } else {
      i := DifferingByte(a, b, from + 1);
    }
  }

  lemma ZeroXor(x: bv8)
    ensures 0 ^ x == x
  {
  }

  lemma DecidingBit(t: NodeId, a: NodeId, b: NodeId, i: nat, c: nat)
    requires i < ID_LEN && FirstDifferingBit(a[i], b[i], c) && forall m :: 0 <= m < i ==> a[m] == b[m]
    ensures Prefix(a, b) == 8 * i + c < ID_BITS
    ensures Nearer(t, a, b) <==> ByteBit(a[i], c) == ByteBit(t[i], c)
  {
    PrefixInByte(a, b, i, c);
    assert (8 * i + c) / 8 == i && (8 * i + c) % 8 == c;
  }

  lemma PrefixInByte(a: NodeId, b: NodeId, i: nat, c: nat)
    requires i < ID_LEN && FirstDifferingBit(a[i], b[i], c) && forall m :: 0 <= m < i ==> a[m] == b[m]
    ensures Prefix(a, b) == 8 * i + c
  {
    var k := 8 * i + c;
    assert k / 8 == i && k % 8 == c;
    forall j | 0 <= j < k ensures Bit(a, j) == Bit(b, j) {
      if j / 8 == i {
        assert j % 8 < c && Same(a[i], b[i], j % 8);
      }
    }
    assert !Same(a[i], b[i], c);
    PrefixIs(a, b, k);
  }

  lemma PrefixOfByte(a: NodeId, b: NodeId, i: nat, x: bv8)
    requires i < ID_LEN && a[i] != b[i] && x == a[i] ^ b[i] && forall m :: 0 <= m < i ==> a[m] == b[m]
    ensures Prefix(a, b) == i * 8 + CountLeadingZeros(x) < ID_BITS
  {
    var y, z := a[i], b[i];
    LeadingZerosDecide(y, y, z);
    PrefixInByte(a, b, i, CountLeadingZeros(x));
  }

  /** bucket_index: the position of the first differing bit, ID_BITS for equal ids. */
  method BucketIndex(local: NodeId, remote: NodeId) returns (r: nat)
    ensures r == Prefix(local, remote)
    ensures r == ID_BITS <==> local == remote
  {
    FullPrefixIffEqual(local, remote);
    var i := 0;
    while i < ID_LEN
      invariant i <= ID_LEN && forall m :: 0 <= m < i ==> local[m] == remote[m]
    {
      var x := local[i] ^ remote[i];
      XorZero(local[i], remote[i]);
      if x != 0 {
        PrefixOfByte(local, remote, i, x);
        return i * 8 + CountLeadingZeros(x);
      }
      i := i + 1;
    }
    r := ID_BITS;
  }

  lemma DecidingByteOrEqual(t: NodeId, a: NodeId, b: NodeId, i: nat, da: bv8, db: bv8)
    requires i < ID_LEN && forall m :: 0 <= m < i ==> a[m] == b[m]
    requires da == t[i] ^ a[i] && db == t[i] ^ b[i]
    ensures da == db ==> a[i] == b[i]
    ensures da < db ==> Nearer(t, a, b)
    ensures db < da ==> a != b && !Nearer(t, a, b)
  {
    if a[i] != b[i] {
      DecidingByte(t, a, b, i);
    }
  }

  /** compare_distance: the sign of the comparison of the two XOR distances. */
  method CompareDistance(target: NodeId, a: NodeId, b: NodeId) returns (c: int)
    ensures c == -1 || c == 0 || c == 1
    ensures c == -1 <==> Nearer(target, a, b)
    ensures c == 1 <==> Nearer(target, b, a)
    ensures c == 0 <==> a == b
  {
    hide Nearer, Prefix, Bit, ByteBit;
    NearerTotal(target, a, b);
    var i := 0;
    while i < ID_LEN
      invariant i <= ID_LEN && forall m :: 0 <= m < i ==> a[m] == b[m]
    {
      var da := target[i] ^ a[i];
      var db := target[i] ^ b[i];
      DecidingByteOrEqual(target, a, b, i, da, db);
      if da < db { return -1; }
      if da > db { return 1; }
      i := i + 1;
    }
    c := 0;
  }
}
