/** Little-endian integers and the variable-length unsigned integer shared by the codecs and the
    multiplexer (src/compact.cpp:62-117, src/protomux.cpp:22-85). */
module Varints {
  import opened Bytes

  function Pow256(n: nat): (r: nat)
    ensures r >= 1
  {
    if n == 0 then 1 else 256 * Pow256(n - 1)
  }

  /** The n low bytes of v, lowest first. */
  function Le(v: nat, n: nat): (r: bytes)
    ensures |r| == n
    decreases n
  {
    if n == 0 then [] else [v % 256] + Le(v / 256, n - 1)
  }

  function FromLe(b: bytes): nat {
    if b == [] then 0 else b[0] + 256 * FromLe(b[1..])
  }

  lemma {:induction false} LeRoundTrip(v: nat, n: nat)
    requires v < Pow256(n)
    ensures FromLe(Le(v, n)) == v
    decreases n
  {
    if n > 0 {
      LeRoundTrip(v / 256, n - 1);
      assert Le(v, n)[1..] == Le(v / 256, n - 1);
    }
  }

  lemma {:induction false} FromLeRoundTrip(b: bytes)
    ensures FromLe(b) < Pow256(|b|)
    ensures Le(FromLe(b), |b|) == b
  {
    if b != [] {
      FromLeRoundTrip(b[1..]);
      var h: int, t := b[0], FromLe(b[1..]);
      assert (h + 256 * t) % 256 == h && (h + 256 * t) / 256 == t;
      assert b == [b[0]] + b[1..];
    }
  }

  lemma {:induction false} LeAt(v: nat, n: nat, i: nat)
    requires i < n
    ensures Le(v, n)[i] == v / Pow256(i) % 256
    decreases n
  {
    if i > 0 {
      LeAt(v / 256, n - 1, i - 1);
      DivDiv(v, Pow256(i - 1));
    }
  }

  lemma DivDiv(v: nat, p: nat)
    requires p > 0
    ensures v / 256 / p == v / (256 * p)
  {
    var a := v / 256;
    var q := a / p;
    var r := a % p;
    var low := v % 256;
    assert v == 256 * (p * q + r) + low;
    assert 256 * (p * q + r) + low == (256 * p) * q + (256 * r + low) by {
      assert 256 * (p * q) == (256 * p) * q;
    }
    DivUnique(256 * p, q, 256 * r + low);
  }

  lemma DivUnique(p: nat, q: nat, r: nat)
    requires r < p
    ensures (p * q + r) / p == q
  {
    var x := (p * q + r) / p;
    assert p * x <= p * q + r < p * x + p;
    MulLess(p, x, q);
    MulLess(p, q, x);
  }

  lemma MulLess(p: nat, a: nat, b: nat)
    ensures a < b ==> p * a + p <= p * b
  {
    if a < b {
      var d: nat := b - a - 1;
      assert p * (a + 1 + d) == p * a + p + p * d;
    }
  }

  lemma Powers()
    ensures Pow256(1) == 0x100 && Pow256(2) == 0x1_0000 && Pow256(4) == 0x1_0000_0000 &&
              Pow256(8) == 0x1_0000_0000_0000_0000
  {
    assert Pow256(3) == 0x100_0000;
    assert Pow256(5) == 256 * Pow256(4) && Pow256(6) == 256 * Pow256(5) && Pow256(7) == 256 * Pow256(6);
  }

  function VarintSize(v: u64): nat {
    if v <= 0xFC then 1 else if v <= 0xFFFF then 3 else if v <= 0xFFFF_FFFF then 5 else 9
  }

  function Varint(v: u64): (r: bytes)
    ensures |r| == VarintSize(v)
  {
    if v <= 0xFC then [v]
    else if v <= 0xFFFF then [0xFD] + Le(v, 2)
    else if v <= 0xFFFF_FFFF then [0xFE] + Le(v, 4)
    else [0xFF] + Le(v, 8)
  }

  /** How many bytes follow the first byte of an encoding. */
  function TailSize(first: byte): nat {
    if first <= 0xFC then 0 else if first == 0xFD then 2 else if first == 0xFE then 4 else 8
  }

  function VarintValue(first: byte, tail: bytes): nat {
    if first <= 0xFC then first else FromLe(tail)
  }

  /** The first byte of an encoding tells its length, and the rest its value. */
  lemma VarintParts(v: u64)
    ensures var r := Varint(v); |r| == 1 + TailSize(r[0]) && VarintValue(r[0], r[1..]) == v
  {
    Powers();
    if v > 0xFC {
      var n := if v <= 0xFFFF then 2 else if v <= 0xFFFF_FFFF then 4 else 8;
      LeRoundTrip(v, n);
      assert Varint(v)[1..] == Le(v, n);
    }
  }

  lemma {:induction false} FromLeAppend(b: bytes, x: byte)
    ensures FromLe(b + [x]) == FromLe(b) + x * Pow256(|b|)
  {
    if b == [] {
      assert [x][1..] == [];
    } else {
      FromLeAppend(b[1..], x);
      assert (b + [x])[1..] == b[1..] + [x] && (b + [x])[0] == b[0];
      var p := Pow256(|b| - 1);
      assert 256 * (x * p) == x * (256 * p);
    }
  }

  lemma LeTwo(v: nat)
    ensures Le(v, 2) == [v % 256, v / 256 % 256]
  {
  }

  lemma LeFour(v: nat)
    ensures Le(v, 4) == [v % 256, v / 0x100 % 256, v / 0x1_0000 % 256, v / 0x100_0000 % 256]
  {
    assert v / 256 / 256 == v / 0x1_0000 && v / 0x1_0000 / 256 == v / 0x100_0000;
  }

  /** The bytes of an encoding: a number up to 252 is one byte; a larger one follows a byte that tells how
      many bytes it takes, lowest first. */
  lemma VarintBytes(v: u64)
    ensures v <= 252 ==> Varint(v) == [v]
    ensures 252 < v <= 0xFFFF ==> Varint(v) == [0xFD, v % 256, v / 256]
    ensures 0xFFFF < v <= 0xFFFF_FFFF ==>
              Varint(v) == [0xFE, v % 256, v / 0x100 % 256, v / 0x1_0000 % 256, v / 0x100_0000]
  {
    if v <= 0xFC {
    } else if v <= 0xFFFF {
      LeTwo(v);
    } else if v <= 0xFFFF_FFFF {
      LeFour(v);
    }
  }

  lemma VarintNine(v: u64)
    requires v > 0xFFFF_FFFF
    ensures |Varint(v)| == 9 && Varint(v)[0] == 0xFF
    ensures forall i :: 0 <= i < 8 ==> Varint(v)[1 + i] == v / Pow256(i) % 256
  {
    forall i | 0 <= i < 8 ensures Varint(v)[1 + i] == v / Pow256(i) % 256 {
      LeAt(v, 8, i);
    }
  }
}
