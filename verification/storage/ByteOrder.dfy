/** Bytes and the little-endian integers of encoding/binary. */
module ByteOrder {

  type Byte = b: nat | b < 0x100
  type Bytes = seq<Byte>

  type Word32 = w: nat | w < 0x1_0000_0000
  type Word64 = w: nat | w < 0x1_0000_0000_0000_0000
  type Int64 = t: int | -0x8000_0000_0000_0000 <= t < 0x8000_0000_0000_0000

  function Pow256(n: nat): (p: nat)
    ensures p > 0
  {
    if n == 0 then 1 else 256 * Pow256(n - 1)
  }

  /** The n low bytes of v, least significant first: a wider value loses its high bytes. */
  function PutUint(v: nat, n: nat): (b: Bytes)
    ensures |b| == n
  {
    if n == 0 then [] else [v % 256] + PutUint(v / 256, n - 1)
  }

  /** The number a run of bytes stands for, least significant byte first. */
  function Uint(b: Bytes): nat
  {
    if b == [] then 0 else b[0] + 256 * Uint(b[1..])
  }

  lemma {:induction false} UintBound(b: Bytes)
    ensures Uint(b) < Pow256(|b|)
  {
    if b != [] {
      UintBound(b[1..]);
    }
  }

  lemma ModStep(v: nat, m: nat)
    requires m > 0
    ensures v % 256 + 256 * (v / 256 % m) == v % (256 * m)
  {
    var q, r := v / 256 / m, v / 256 % m;
    assert v / 256 == q * m + r;
    assert v == 256 * (q * m + r) + v % 256;
    assert 256 * (q * m) == q * (256 * m);
    assert r <= m - 1;
    assert 0 <= v % 256 + 256 * r < 256 * m;
    ModUnique(v, 256 * m, q, v % 256 + 256 * r);
  }

  lemma ModUnique(v: nat, m: nat, q: nat, r: nat)
    requires m > 0 && v == q * m + r && r < m
    ensures v % m == r
  {
    SameQuotient(m, q, r, v / m, v % m);
  }

  lemma SameQuotient(m: int, q: int, r: int, q': int, r': int)
    requires 0 <= r < m && 0 <= r' < m
    requires q * m + r == q' * m + r'
    ensures q == q' && r == r'
  {
    var d := q - q';
    assert d * m == r' - r;
    if d > 0 {
      Scale(d, m);
    } else if d < 0 {
      Scale(-d, m);
    }
  }

  lemma Scale(d: int, m: int)
    requires d >= 1 && m >= 0
    ensures d * m >= m
  {
    assert (d - 1) * m >= 0;
  }

  /** Reading back what was put gives the value modulo the width. */
  lemma {:induction false} UintOfPut(v: nat, n: nat)
    ensures Uint(PutUint(v, n)) == v % Pow256(n)
  {
    if n != 0 {
      UintOfPut(v / 256, n - 1);
      var b := PutUint(v, n);
      assert b[0] == v % 256 && b[1..] == PutUint(v / 256, n - 1);
      ModStep(v, Pow256(n - 1));
    }
  }

  /** Putting back what was read gives the same bytes. */
  lemma {:induction false} PutOfUint(b: Bytes)
    ensures PutUint(Uint(b), |b|) == b
  {
    if b != [] {
      PutOfUint(b[1..]);
      var v := Uint(b);
      assert v % 256 == b[0] && v / 256 == Uint(b[1..]);
      assert [b[0]] + b[1..] == b;
    }
  }

  /** Byte i is the digit of weight 256 to the i: the least significant one stands first. */
  lemma {:induction false} PutUintAt(v: nat, n: nat, i: nat)
    requires i < n
    ensures PutUint(v, n)[i] == v / Pow256(i) % 256
  {
    if i > 0 {
      PutUintAt(v / 256, n - 1, i - 1);
      DivTwice(v, Pow256(i - 1));
    }
  }

  lemma DivTwice(v: nat, m: nat)
    requires m > 0
    ensures v / 256 / m == v / (256 * m)
  {
    var q, r := v / 256 / m, v / 256 % m;
    assert v / 256 == q * m + r;
    assert 256 * (q * m) == q * (256 * m);
    assert 0 <= v % 256 + 256 * r < 256 * m;
    SameQuotient(256 * m, q, v % 256 + 256 * r, v / (256 * m), v % (256 * m));
  }

  lemma Widths()
    ensures Pow256(2) == 0x1_0000
    ensures Pow256(4) == 0x1_0000_0000
    ensures Pow256(8) == 0x1_0000_0000_0000_0000
  {
    assert Pow256(1) == 256;
    assert Pow256(2) == 256 * Pow256(1);
    assert Pow256(3) == 256 * Pow256(2);
    assert Pow256(4) == 256 * Pow256(3);
    assert Pow256(5) == 256 * Pow256(4);
    assert Pow256(6) == 256 * Pow256(5);
    assert Pow256(7) == 256 * Pow256(6);
    assert Pow256(8) == 256 * Pow256(7);
  }

  /** The bytes of v of a given width read back as v exactly when v fits that width. */
  lemma ReadBack(v: nat, n: nat)
    ensures Uint(PutUint(v, n)) == v <==> v < Pow256(n)
  {
    UintOfPut(v, n);
  }

  /** uint64(t) for a signed t. */
  function ToUnsigned(t: Int64): Word64 {
    if t < 0 then t + 0x1_0000_0000_0000_0000 else t
  }

  /** int64(w) for an unsigned w. */
  function ToSigned(w: Word64): Int64 {
    if w >= 0x8000_0000_0000_0000 then w - 0x1_0000_0000_0000_0000 else w
  }

  /** Two's complement: the only signed number of 64 bits that has these bits. */
  lemma TwosComplement(t: Int64, w: Word64)
    ensures (t - w) % 0x1_0000_0000_0000_0000 == 0 <==> w == ToUnsigned(t)
    ensures w == ToUnsigned(t) <==> t == ToSigned(w)
  {
    var d := (t - w) / 0x1_0000_0000_0000_0000;
    if (t - w) % 0x1_0000_0000_0000_0000 == 0 {
      assert t - w == d * 0x1_0000_0000_0000_0000;
      assert -2 < d < 1;
    }
  }

}
