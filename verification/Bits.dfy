/** Bitwise operators of C on non-negative integers, defined bit by bit, and the
    arithmetic meaning of the masks and packings the sources use. */
module Bits {

  function Pow2(k: nat): (r: nat)
    ensures r > 0
  {
    if k == 0 then 1 else 2 * Pow2(k - 1)
  }

  lemma {:induction false} Pow2Monotone(a: nat, b: nat)
    requires a <= b
    ensures Pow2(a) <= Pow2(b)
  {
    if a < b { Pow2Monotone(a, b - 1); }
  }

  /** `a & b`. */
  function And(a: nat, b: nat): (r: nat)
    decreases a
  {
    if a == 0 || b == 0 then 0
    else (if a % 2 == 1 && b % 2 == 1 then 1 else 0) + 2 * And(a / 2, b / 2)
  }

  /** `a | b`. */
  function Or(a: nat, b: nat): (r: nat)
    ensures a <= r && b <= r
    decreases a + b
  {
    if a == 0 && b == 0 then 0
    else (if a % 2 == 1 || b % 2 == 1 then 1 else 0) + 2 * Or(a / 2, b / 2)
  }

  /** `a >> p`, one position at a time. */
  function Hi(a: nat, p: nat): nat {
    if p == 0 then a else Hi(a / 2, p - 1)
  }

  /** The low `p` bits of `a`. */
  function Lo(a: nat, p: nat): (r: nat)
    ensures r < Pow2(p)
  {
    if p == 0 then 0 else a % 2 + 2 * Lo(a / 2, p - 1)
  }

  /** Shifting right divides, and the bits shifted out are the remainder. */
  lemma {:induction false} HiLo(a: nat, p: nat)
    ensures a == Pow2(p) * Hi(a, p) + Lo(a, p)
    ensures Hi(a, p) == a / Pow2(p) && Lo(a, p) == a % Pow2(p)
    decreases p
  {
    if p > 0 {
      HiLo(a / 2, p - 1);
      DoubleProduct(Pow2(p - 1), Hi(a / 2, p - 1));
    }
    DivModUnique(a, Pow2(p), Hi(a, p), Lo(a, p));
  }

  lemma MulGap(m: nat, a: int, b: int)
    requires a < b
    ensures m * a + m <= m * b
  {
    var d := b - (a + 1);
    assert m * b == m * a + m + m * d;
  }

  lemma LessByFactor(m: nat, a: nat, r: nat, b: nat)
    requires m * a + r < m * b
    ensures a < b
  {
    if b < a { MulGap(m, b, a); }
  }

  lemma DivModUnique(v: nat, m: nat, q: int, r: int)
    requires 0 <= r < m && v == m * q + r
    ensures v / m == q && v % m == r
  {
    var q', r' := v / m, v % m;
    assert v == m * q' + r';
    if q' < q { MulGap(m, q', q); }
    if q < q' { MulGap(m, q, q'); }
  }

  lemma DoubleProduct(k: nat, x: nat)
    ensures (2 * k) * x == 2 * (k * x)
  {}

  /** The lowest bit of `a & b`, given those of `a` and `b`. */
  function BitAnd(x: nat, y: nat): nat {
    if x == 1 && y == 1 then 1 else 0
  }

  lemma AndJoin(a: nat, x: nat, ha: nat, b: nat, y: nat, hb: nat)
    requires x < 2 && y < 2 && a == x + 2 * ha && b == y + 2 * hb
    ensures And(a, b) == BitAnd(x, y) + 2 * And(ha, hb)
  {
    assert a % 2 == x && a / 2 == ha && b % 2 == y && b / 2 == hb;
  }

  lemma {:induction false} AndAtMost(a: nat, b: nat)
    ensures And(a, b) <= a
    decreases a
  {
    if a > 0 && b > 0 { AndAtMost(a / 2, b / 2); }
  }

  lemma LowHigh(a: nat, p: nat)
    requires p > 0
    ensures Lo(a, p) == a % 2 + 2 * Lo(a / 2, p - 1) && Hi(a, p) == Hi(a / 2, p - 1)
  {}

  /** `hi` behind the low `p` bits of `lo`. */
  function Join(lo: nat, hi: nat, p: nat): nat {
    if p == 0 then hi else lo % 2 + 2 * Join(lo / 2, hi, p - 1)
  }

  lemma {:induction false} JoinSum(lo: nat, hi: nat, p: nat)
    requires lo < Pow2(p)
    ensures Join(lo, hi, p) == lo + Pow2(p) * hi
    decreases p
  {
    if p > 0 {
      JoinSum(lo / 2, hi, p - 1);
      DoubleProduct(Pow2(p - 1), hi);
    }
  }

  /** One more low bit: `la` and `lb` are the low parts without it, `xa` and `xb` with it. */
  lemma AndLowBit(a: nat, la: nat, xa: nat, b: nat, lb: nat, xb: nat)
    requires xa == a % 2 + 2 * la && xb == b % 2 + 2 * lb
    ensures And(xa, xb) / 2 == And(la, lb) && And(a, b) == And(xa, xb) % 2 + 2 * And(a / 2, b / 2)
  {
    AndJoin(xa, a % 2, la, xb, b % 2, lb);
    AndJoin(a, a % 2, a / 2, b, b % 2, b / 2);
  }

  lemma {:induction false} AndHalves(a: nat, b: nat, p: nat)
    ensures And(a, b) == Join(And(Lo(a, p), Lo(b, p)), And(Hi(a, p), Hi(b, p)), p)
    decreases p
  {
    if p > 0 {
      LowHigh(a, p);
      LowHigh(b, p);
      AndHalves(a / 2, b / 2, p - 1);
      AndLowBit(a, Lo(a / 2, p - 1), Lo(a, p), b, Lo(b / 2, p - 1), Lo(b, p));
    }
  }

  /** `&` acts on the low `p` bits and on the remaining bits independently. */
  lemma AndSplit(a: nat, b: nat, p: nat)
    ensures And(a, b) == And(Lo(a, p), Lo(b, p)) + Pow2(p) * And(Hi(a, p), Hi(b, p))
  {
    AndHalves(a, b, p);
    AndAtMost(Lo(a, p), Lo(b, p));
    JoinSum(And(Lo(a, p), Lo(b, p)), And(Hi(a, p), Hi(b, p)), p);
  }

  lemma OrBit(a: nat, b: nat)
    ensures Or(a, b) == (if a % 2 == 1 || b % 2 == 1 then 1 else 0) + 2 * Or(a / 2, b / 2)
  {}

  lemma {:induction false} OrZero(a: nat)
    ensures Or(a, 0) == a
  {
    if a > 0 { OrZero(a / 2); }
  }

  /** A mask of `w` ones keeps the low `w` bits. */
  lemma {:induction false} AndOnes(a: nat, w: nat)
    ensures And(a, Pow2(w) - 1) == Lo(a, w)
    decreases w
  {
    if w > 0 {
      AndOnes(a / 2, w - 1);
      AndJoin(a, a % 2, a / 2, Pow2(w) - 1, 1, Pow2(w - 1) - 1);
    }
  }

  lemma OrDouble(x: nat, lo: nat)
    ensures Or(2 * x, lo) == 2 * Or(x, lo / 2) + lo % 2
  {
    OrBit(2 * x, lo);
    assert 2 * x / 2 == x;
  }

  /** `|` of a multiple of `2^p` with a value below `2^p` is their sum. */
  lemma {:induction false} OrDisjoint(hi: nat, lo: nat, p: nat)
    requires lo < Pow2(p)
    ensures Or(Pow2(p) * hi, lo) == Pow2(p) * hi + lo
    decreases p
  {
    if p == 0 {
      OrZero(hi);
    } else {
      DoubleProduct(Pow2(p - 1), hi);
      OrDisjoint(hi, lo / 2, p - 1);
      OrDouble(Pow2(p - 1) * hi, lo);
    }
  }

  lemma Pow2Values()
    ensures Pow2(1) == 2 && Pow2(2) == 4 && Pow2(3) == 8 && Pow2(4) == 16 && Pow2(7) == 128
    ensures Pow2(8) == 256 && Pow2(16) == 0x1_0000 && Pow2(24) == 0x100_0000
    ensures Pow2(32) == 0x1_0000_0000 && Pow2(40) == 0x100_0000_0000
  {
    assert Pow2(4) == 16;
    assert Pow2(8) == 256;
    assert Pow2(12) == 4096;
    assert Pow2(16) == 0x1_0000;
    assert Pow2(20) == 0x10_0000;
    assert Pow2(24) == 0x100_0000;
    assert Pow2(28) == 0x1000_0000;
    assert Pow2(32) == 0x1_0000_0000;
    assert Pow2(36) == 0x10_0000_0000;
    assert Pow2(40) == 0x100_0000_0000;
  }
}
