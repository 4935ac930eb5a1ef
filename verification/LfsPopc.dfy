// lfs_popc, the portable version: one bits counted in fields of 2, 4 and 8
// bits at once.

module LfsPopc {
  import opened Bits
  import opened LfsUtil

  // And works field by field.
  lemma {:induction false} AndPair(i0: nat, i1: nat, x: nat, j0: nat, j1: nat, y: nat)
    requires i0 < 2 && i1 < 2 && j0 < 2 && j1 < 2
    ensures And(i0 + 2 * i1 + 4 * x, j0 + 2 * j1 + 4 * y) == And(i0 + 2 * i1, j0 + 2 * j1) + 4 * And(x, y)
  {
    AndBit(i0, i1 + 2 * x, j0, j1 + 2 * y);
    AndBit(i1, x, j1, y);
    AndBit(i0, i1, j0, j1);
    AndBit(i1, 0, j1, 0);
  }

  lemma {:induction false} And4(d: nat, x: nat, e: nat, y: nat)
    requires d < 4 && e < 4
    ensures And(d + 4 * x, e + 4 * y) == And(d, e) + 4 * And(x, y)
  {
    hide And;
    AndPair(d % 2, d / 2, x, e % 2, e / 2, y);
  }

  lemma {:induction false} And16(d: nat, x: nat, e: nat, y: nat)
    requires d < 16 && e < 16
    ensures And(d + 16 * x, e + 16 * y) == And(d, e) + 16 * And(x, y)
  {
    hide And;
    And4(d % 4, d / 4 + 4 * x, e % 4, e / 4 + 4 * y);
    And4(d / 4, x, e / 4, y);
    And4(d % 4, d / 4, e % 4, e / 4);
    assert d % 4 + 4 * (d / 4 + 4 * x) == d + 16 * x && e % 4 + 4 * (e / 4 + 4 * y) == e + 16 * y;
  }

  lemma {:induction false} AndOnes(a: nat, n: nat)
    requires a < Pow2(n)
    ensures And(a, Pow2(n) - 1) == a
  {
    if n > 0 {
      AndOnes(a / 2, n - 1);
      AndBit(a % 2, a / 2, 1, Pow2(n - 1) - 1);
    }
  }

  lemma AndLow(d: nat)
    requires d < 16
    ensures And(d, 3) == d % 4 && And(d, 15) == d
  {
    assert Pow2(2) == 4 && Pow2(4) == 16;
    hide And;
    AndOnes(d % 4, 2);
    AndOnes(d, 4);
    And4(d % 4, d / 4, 3, 0);
    AndNone(d / 4);
  }

  lemma AndNone(d: nat)
    ensures And(d, 0) == 0
  {
  }

  // ---- Masks ----------------------------------------------------------------

  // 0x...5555, 0x...3333 and 0x...0f0f with n fields
  function Mask2(n: nat): nat {
    if n == 0 then 0 else 1 + 4 * Mask2(n - 1)
  }

  function Mask4(n: nat): nat {
    if n == 0 then 0 else 3 + 16 * Mask4(n - 1)
  }

  function Mask8(n: nat): nat {
    if n == 0 then 0 else 15 + 256 * Mask8(n - 1)
  }

  lemma MaskValues()
    ensures Mask2(16) == 0x5555_5555 && Mask4(8) == 0x3333_3333 && Mask8(4) == 0xf0f_0f0f
  {
    assert Mask2(4) == 0x55;
    assert Mask2(8) == 0x5555;
    assert Mask2(12) == 0x55_5555;
    assert Mask4(4) == 0x3333;
  }

  // ---- One bits by field ------------------------------------------------------

  lemma {:induction false} PopcBit(i: nat, x: nat)
    requires i < 2
    ensures Popc(i + 2 * x) == i + Popc(x)
  {
    assert (i + 2 * x) / 2 == x;
  }

  lemma {:induction false} Popc4(d: nat, x: nat)
    requires d < 4
    ensures Popc(d + 4 * x) == Popc(d) + Popc(x) && Popc(d) == d - d / 2 <= 2
  {
    var i, j := d % 2, d / 2;
    PopcBit(i, j + 2 * x);
    PopcBit(j, x);
    PopcBit(i, j);
    PopcBit(j, 0);
    assert d + 4 * x == i + 2 * (j + 2 * x);
  }

  lemma {:induction false} Popc16(d: nat, x: nat)
    requires d < 16
    ensures Popc(d + 16 * x) == Popc(d) + Popc(x) && Popc(d) == Popc(d % 4) + Popc(d / 4)
    ensures Popc(d % 4) <= 2 && Popc(d / 4) <= 2
  {
    hide Popc;
    var i, j := d % 4, d / 4;
    Popc4(i, j + 4 * x);
    Popc4(j, x);
    Popc4(i, j);
    assert d + 16 * x == i + 4 * (j + 4 * x);
  }

  lemma {:induction false} Popc256(d: nat, x: nat)
    requires d < 256
    ensures Popc(d + 256 * x) == Popc(d) + Popc(x) && Popc(d) == Popc(d % 16) + Popc(d / 16)
    ensures Popc(d % 16) <= 4 && Popc(d / 16) <= 4
  {
    hide Popc;
    var i, j := d % 16, d / 16;
    Popc16(i, j + 16 * x);
    Popc16(j, x);
    Popc16(i, j);
    assert d + 256 * x == i + 16 * (j + 16 * x);
  }

  // The number of one bits of each field of 2, 4 or 8 bits, in that field
  function Pairs(a: nat, n: nat): nat {
    if n == 0 then 0 else Popc(a % 4) + 4 * Pairs(a / 4, n - 1)
  }

  function Nibbles(a: nat, n: nat): nat {
    if n == 0 then 0 else Popc(a % 16) + 16 * Nibbles(a / 16, n - 1)
  }

  function Octets(a: nat, n: nat): nat {
    if n == 0 then 0 else Popc(a % 256) + 256 * Octets(a / 256, n - 1)
  }

  // ---- The steps of lfs_popc ----------------------------------------------------

  // a - ((a >> 1) & 0x55555555)
  lemma {:induction false} PairStep(a: nat, n: nat)
    requires a < Pow2(2 * n)
    ensures a == Pairs(a, n) + And(a / 2, Mask2(n))
  {
    if n == 0 {
      AndNone(a / 2);
    } else {
      var d, x := PairDigit(a, n);
      hide And, Popc, Pairs, Mask2, Pow2;
      PairStep(x, n - 1);
      Popc4(d, x);
      PairMask(d, x, Mask2(n - 1));
    }
  }

  lemma PairDigit(a: nat, n: nat) returns (d: nat, x: nat)
    requires n > 0 && a < Pow2(2 * n)
    ensures d < 4 && a == d + 4 * x && x < Pow2(2 * (n - 1))
    ensures Pairs(a, n) == Popc(d) + 4 * Pairs(x, n - 1) && Mask2(n) == 1 + 4 * Mask2(n - 1)
  {
    d, x := a % 4, a / 4;
    assert Pow2(2 * n) == 2 * Pow2(2 * n - 1) == 4 * Pow2(2 * (n - 1));
  }

  lemma PairMask(d: nat, x: nat, m: nat)
    requires d < 4
    ensures And((d + 4 * x) / 2, 1 + 4 * m) == d / 2 + 4 * And(x / 2, m)
  {
    hide And;
    var e := d / 2 + 2 * (x % 2);
    assert (d + 4 * x) / 2 == e + 4 * (x / 2);
    And4(e, x / 2, 1, m);
    AndBit(d / 2, x % 2, 1, 0);
    AndNone(x % 2);
  }

  // (a & 0x33333333) + ((a >> 2) & 0x33333333)
  function BothPairs(v: nat, m: nat): nat {
    And(v, m) + And(v / 4, m)
  }

  lemma {:induction false} NibbleStep(a: nat, n: nat)
    ensures BothPairs(Pairs(a, 2 * n), Mask4(n)) == Nibbles(a, n)
  {
    if n == 0 {
      AndNone(Pairs(a, 0));
      AndNone(Pairs(a, 0) / 4);
    } else {
      hide And, Popc, Pairs, Nibbles, BothPairs;
      var q0, q1, rest := NibbleDigits(a, n - 1);
      NibbleStep(a / 16, n - 1);
      NibbleMask(q0, q1, rest, Mask4(n - 1));
    }
  }

  lemma NibbleDigits(a: nat, n: nat) returns (q0: nat, q1: nat, rest: nat)
    ensures q0 <= 2 && q1 <= 2 && rest == Pairs(a / 16, 2 * n)
    ensures Pairs(a, 2 * (n + 1)) == q0 + 4 * q1 + 16 * rest
    ensures Nibbles(a, n + 1) == q0 + q1 + 16 * Nibbles(a / 16, n)
  {
    var d, x := a % 16, a / 16;
    assert Nibbles(a, n + 1) == Popc(d) + 16 * Nibbles(x, n);
    hide Popc, Pairs, Nibbles;
    PairsTwice(a, 2 * n);
    Popc16(d, x);
    q0, q1, rest := Popc(d % 4), Popc(d / 4), Pairs(x, 2 * n);
  }

  lemma {:induction false} PairsTwice(a: nat, n: nat)
    ensures Pairs(a, n + 2) == Popc(a % 16 % 4) + 4 * Popc(a % 16 / 4) + 16 * Pairs(a / 16, n)
  {
    hide Popc;
    assert a % 16 % 4 == a % 4 && a % 16 / 4 == a / 4 % 4 && a / 4 / 4 == a / 16;
    assert Pairs(a / 4, n + 1) == Popc(a / 4 % 4) + 4 * Pairs(a / 16, n);
  }

  lemma NibbleMask(q0: nat, q1: nat, rest: nat, m: nat)
    requires q0 <= 2 && q1 <= 2
    ensures BothPairs(q0 + 4 * q1 + 16 * rest, 3 + 16 * m) == q0 + q1 + 16 * BothPairs(rest, m)
  {
    hide And;
    var d := q1 + 4 * (rest % 4);
    And16(q0 + 4 * q1, rest, 3, m);
    And16(d, rest / 4, 3, m);
    AndLow(q0 + 4 * q1);
    AndLow(d);
    assert (q0 + 4 * q1 + 16 * rest) / 4 == d + 16 * (rest / 4);
  }

  lemma {:induction false} NibbleSmall(a: nat, n: nat)
    ensures Nibbles(a, n) % 16 <= 4
  {
    if n > 0 {
      Popc16(a % 16, 0);
      var p, rest := Popc(a % 16), Nibbles(a / 16, n - 1);
      assert Nibbles(a, n) == p + 16 * rest;
      hide Popc, Nibbles;
      DivUnique(p + 16 * rest, 16, rest, p);
    }
  }

  // (a + (a >> 4)) & 0xf0f0f0f
  function BothNibbles(v: nat, m: nat): nat {
    And(v + v / 16, m)
  }

  lemma {:induction false} OctetStep(a: nat, n: nat)
    ensures BothNibbles(Nibbles(a, 2 * n), Mask8(n)) == Octets(a, n)
  {
    if n == 0 {
      AndNone(Nibbles(a, 0) + Nibbles(a, 0) / 16);
    } else {
      hide And, Popc, Nibbles, Octets, BothNibbles;
      var q0, q1, rest := OctetDigits(a, n - 1);
      OctetStep(a / 256, n - 1);
      OctetMask(q0, q1, rest, Mask8(n - 1));
    }
  }

  lemma OctetDigits(a: nat, n: nat) returns (q0: nat, q1: nat, rest: nat)
    ensures q0 <= 4 && q1 <= 4 && rest % 16 <= 4 && rest == Nibbles(a / 256, 2 * n)
    ensures Nibbles(a, 2 * (n + 1)) == q0 + 16 * q1 + 256 * rest
    ensures Octets(a, n + 1) == q0 + q1 + 256 * Octets(a / 256, n)
  {
    var d, x := a % 256, a / 256;
    assert Octets(a, n + 1) == Popc(d) + 256 * Octets(x, n);
    hide Popc, Nibbles, Octets;
    NibblesTwice(a, 2 * n);
    Popc256(d, x);
    NibbleSmall(x, 2 * n);
    q0, q1, rest := Popc(d % 16), Popc(d / 16), Nibbles(x, 2 * n);
  }

  lemma {:induction false} NibblesTwice(a: nat, n: nat)
    ensures Nibbles(a, n + 2) == Popc(a % 256 % 16) + 16 * Popc(a % 256 / 16) + 256 * Nibbles(a / 256, n)
  {
    hide Popc;
    assert a % 256 % 16 == a % 16 && a % 256 / 16 == a / 16 % 16 && a / 16 / 16 == a / 256;
    assert Nibbles(a / 16, n + 1) == Popc(a / 16 % 16) + 16 * Nibbles(a / 256, n);
  }

  lemma OctetMask(q0: nat, q1: nat, rest: nat, m: nat)
    requires q0 <= 4 && q1 <= 4 && rest % 16 <= 4
    ensures BothNibbles(q0 + 16 * q1 + 256 * rest, 15 + 256 * m) == q0 + q1 + 256 * BothNibbles(rest, m)
  {
    hide And;
    var d, x := q1 + rest % 16, rest + rest / 16;
    And16(q0 + q1, d + 16 * x, 15, 16 * m);
    And16(d, x, 0, m);
    AndLow(q0 + q1);
    AndNone(d);
    assert (q0 + 16 * q1 + 256 * rest) / 16 == q1 + 16 * rest;
    assert q0 + 16 * q1 + 256 * rest + (q1 + 16 * rest) == (q0 + q1) + 16 * (d + 16 * x);
  }

  // The multiplication, cut to 32 bits, and the last shift
  function TopOctet(v: nat): nat {
    v * 0x101_0101 % 0x1_0000_0000 / 0x100_0000
  }

  // The sum of the four octets ends up in the top one.
  lemma OctetSum(r0: nat, r1: nat, r2: nat, r3: nat)
    requires r0 <= 8 && r1 <= 8 && r2 <= 8 && r3 <= 8
    ensures var v := r0 + 0x100 * (r1 + 0x100 * (r2 + 0x100 * r3));
      TopOctet(v) == r0 + r1 + r2 + r3
  {
    var v := r0 + 0x100 * (r1 + 0x100 * (r2 + 0x100 * r3));
    var low := r0 + 0x100 * (r0 + r1) + 0x1_0000 * (r0 + r1 + r2) + 0x100_0000 * (r0 + r1 + r2 + r3);
    var high := (r1 + r2 + r3) + 0x100 * (r2 + r3) + 0x1_0000 * r3;
    assert v * 0x101_0101 == low + 0x1_0000_0000 * high;
    DivUnique(v * 0x101_0101, 0x1_0000_0000, high, low);
    DivUnique(low, 0x100_0000, r0 + r1 + r2 + r3, r0 + 0x100 * (r0 + r1) + 0x1_0000 * (r0 + r1 + r2));
  }

  lemma {:induction false} OctetsCat(d: nat, x: nat, n: nat)
    requires d < 256
    ensures Octets(d + 256 * x, n + 1) == Popc(d) + 256 * Octets(x, n)
    ensures Popc(d + 256 * x) == Popc(d) + Popc(x) && Popc(d) <= 8
  {
    hide Popc;
    Popc256(d, x);
    assert (d + 256 * x) / 256 == x && (d + 256 * x) % 256 == d;
  }

  // lfs_popc
  method PopcOf(a0: nat) returns (r: nat)
    requires a0 < 0x1_0000_0000
    ensures r == Popc(a0)
  {
    MaskValues();
    Pow2Values();
    hide And, Mask2, Mask4, Mask8, Popc, Pairs, Nibbles, Octets, TopOctet;
    PairStep(a0, 16);
    NibbleStep(a0, 8);
    OctetStep(a0, 4);
    var a: nat := a0 - And(a0 / 2, 0x5555_5555);
    a := BothPairs(a, 0x3333_3333);
    r := TopOctet(BothNibbles(a, 0xf0f_0f0f));
    FourOctets(a0);
  }

  lemma Digits(a: nat) returns (d0: nat, d1: nat, d2: nat, d3: nat)
    requires a < 0x1_0000_0000
    ensures d0 < 256 && d1 < 256 && d2 < 256 && d3 < 256
    ensures a == d0 + 256 * (d1 + 256 * (d2 + 256 * d3))
  {
    var a1 := a / 256;
    var a2 := a1 / 256;
    d0, d1, d2, d3 := a % 256, a1 % 256, a2 % 256, a2 / 256;
  }

  lemma TwoOctets(d2: nat, d3: nat)
    requires d2 < 256 && d3 < 256
    ensures Octets(d2 + 256 * d3, 2) == Popc(d2) + 256 * Popc(d3)
    ensures Popc(d2 + 256 * d3) == Popc(d2) + Popc(d3) && Popc(d2) <= 8 && Popc(d3) <= 8
  {
    assert Popc(0) == 0 && Octets(0, 0) == 0;
    hide Popc, Octets;
    OctetsCat(d2, d3, 1);
    OctetsCat(d3, 0, 0);
  }

  lemma FourOctets(a: nat)
    requires a < 0x1_0000_0000
    ensures TopOctet(Octets(a, 4)) == Popc(a)
  {
    hide Popc, Octets, TopOctet;
    var d0, d1, d2, d3 := Digits(a);
    var x2 := d2 + 256 * d3;
    var x1 := d1 + 256 * x2;
    TwoOctets(d2, d3);
    OctetsCat(d1, x2, 2);
    OctetsCat(d0, x1, 3);
    var r0, r1, r2, r3 := Popc(d0), Popc(d1), Popc(d2), Popc(d3);
    assert Octets(a, 4) == r0 + 0x100 * (r1 + 0x100 * (r2 + 0x100 * r3));
    OctetSum(r0, r1, r2, r3);
  }
}
