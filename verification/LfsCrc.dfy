// The CRC-32 of littlefs (polynomial of IEEE 802.3, clause 3.2.9, reflected;
// no final exclusive-or), computed nibble by nibble from a table.

module LfsCrc {
  import opened Bits
  import opened Bytes

  const POLY: nat := 0xedb8_8320
  const WORD: nat := 0x1_0000_0000

  const RTABLE: seq<nat> := [
    0x0000_0000, 0x1db7_1064, 0x3b6e_20c8, 0x26d9_30ac, 0x76dc_4190, 0x6b6b_51f4, 0x4db2_6158, 0x5005_713c,
    0xedb8_8320, 0xf00f_9344, 0xd6d6_a3e8, 0xcb61_b38c, 0x9b64_c2b0, 0x86d3_d2d4, 0xa00a_e278, 0xbdbd_f21c
  ]

  // ---- The definition, bit by bit --------------------------------------------------

  // Divide by the polynomial one bit further.
  function BitStep(crc: nat, bit: nat): nat {
    Xor(crc / 2, if crc % 2 == bit % 2 then 0 else POLY)
  }

  // The low k bits of b, the lowest first
  function Feed(crc: nat, b: nat, k: nat): nat
    decreases k
  {
    if k == 0 then crc else Feed(BitStep(crc, b), b / 2, k - 1)
  }

  function CrcOf(crc: nat, data: seq<byte>): nat
    decreases |data|
  {
    if data == [] then crc else CrcOf(Feed(crc, data[0], 8), data[1..])
  }

  // ---- Feeding bits is feeding zeros to the exclusive-or ----------------------------

  // k steps on zero bits
  function Steps(x: nat, k: nat): nat
    decreases k
  {
    if k == 0 then x else Steps(BitStep(x, 0), k - 1)
  }

  lemma StepsNext(x: nat, k: nat)
    requires k > 0
    ensures Steps(x, k) == Steps(BitStep(x, 0), k - 1)
  {
  }

  lemma XorOrder(a: nat, n: nat, p: nat)
    ensures Xor(Xor(a, n), p) == Xor(Xor(a, p), n)
  {
    hide Xor;
    XorAssoc(a, n, p);
    XorComm(n, p);
    XorAssoc(a, p, n);
  }

  // Higher bits wait for their turn.
  lemma StepShift(x: nat, n: nat)
    ensures BitStep(Xor(x, 2 * n), 0) == Xor(BitStep(x, 0), n)
  {
    hide Xor;
    XorStep(x, 2 * n);
    XorOrder(x / 2, n, if x % 2 == 0 then 0 else POLY);
  }

  lemma {:induction false} StepsShift(x: nat, n: nat, k: nat)
    ensures Steps(Xor(x, Pow2(k) * n), k) == Xor(Steps(x, k), n)
    decreases k
  {
    if k > 0 {
      var m := Pow2(k - 1) * n;
      assert Pow2(k) * n == 2 * m;
      StepsNext(x, k);
      StepsNext(Xor(x, 2 * m), k);
      hide Xor, BitStep, Steps, Pow2;
      StepShift(x, m);
      StepsShift(BitStep(x, 0), n, k - 1);
    }
  }

  // The lowest bit decides at once.
  lemma StepBit(crc: nat, bit: nat)
    ensures BitStep(crc, bit) == BitStep(Xor(crc, bit % 2), 0)
  {
    hide Xor;
    XorStep(crc, bit % 2);
    XorZero(crc / 2);
  }

  lemma {:induction false} XorParts(b: nat, w: nat, k: nat)
    requires b < Pow2(k)
    ensures Xor(b, Pow2(k) * w) == b + Pow2(k) * w
  {
    if k == 0 {
      XorComm(0, w);
      XorZero(w);
    } else {
      var m := Pow2(k - 1) * w;
      assert Pow2(k) * w == 2 * m;
      XorParts(b / 2, w, k - 1);
      XorStep(b, 2 * m);
      hide Xor;
      var r := Xor(b, 2 * m);
      assert r == 2 * (r / 2) + r % 2;
    }
  }

  // Exclusive-or with two adjacent fields
  lemma XorFields(crc: nat, b: nat, w: nat, k: nat)
    requires b < Pow2(k)
    ensures Xor(crc, b + Pow2(k) * w) == Xor(Xor(crc, b), Pow2(k) * w)
  {
    hide Xor;
    XorParts(b, w, k);
    XorAssoc(crc, b, Pow2(k) * w);
  }

  lemma {:induction false} FeedIs(crc: nat, b: nat, k: nat)
    requires b < Pow2(k)
    ensures Feed(crc, b, k) == Steps(Xor(crc, b), k)
    decreases k
  {
    if k == 0 {
      XorZero(crc);
    } else {
      hide Xor, BitStep;
      assert Pow2(1) == 2;
      XorFields(crc, b % 2, b / 2, 1);
      StepShift(Xor(crc, b % 2), b / 2);
      StepBit(crc, b);
      FeedIs(BitStep(crc, b), b / 2, k - 1);
    }
  }

  lemma {:induction false} StepsConcat(x: nat, j: nat, k: nat)
    ensures Steps(x, j + k) == Steps(Steps(x, j), k)
    decreases j
  {
    if j > 0 {
      hide BitStep;
      StepsConcat(BitStep(x, 0), j - 1, k);
    }
  }

  // Two fields of j and k bits, one after the other
  lemma TwoFields(crc: nat, b: nat, w: nat, j: nat, k: nat)
    requires b < Pow2(j)
    ensures Steps(Xor(crc, b + Pow2(j) * w), j + k) == Steps(Xor(Steps(Xor(crc, b), j), w), k)
  {
    hide Xor, Steps;
    XorFields(crc, b, w, j);
    StepsConcat(Xor(crc, b + Pow2(j) * w), j, k);
    StepsShift(Xor(crc, b), w, j);
  }

  // ---- The table ---------------------------------------------------------------------

  function BitXor(i: nat, j: nat): nat {
    if i == j then 0 else 1
  }

  function Rest(d: nat, p: nat): nat {
    if d >= p then d - p else d
  }

  function Top(d: nat, e: nat, p: nat): nat {
    if (d >= p) == (e >= p) then 0 else p
  }

  // Exclusive-or of two hexadecimal digits, from the highest bit down
  function HexXor(d: nat, e: nat): nat {
    var d3, e3 := Rest(d, 8), Rest(e, 8);
    var d2, e2 := Rest(d3, 4), Rest(e3, 4);
    Top(d, e, 8) + Top(d3, e3, 4) + Top(d2, e2, 2) + Top(Rest(d2, 2), Rest(e2, 2), 1)
  }

  lemma XorBit(i: nat, x: nat, j: nat, y: nat)
    requires i < 2 && j < 2
    ensures Xor(i + 2 * x, j + 2 * y) == BitXor(i, j) + 2 * Xor(x, y)
  {
    assert (i + 2 * x) / 2 == x && (j + 2 * y) / 2 == y;
    XorStep(i + 2 * x, j + 2 * y);
    hide Xor;
    var r := Xor(i + 2 * x, j + 2 * y);
    assert r == 2 * (r / 2) + r % 2;
  }

  lemma XorBits(d0: nat, d1: nat, d2: nat, d3: nat, x: nat, e0: nat, e1: nat, e2: nat, e3: nat, y: nat)
    requires d0 < 2 && d1 < 2 && d2 < 2 && d3 < 2 && e0 < 2 && e1 < 2 && e2 < 2 && e3 < 2
    ensures Xor(d0 + 2 * (d1 + 2 * (d2 + 2 * (d3 + 2 * x))), e0 + 2 * (e1 + 2 * (e2 + 2 * (e3 + 2 * y)))) ==
            BitXor(d0, e0) + 2 * (BitXor(d1, e1) + 2 * (BitXor(d2, e2) + 2 * (BitXor(d3, e3) + 2 * Xor(x, y))))
  {
    hide Xor, BitXor;
    XorBit(d0, d1 + 2 * (d2 + 2 * (d3 + 2 * x)), e0, e1 + 2 * (e2 + 2 * (e3 + 2 * y)));
    XorBit(d1, d2 + 2 * (d3 + 2 * x), e1, e2 + 2 * (e3 + 2 * y));
    XorBit(d2, d3 + 2 * x, e2, e3 + 2 * y);
    XorBit(d3, x, e3, y);
  }

  lemma HexBits(d: nat) returns (d0: nat, d1: nat, d2: nat, d3: nat)
    requires d < 16
    ensures d0 < 2 && d1 < 2 && d2 < 2 && d3 < 2 && d == d0 + 2 * (d1 + 2 * (d2 + 2 * d3))
  {
    d0, d1, d2, d3 := d % 2, d / 2 % 2, d / 4 % 2, d / 8;
  }

  lemma HexOfBits(d0: nat, d1: nat, d2: nat, d3: nat, e0: nat, e1: nat, e2: nat, e3: nat)
    requires d0 < 2 && d1 < 2 && d2 < 2 && d3 < 2 && e0 < 2 && e1 < 2 && e2 < 2 && e3 < 2
    ensures HexXor(d0 + 2 * (d1 + 2 * (d2 + 2 * d3)), e0 + 2 * (e1 + 2 * (e2 + 2 * e3))) ==
            BitXor(d0, e0) + 2 * (BitXor(d1, e1) + 2 * (BitXor(d2, e2) + 2 * BitXor(d3, e3)))
  {
    hide Rest, Top, BitXor;
    TopOf(d0 + 2 * (d1 + 2 * d2), d3, e0 + 2 * (e1 + 2 * e2), e3, 8);
    TopOf(d0 + 2 * d1, d2, e0 + 2 * e1, e2, 4);
    TopOf(d0, d1, e0, e1, 2);
    TopOf(0, d0, 0, e0, 1);
  }

  lemma TopOf(low: nat, bit: nat, low': nat, bit': nat, p: nat)
    requires low < p && bit < 2 && low' < p && bit' < 2
    ensures Rest(low + p * bit, p) == low && Rest(low' + p * bit', p) == low'
    ensures Top(low + p * bit, low' + p * bit', p) == p * BitXor(bit, bit')
  {
    assert p * bit == if bit == 1 then p else 0;
    assert p * bit' == if bit' == 1 then p else 0;
  }

  lemma XorHex(d: nat, x: nat, e: nat, y: nat)
    requires d < 16 && e < 16
    ensures Xor(d + 16 * x, e + 16 * y) == HexXor(d, e) + 16 * Xor(x, y)
  {
    hide Xor, BitXor, HexXor;
    var d0, d1, d2, d3 := HexBits(d);
    var e0, e1, e2, e3 := HexBits(e);
    HexOfBits(d0, d1, d2, d3, e0, e1, e2, e3);
    XorBits(d0, d1, d2, d3, x, e0, e1, e2, e3, y);
    assert d + 16 * x == d0 + 2 * (d1 + 2 * (d2 + 2 * (d3 + 2 * x)));
    assert e + 16 * y == e0 + 2 * (e1 + 2 * (e2 + 2 * (e3 + 2 * y)));
  }

  lemma XorZeros()
    ensures Xor(0, 0) == 0
  {
  }

  // Four hexadecimal digits, the lowest first
  function Hex4(d0: nat, d1: nat, d2: nat, d3: nat): nat {
    d0 + 16 * (d1 + 16 * (d2 + 16 * d3))
  }

  lemma XorHalf(d0: nat, d1: nat, d2: nat, d3: nat, x: nat, e0: nat, e1: nat, e2: nat, e3: nat, y: nat)
    requires d0 < 16 && d1 < 16 && d2 < 16 && d3 < 16 && e0 < 16 && e1 < 16 && e2 < 16 && e3 < 16
    ensures Xor(Hex4(d0, d1, d2, d3) + 0x1_0000 * x, Hex4(e0, e1, e2, e3) + 0x1_0000 * y) ==
            Hex4(HexXor(d0, e0), HexXor(d1, e1), HexXor(d2, e2), HexXor(d3, e3)) + 0x1_0000 * Xor(x, y)
  {
    hide Xor, HexXor;
    XorHex(d0, d1 + 16 * (d2 + 16 * (d3 + 16 * x)), e0, e1 + 16 * (e2 + 16 * (e3 + 16 * y)));
    XorHex(d1, d2 + 16 * (d3 + 16 * x), e1, e2 + 16 * (e3 + 16 * y));
    XorHex(d2, d3 + 16 * x, e2, e3 + 16 * y);
    XorHex(d3, x, e3, y);
  }

  lemma PolyXor(d0: nat, d1: nat, d2: nat, d3: nat, d4: nat, d5: nat, d6: nat, d7: nat)
    requires d0 < 16 && d1 < 16 && d2 < 16 && d3 < 16 && d4 < 16 && d5 < 16 && d6 < 16 && d7 < 16
    ensures Xor(Hex4(d0, d1, d2, d3) + 0x1_0000 * Hex4(d4, d5, d6, d7), POLY) ==
            Hex4(HexXor(d0, 0), HexXor(d1, 2), HexXor(d2, 3), HexXor(d3, 8))
            + 0x1_0000 * Hex4(HexXor(d4, 8), HexXor(d5, 0xb), HexXor(d6, 0xd), HexXor(d7, 0xe))
  {
    XorZeros();
    hide Xor, HexXor;
    XorHalf(d0, d1, d2, d3, Hex4(d4, d5, d6, d7), 0, 2, 3, 8, 0xedb8);
    XorHalf(d4, d5, d6, d7, 0, 8, 0xb, 0xd, 0xe, 0);
  }

  // A row of the upper half is the row of the lower half with the polynomial.
  lemma PolyRow1()
    ensures Xor(0x1db7_1064, POLY) == 0xf00f_9344
  {
    PolyXor(4, 6, 0, 1, 7, 0xb, 0xd, 1);
    hide Xor;
  }

  lemma PolyRow2()
    ensures Xor(0x3b6e_20c8, POLY) == 0xd6d6_a3e8
  {
    PolyXor(8, 0xc, 0, 2, 0xe, 6, 0xb, 3);
    hide Xor;
  }

  lemma PolyRow3()
    ensures Xor(0x26d9_30ac, POLY) == 0xcb61_b38c
  {
    PolyXor(0xc, 0xa, 0, 3, 9, 0xd, 6, 2);
    hide Xor;
  }

  lemma PolyRow4()
    ensures Xor(0x76dc_4190, POLY) == 0x9b64_c2b0
  {
    PolyXor(0, 9, 1, 4, 0xc, 0xd, 6, 7);
    hide Xor;
  }

  lemma PolyRow5()
    ensures Xor(0x6b6b_51f4, POLY) == 0x86d3_d2d4
  {
    PolyXor(4, 0xf, 1, 5, 0xb, 6, 0xb, 6);
    hide Xor;
  }

  lemma PolyRow6()
    ensures Xor(0x4db2_6158, POLY) == 0xa00a_e278
  {
    PolyXor(8, 5, 1, 6, 2, 0xb, 0xd, 4);
    hide Xor;
  }

  lemma PolyRow7()
    ensures Xor(0x5005_713c, POLY) == 0xbdbd_f21c
  {
    PolyXor(0xc, 3, 1, 7, 5, 0, 0, 5);
    hide Xor;
  }

  // The basic rows: one bit moves out of the register.
  lemma Basic(x: nat)
    requires x % 2 == 0
    ensures BitStep(x, 0) == x / 2
  {
    XorZero(x / 2);
  }

  lemma BasicOne()
    ensures BitStep(1, 0) == POLY
  {
    XorComm(0, POLY);
    XorZero(POLY);
  }

  lemma BasicRows()
    ensures Steps(0, 4) == RTABLE[0] && Steps(1, 4) == RTABLE[1] && Steps(2, 4) == RTABLE[2]
    ensures Steps(4, 4) == RTABLE[4] && Steps(8, 4) == RTABLE[8]
  {
    hide Xor, BitStep;
    BasicOne();
    Basic(0);
    Basic(2);
    Basic(4);
    Basic(8);
    Basic(POLY);
    Basic(POLY / 2);
    Basic(POLY / 4);
    assert Steps(1, 4) == Steps(POLY, 3) == Steps(POLY / 2, 2) == Steps(POLY / 4, 1);
    assert Steps(2, 4) == Steps(1, 3) == Steps(POLY, 2) == Steps(POLY / 2, 1);
    assert Steps(4, 4) == Steps(2, 3) == Steps(1, 2) == Steps(POLY, 1);
    assert Steps(8, 4) == Steps(4, 3) == Steps(2, 2) == Steps(1, 1);
    assert Steps(0, 4) == Steps(0, 3) == Steps(0, 2) == Steps(0, 1);
  }

  lemma {:induction false} StepsXor(x: nat, y: nat, k: nat)
    ensures Steps(Xor(x, y), k) == Xor(Steps(x, k), Steps(y, k))
    decreases k
  {
    if k > 0 {
      StepsNext(x, k);
      StepsNext(y, k);
      StepsNext(Xor(x, y), k);
      hide Xor, BitStep, Steps;
      StepXor(x, y);
      StepsXor(BitStep(x, 0), BitStep(y, 0), k - 1);
    }
  }

  lemma StepXor(x: nat, y: nat)
    ensures BitStep(Xor(x, y), 0) == Xor(BitStep(x, 0), BitStep(y, 0))
  {
    hide Xor;
    XorStep(x, y);
    var p, q: nat := if x % 2 == 0 then 0 else POLY, if y % 2 == 0 then 0 else POLY;
    XorZero(p);
    XorSelf(POLY);
    XorComm(p, q);
    XorZero(q);
    assert Xor(p, q) == if x % 2 == y % 2 then 0 else POLY;
    XorSwap(x / 2, y / 2, p, q);
  }

  lemma XorSwap(a: nat, b: nat, p: nat, q: nat)
    ensures Xor(Xor(a, b), Xor(p, q)) == Xor(Xor(a, p), Xor(b, q))
  {
    hide Xor;
    XorAssoc(Xor(a, b), p, q);
    XorOrder(a, b, p);
    XorAssoc(Xor(a, p), b, q);
  }

  lemma SmallXor(t: nat)
    requires t < 8
    ensures Xor(t, 8) == t + 8
  {
    assert Pow2(3) == 8;
    XorParts(t, 1, 3);
  }

  // Half the index is one step more.
  lemma HalfRow(u: nat)
    ensures Steps(u, 4) == BitStep(Steps(2 * u, 4), 0)
  {
    Basic(2 * u);
    assert 2 * u / 2 == u;
    assert Steps(2 * u, 4) == Steps(BitStep(2 * u, 0), 3);
    hide BitStep;
    StepsLast(u, 3);
  }

  lemma {:induction false} StepsLast(x: nat, k: nat)
    ensures Steps(x, k + 1) == BitStep(Steps(x, k), 0)
  {
    hide BitStep;
    StepsConcat(x, k, 1);
  }

  lemma UpperRow(t: nat)
    requires t < 8
    ensures Steps(t + 8, 4) == Xor(Steps(t, 4), POLY)
  {
    hide Xor, Steps;
    SmallXor(t);
    StepsXor(t, 8, 4);
    BasicRows();
  }

  lemma EvenRows()
    ensures Steps(12, 4) == 0x9b64_c2b0 && Steps(6, 4) == 0x4db2_6158 && Steps(14, 4) == 0xa00a_e278
    ensures Steps(10, 4) == 0xd6d6_a3e8
  {
    hide Xor, Steps, BitStep;
    BasicRows();
    UpperRow(4);
    PolyRow4();
    HalfRow(6);
    Basic(0x9b64_c2b0);
    UpperRow(6);
    PolyRow6();
    UpperRow(2);
    PolyRow2();
  }

  lemma OddRowsLow()
    ensures Steps(3, 4) == 0x26d9_30ac && Steps(5, 4) == 0x6b6b_51f4 && Steps(7, 4) == 0x5005_713c
  {
    hide Xor, Steps, BitStep;
    EvenRows();
    HalfRow(3);
    Basic(0x4db2_6158);
    HalfRow(5);
    Basic(0xd6d6_a3e8);
    HalfRow(7);
    Basic(0xa00a_e278);
  }

  lemma OddRowsHigh()
    ensures Steps(9, 4) == 0xf00f_9344 && Steps(11, 4) == 0xcb61_b38c && Steps(13, 4) == 0x86d3_d2d4
    ensures Steps(15, 4) == 0xbdbd_f21c
  {
    hide Xor, Steps, BitStep;
    BasicRows();
    OddRowsLow();
    UpperRow(1);
    PolyRow1();
    UpperRow(3);
    PolyRow3();
    UpperRow(5);
    PolyRow5();
    UpperRow(7);
    PolyRow7();
  }

  // Every row of the table is four steps of its index.
  lemma TableIs(t: nat)
    requires t < 16
    ensures RTABLE[t] == Steps(t, 4)
  {
    hide Xor, Steps, BitStep;
    BasicRows();
    EvenRows();
    OddRowsLow();
    OddRowsHigh();
  }

  // ---- lfs_crc -------------------------------------------------------------------------

  lemma XorQuarters(a: nat, b: nat)
    ensures Xor(a, b) / 4 == Xor(a / 4, b / 4)
  {
    hide Xor;
    XorStep(a, b);
    XorStep(a / 2, b / 2);
    Quarter(a);
    Quarter(b);
    Quarter(Xor(a, b));
  }

  lemma Quarter(a: nat)
    ensures a / 2 / 2 == a / 4 && a / 4 / 4 == a / 16
  {
  }

  lemma XorHigh(a: nat, b: nat)
    ensures Xor(a, b) / 16 == Xor(a / 16, b / 16)
  {
    hide Xor;
    XorQuarters(a, b);
    XorQuarters(a / 4, b / 4);
    Quarter(a);
    Quarter(b);
    Quarter(Xor(a, b));
  }

  // One lookup: four steps on the register with the nibble fed.
  lemma NibbleIs(x: nat)
    ensures Steps(x, 4) == Xor(x / 16, RTABLE[x % 16])
  {
    hide Xor, Steps;
    assert Pow2(4) == 16;
    XorParts(x % 16, x / 16, 4);
    StepsShift(x % 16, x / 16, 4);
    TableIs(x % 16);
    XorComm(RTABLE[x % 16], x / 16);
  }

  lemma LowNibble(crc: nat, b: nat)
    ensures Xor(crc, b % 16) / 16 == crc / 16 && Xor(crc, b % 16) % 16 == Xor(crc, b) % 16
  {
    hide Xor;
    assert Pow2(4) == 16;
    XorHigh(crc, b % 16);
    XorZero(crc / 16);
    XorLow(crc, b % 16, 4);
    XorLow(crc, b, 4);
  }

  // One round of lfs_crc
  method FeedByte(crc0: nat, b: byte) returns (crc: nat)
    ensures crc == Feed(crc0, b, 8)
  {
    hide Xor, Steps, Feed;
    crc := Xor(crc0 / 16, RTABLE[Xor(crc0, b) % 16]);
    crc := Xor(crc / 16, RTABLE[Xor(crc, b / 16) % 16]);
    TwoNibbles(crc0, b);
  }

  lemma TwoNibbles(crc: nat, b: byte)
    ensures var crc1 := Xor(crc / 16, RTABLE[Xor(crc, b) % 16]);
      Xor(crc1 / 16, RTABLE[Xor(crc1, b / 16) % 16]) == Feed(crc, b, 8)
  {
    hide Xor, Steps, Feed;
    assert Pow2(4) == 16 && Pow2(8) == 256;
    LowNibble(crc, b);
    NibbleIs(Xor(crc, b % 16));
    var crc1 := Xor(crc / 16, RTABLE[Xor(crc, b) % 16]);
    LowNibble(crc1, b / 16);
    NibbleIs(Xor(crc1, b / 16));
    TwoFields(crc, b % 16, b / 16, 4, 4);
    FeedIs(crc, b, 8);
  }

  // lfs_crc
  method Crc(crc0: nat, data: seq<byte>) returns (crc: nat)
    requires crc0 < WORD
    ensures crc == CrcOf(crc0, data) < WORD
  {
    hide Feed;
    crc := crc0;
    var i: nat := 0;
    while i < |data|
      invariant i <= |data| && CrcOf(crc, data[i..]) == CrcOf(crc0, data)
    {
      crc := FeedByte(crc, data[i]);
      assert data[i..][1..] == data[i + 1..];
      i := i + 1;
    }
    CrcSmall(crc0, data);
  }

  lemma StepSmall(x: nat, bit: nat)
    requires x < WORD
    ensures BitStep(x, bit) < WORD
  {
    Pow2Values();
    XorBound(x / 2, if x % 2 == bit % 2 then 0 else POLY, 32);
  }

  lemma {:induction false} FeedSmall(x: nat, b: nat, k: nat)
    requires x < WORD
    ensures Feed(x, b, k) < WORD
    decreases k
  {
    if k > 0 {
      hide BitStep;
      StepSmall(x, b);
      FeedSmall(BitStep(x, b), b / 2, k - 1);
    }
  }

  lemma {:induction false} CrcSmall(crc: nat, data: seq<byte>)
    requires crc < WORD
    ensures CrcOf(crc, data) < WORD
    decreases |data|
  {
    if data != [] {
      hide Feed;
      FeedSmall(crc, data[0], 8);
      CrcSmall(Feed(crc, data[0], 8), data[1..]);
    }
  }

  // ---- What it detects -----------------------------------------------------------------

  lemma {:induction false} CrcConcat(crc: nat, a: seq<byte>, b: seq<byte>)
    ensures CrcOf(crc, a + b) == CrcOf(CrcOf(crc, a), b)
    decreases |a|
  {
    hide Feed;
    if a == [] {
      assert a + b == b;
    } else {
      assert (a + b)[1..] == a[1..] + b;
      CrcConcat(Feed(crc, a[0], 8), a[1..], b);
    }
  }

  // Bytes as one number, the first byte lowest
  function Le(x: seq<byte>): nat {
    if x == [] then 0 else x[0] + 256 * Le(x[1..])
  }

  lemma ByteFirst(c: nat, b: byte, w: nat, k: nat)
    ensures Steps(Xor(c, b + 256 * w), 8 + k) == Steps(Xor(Feed(c, b, 8), w), k)
  {
    assert Pow2(8) == 256;
    hide Xor, Steps, Feed, Pow2;
    FeedIs(c, b, 8);
    TwoFields(c, b, w, 8, k);
  }

  lemma CrcNext(c: nat, x: seq<byte>)
    requires x != []
    ensures CrcOf(c, x) == CrcOf(Feed(c, x[0], 8), x[1..]) && Le(x) == x[0] + 256 * Le(x[1..])
    ensures 8 * |x| == 8 + 8 * |x[1..]|
  {
  }

  // The CRC of bytes is a division of one number.
  lemma {:induction false} CrcIs(c: nat, x: seq<byte>)
    ensures CrcOf(c, x) == Steps(Xor(c, Le(x)), 8 * |x|)
    decreases |x|
  {
    if x == [] {
      XorZero(c);
    } else {
      CrcNext(c, x);
      hide Xor, Steps, Feed, CrcOf, Le;
      CrcIs(Feed(c, x[0], 8), x[1..]);
      ByteFirst(c, x[0], Le(x[1..]), 8 * |x[1..]|);
    }
  }

  lemma {:induction false} XorTop(a: nat, b: nat, n: nat)
    requires a < Pow2(n) <= b < Pow2(n + 1)
    ensures Xor(a, b) >= Pow2(n)
  {
    XorStep(a, b);
    if n == 0 {
      XorZeros();
    } else {
      XorTop(a / 2, b / 2, n - 1);
    }
  }

  lemma StepInjective(x: nat, y: nat)
    requires x < WORD && y < WORD && BitStep(x, 0) == BitStep(y, 0)
    ensures x == y
  {
    Pow2Values();
    hide Xor, Pow2;
    XorZero(x / 2);
    XorZero(y / 2);
    XorTop(x / 2, POLY, 31);
    XorTop(y / 2, POLY, 31);
    XorCancel(x / 2, POLY);
    XorCancel(y / 2, POLY);
  }

  lemma {:induction false} StepsInjective(x: nat, y: nat, k: nat)
    requires x < WORD && y < WORD && Steps(x, k) == Steps(y, k)
    ensures x == y
    decreases k
  {
    if k > 0 {
      hide BitStep;
      StepSmall(x, 0);
      StepSmall(y, 0);
      StepsInjective(BitStep(x, 0), BitStep(y, 0), k - 1);
      StepInjective(x, y);
    }
  }

  lemma {:induction false} StepsZero(k: nat)
    ensures Steps(0, k) == 0
  {
    if k > 0 {
      XorZeros();
      hide Xor;
      StepsZero(k - 1);
    }
  }

  lemma XorSame(a: nat, b: nat, c: nat)
    requires Xor(a, b) == Xor(a, c)
    ensures b == c
  {
    hide Xor;
    XorComm(a, b);
    XorComm(a, c);
    XorCancel(b, a);
    XorCancel(c, a);
  }

  lemma XorWord(a: nat, b: nat)
    requires a < WORD && b < WORD
    ensures Xor(a, b) < WORD
  {
    Pow2Values();
    XorBound(a, b, 32);
  }

  lemma FourBytes(four: seq<byte>)
    requires |four| == 4
    ensures Le(four) == FromLe32(four) < WORD
  {
    assert Le(four[3..]) == four[3] && four[2..][1..] == four[3..];
    assert Le(four[2..]) == four[2] + 256 * Le(four[3..]) && four[1..][1..] == four[2..];
    assert Le(four[1..]) == four[1] + 256 * Le(four[2..]);
  }

  // Data and four more bytes close to zero exactly when these are the checksum
  // of the data.
  lemma ChecksumCloses(crc: nat, data: seq<byte>, four: seq<byte>)
    requires crc < WORD && |four| == 4
    ensures CrcOf(crc, data + four) == 0 <==> FromLe32(four) == CrcOf(crc, data)
  {
    hide CrcOf, Xor, Steps, Le, FromLe32;
    var c := CrcOf(crc, data);
    CrcSmall(crc, data);
    CrcConcat(crc, data, four);
    CrcIs(c, four);
    FourBytes(four);
    XorWord(c, Le(four));
    StepsZero(32);
    XorSelf(c);
    if CrcOf(crc, data + four) == 0 {
      StepsInjective(Xor(c, Le(four)), 0, 32);
      XorSame(c, Le(four), c);
    }
  }

  // Feeding a CRC its own little-endian bytes gives zero.
  lemma OwnBytes(crc: nat, data: seq<byte>)
    requires crc < WORD
    ensures CrcOf(crc, data) < WORD && CrcOf(crc, data + Le32(CrcOf(crc, data))) == 0
  {
    hide CrcOf, Le32, FromLe32;
    CrcSmall(crc, data);
    FromToLe32(CrcOf(crc, data));
    ChecksumCloses(crc, data, Le32(CrcOf(crc, data)));
  }

  // Different registers stay different over any data.
  lemma {:induction false} CrcInjective(x: nat, y: nat, data: seq<byte>)
    requires x < WORD && y < WORD && CrcOf(x, data) == CrcOf(y, data)
    ensures x == y
    decreases |data|
  {
    if data != [] {
      hide Feed, Steps, Xor;
      var b := data[0];
      assert Pow2(8) == 256;
      FeedSmall(x, b, 8);
      FeedSmall(y, b, 8);
      CrcInjective(Feed(x, b, 8), Feed(y, b, 8), data[1..]);
      FeedIs(x, b, 8);
      FeedIs(y, b, 8);
      XorWord(x, b);
      XorWord(y, b);
      StepsInjective(Xor(x, b), Xor(y, b), 8);
      XorComm(x, b);
      XorComm(y, b);
      XorSame(b, x, y);
    }
  }

  lemma {:induction false} LeInjective(x: seq<byte>, y: seq<byte>)
    requires |x| == |y| && Le(x) == Le(y)
    ensures x == y
  {
    if x != [] {
      LeInjective(x[1..], y[1..]);
      assert x == [x[0]] + x[1..] && y == [y[0]] + y[1..];
    }
  }

  lemma {:induction false} LeSmall(x: seq<byte>)
    requires |x| <= 4
    ensures Le(x) < WORD && (|x| <= 3 ==> Le(x) < 0x100_0000) && (|x| <= 2 ==> Le(x) < 0x1_0000)
    ensures |x| <= 1 ==> Le(x) < 256
  {
    if x != [] {
      LeSmall(x[1..]);
    }
  }

  // Any change confined to four consecutive bytes changes the CRC.
  lemma BurstDetected(crc: nat, before: seq<byte>, x: seq<byte>, y: seq<byte>, behind: seq<byte>)
    requires crc < WORD && |x| == |y| <= 4 && x != y
    ensures CrcOf(crc, before + x + behind) != CrcOf(crc, before + y + behind)
  {
    hide CrcOf, Steps, Xor, Le;
    var c := CrcOf(crc, before);
    CrcConcat(crc, before + x, behind);
    CrcConcat(crc, before, x);
    CrcConcat(crc, before + y, behind);
    CrcConcat(crc, before, y);
    CrcSmall(crc, before);
    CrcSmall(c, x);
    CrcSmall(c, y);
    if CrcOf(CrcOf(c, x), behind) == CrcOf(CrcOf(c, y), behind) {
      CrcInjective(CrcOf(c, x), CrcOf(c, y), behind);
      PieceDetected(c, x, y);
    }
  }

  lemma PieceDetected(c: nat, x: seq<byte>, y: seq<byte>)
    requires c < WORD && |x| == |y| <= 4 && CrcOf(c, x) == CrcOf(c, y)
    ensures x == y
  {
    hide CrcOf, Steps, Xor, Le;
    CrcIs(c, x);
    CrcIs(c, y);
    LeSmall(x);
    LeSmall(y);
    XorWord(c, Le(x));
    XorWord(c, Le(y));
    StepsInjective(Xor(c, Le(x)), Xor(c, Le(y)), 8 * |x|);
    XorSame(c, Le(x), Le(y));
    LeInjective(x, y);
  }
}
