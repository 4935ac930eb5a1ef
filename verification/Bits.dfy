// Bitwise operations and powers of two on unbounded naturals.

module Bits {
  function Xor(a: nat, b: nat): nat {
    if a == 0 && b == 0 then 0
    else 2 * Xor(a / 2, b / 2) + (if a % 2 == b % 2 then 0 else 1)
  }

  function Pow2(n: nat): (p: nat)
    ensures p > 0
  {
    if n == 0 then 1 else 2 * Pow2(n - 1)
  }

  lemma {:induction false} XorStep(a: nat, b: nat)
    ensures Xor(a, b) / 2 == Xor(a / 2, b / 2)
    ensures Xor(a, b) % 2 == if a % 2 == b % 2 then 0 else 1
  {
  }

  lemma {:induction false} XorComm(a: nat, b: nat)
    ensures Xor(a, b) == Xor(b, a)
  {
    if a != 0 || b != 0 {
      XorComm(a / 2, b / 2);
    }
  }

  lemma {:induction false} XorZero(a: nat)
    ensures Xor(a, 0) == a
  {
    if a != 0 {
      XorZero(a / 2);
    }
  }

  lemma {:induction false} XorSelf(a: nat)
    ensures Xor(a, a) == 0
  {
    if a != 0 {
      XorSelf(a / 2);
    }
  }

  lemma {:induction false} XorAssoc(a: nat, b: nat, c: nat)
    ensures Xor(Xor(a, b), c) == Xor(a, Xor(b, c))
    decreases a + b + c
  {
    if a != 0 || b != 0 || c != 0 {
      XorStep(a, b);
      XorStep(b, c);
      XorStep(Xor(a, b), c);
      XorStep(a, Xor(b, c));
      XorAssoc(a / 2, b / 2, c / 2);
    }
  }

  // Exclusive-or undoes itself.
  lemma {:induction false} XorCancel(a: nat, b: nat)
    ensures Xor(Xor(a, b), b) == a
    ensures Xor(Xor(a, b), a) == b
  {
    XorAssoc(a, b, b);
    XorSelf(b);
    XorZero(a);
    XorComm(a, b);
    XorAssoc(b, a, a);
    XorSelf(a);
    XorZero(b);
  }

  // Exclusive-or works on the low n bits alone.
  lemma {:induction false} XorLow(a: nat, b: nat, n: nat)
    ensures Xor(a, b) % Pow2(n) == Xor(a % Pow2(n), b % Pow2(n))
  {
    if n != 0 {
      XorLow(a / 2, b / 2, n - 1);
      XorStep(a, b);
      ModHalf(a, Pow2(n - 1));
      ModHalf(b, Pow2(n - 1));
      ModHalf(Xor(a, b), Pow2(n - 1));
      XorStep(a % Pow2(n), b % Pow2(n));
      var x, y := Xor(a, b) % Pow2(n), Xor(a % Pow2(n), b % Pow2(n));
      assert x / 2 == y / 2 && x % 2 == y % 2;
    }
  }

  lemma Pow2Values()
    ensures Pow2(31) == 0x8000_0000 && Pow2(32) == 0x1_0000_0000 && Pow2(10) == 0x400
  {
    assert Pow2(8) == 0x100 && Pow2(10) == 0x400;
    assert Pow2(16) == 0x1_0000 by { assert Pow2(12) == 0x1000; }
    assert Pow2(24) == 0x100_0000 by { assert Pow2(20) == 0x10_0000; }
    assert Pow2(28) == 0x1000_0000;
  }

  lemma {:induction false} XorLowRight(a: nat, b: nat, n: nat)
    requires a < Pow2(n)
    ensures Xor(a, b) % Pow2(n) == Xor(a, b % Pow2(n))
  {
    XorLow(a, b, n);
    DivUnique(a, Pow2(n), 0, a);
  }

  lemma ModHalf(a: nat, p: nat)
    requires p > 0
    ensures a % (2 * p) / 2 == a / 2 % p
    ensures a % (2 * p) % 2 == a % 2
  {
    var q, r := a / (2 * p), a % (2 * p);
    assert a == (2 * p) * q + r;
    var pq := p * q;
    assert (2 * p) * q == 2 * pq;
    assert a / 2 == pq + r / 2;
    DivUnique(a / 2, p, q, r / 2);
  }

  lemma DivUnique(a: nat, p: nat, q: nat, r: nat)
    requires p > 0 && r < p && a == p * q + r
    ensures a / p == q && a % p == r
  {
    var q', r' := a / p, a % p;
    var d := q' - q;
    assert p * q' == p * q + p * d;
    assert p * d == r - r';
    assert p * -d == r' - r;
    if d > 0 {
      MulAtLeast(p, d);
    } else if d < 0 {
      MulAtLeast(p, -d);
    }
  }

  lemma MulAtLeast(p: nat, d: nat)
    requires d > 0
    ensures p * d >= p
  {
  }

  lemma {:induction false} XorBound(a: nat, b: nat, n: nat)
    requires a < Pow2(n) && b < Pow2(n)
    ensures Xor(a, b) < Pow2(n)
  {
    if n != 0 {
      XorBound(a / 2, b / 2, n - 1);
    }
  }

  // a with its low n bits cleared
  function ClearLow(a: nat, n: nat): nat {
    if n == 0 then a else 2 * ClearLow(a / 2, n - 1)
  }

  lemma {:induction false} ClearLowIs(a: nat, n: nat)
    ensures ClearLow(a, n) == a - a % Pow2(n)
  {
    if n != 0 {
      ClearLowIs(a / 2, n - 1);
      ModHalf(a, Pow2(n - 1));
      var r := a % Pow2(n);
      assert a == 2 * (a / 2) + a % 2 && r == 2 * (r / 2) + r % 2;
    }
  }

  lemma ClearLowStep(a: nat, n: nat)
    requires n > 0
    ensures ClearLow(a, n) / 2 == ClearLow(a / 2, n - 1) && ClearLow(a, n) % 2 == 0
  {
  }

  lemma {:induction false} XorClearLow(a: nat, b: nat, n: nat)
    ensures ClearLow(Xor(a, b), n) == Xor(ClearLow(a, n), ClearLow(b, n))
  {
    if n != 0 {
      XorStep(a, b);
      XorClearLow(a / 2, b / 2, n - 1);
      XorStep(ClearLow(a, n), ClearLow(b, n));
      ClearLowStep(a, n);
      ClearLowStep(b, n);
      ClearLowStep(Xor(a, b), n);
      hide Xor, ClearLow;
      var x, y := ClearLow(Xor(a, b), n), Xor(ClearLow(a, n), ClearLow(b, n));
      assert x == 2 * (x / 2) + x % 2 && y == 2 * (y / 2) + y % 2;
    }
  }

  lemma {:induction false} ClearLowTwice(a: nat, n: nat)
    ensures ClearLow(ClearLow(a, n), n) == ClearLow(a, n)
  {
    if n != 0 {
      ClearLowTwice(a / 2, n - 1);
    }
  }

  function And(a: nat, b: nat): nat {
    if a == 0 || b == 0 then 0
    else 2 * And(a / 2, b / 2) + if a % 2 == 1 && b % 2 == 1 then 1 else 0
  }

  lemma {:induction false} AndBit(i: nat, x: nat, j: nat, y: nat)
    requires i < 2 && j < 2
    ensures And(i + 2 * x, j + 2 * y) == 2 * And(x, y) + if i == 1 && j == 1 then 1 else 0
  {
    assert (i + 2 * x) / 2 == x && (j + 2 * y) / 2 == y;
  }
}
