// The bit counting of lfs_util.h that the CTZ skip list rests on.

module LfsUtil {
  import opened Bits
  import opened Numbers

  // The number of one bits
  function Popc(n: nat): nat {
    if n == 0 then 0 else n % 2 + Popc(n / 2)
  }

  // The number of trailing zero bits
  function Ctz(n: nat): nat
    requires n > 0
  {
    if n % 2 == 1 then 0 else 1 + Ctz(n / 2)
  }

  // floor(log2(n))
  function Log2(n: nat): nat
    requires n > 0
  {
    if n == 1 then 0 else 1 + Log2(n / 2)
  }

  lemma {:induction false} Log2Bounds(n: nat)
    requires n > 0
    ensures Pow2(Log2(n)) <= n < Pow2(Log2(n) + 1)
  {
    if n > 1 {
      Log2Bounds(n / 2);
    }
  }

  lemma {:induction false} Pow2Monotone(a: nat, b: nat)
    requires a <= b
    ensures Pow2(a) <= Pow2(b)
  {
    if a < b {
      Pow2Monotone(a, b - 1);
    }
  }

  lemma Log2Unique(n: nat, k: nat)
    requires n > 0 && Pow2(k) <= n < Pow2(k + 1)
    ensures Log2(n) == k
  {
    Log2Bounds(n);
    if Log2(n) < k {
      Pow2Monotone(Log2(n) + 1, k);
    } else if Log2(n) > k {
      Pow2Monotone(k + 1, Log2(n));
    }
  }

  lemma {:induction false} Log2Monotone(m: nat, n: nat)
    requires 0 < m <= n
    ensures Log2(m) <= Log2(n)
  {
    if m > 1 {
      Log2Monotone(m / 2, n / 2);
    }
  }

  // Counting down flips the trailing zeros and the lowest one.
  lemma {:induction false} PopcPred(n: nat)
    requires n > 0
    ensures Popc(n - 1) + 1 == Popc(n) + Ctz(n)
  {
    if n % 2 == 0 {
      PopcPred(n / 2);
      assert (n - 1) / 2 == n / 2 - 1;
    }
  }

  lemma {:induction false} PopcBound(n: nat, k: nat)
    requires n < Pow2(k)
    ensures Popc(n) <= k
  {
    if n > 0 {
      PopcBound(n / 2, k - 1);
    }
  }

  lemma {:induction false} CtzBound(n: nat, k: nat)
    requires 0 < n < Pow2(k)
    ensures Ctz(n) < k
  {
    if n % 2 == 0 {
      CtzBound(n / 2, k - 1);
    }
  }

  // 2^k divides n for all k up to Ctz(n), and n is at least that large.
  lemma {:induction false} CtzDivides(n: nat, k: nat)
    requires n > 0 && k <= Ctz(n)
    ensures n % Pow2(k) == 0 && Pow2(k) <= n
  {
    if k > 0 {
      CtzDivides(n / 2, k - 1);
      ModHalf(n, Pow2(k - 1));
      var r := n % Pow2(k);
      assert r / 2 == 0 && r % 2 == 0;
    }
  }

  // Subtracting 2^k, for k below Ctz(n), leaves 2^k the lowest one bit.
  lemma {:induction false} CtzSubLess(n: nat, k: nat)
    requires n > 0 && k < Ctz(n)
    ensures n > Pow2(k) && Ctz(n - Pow2(k)) == k
  {
    CtzDivides(n, k + 1);
    if k > 0 {
      CtzSubLess(n / 2, k - 1);
      assert (n - Pow2(k)) / 2 == n / 2 - Pow2(k - 1);
    }
  }

  // Subtracting the lowest one bit itself raises Ctz.
  lemma {:induction false} CtzSubSame(n: nat)
    requires n > 0
    ensures Pow2(Ctz(n)) <= n
    ensures n > Pow2(Ctz(n)) ==> Ctz(n - Pow2(Ctz(n))) > Ctz(n)
  {
    CtzDivides(n, Ctz(n));
    if n % 2 == 0 {
      CtzSubSame(n / 2);
      assert (n - Pow2(Ctz(n))) / 2 == n / 2 - Pow2(Ctz(n / 2));
    }
  }

  lemma {:induction false} Log2Shift(n: nat, s: nat)
    requires n >= Pow2(s)
    ensures n / Pow2(s) > 0 && Log2(n) == s + Log2(n / Pow2(s))
  {
    if s > 0 {
      Log2Shift(n / 2, s - 1);
      DivTwice(n, Pow2(s - 1));
    }
  }

  lemma DivTwice(a: nat, p: nat)
    requires p > 0
    ensures a / (2 * p) == a / 2 / p
  {
    var q, r := a / (2 * p), a % (2 * p);
    assert a == (2 * p) * q + r;
    var pq := p * q;
    assert (2 * p) * q == 2 * pq;
    assert a / 2 == pq + r / 2;
    DivUnique(a / 2, p, q, r / 2);
  }

  // One round of lfs_npw2: shift by s bits if a has more than s of them.
  method NpwRound(a: nat, r: nat, s: nat, ghost n: nat) returns (a': nat, r': nat)
    requires n > 0 && a > 0 && Log2(n) == r + Log2(a)
    requires a < Pow2(s) * Pow2(s)
    ensures 0 < a' < Pow2(s) && Log2(n) == r' + Log2(a')
  {
    if a >= Pow2(s) {
      Log2Shift(a, s);
      QuotientBound(a, Pow2(s), Pow2(s));
      a', r' := a / Pow2(s), r + s;
    } else {
      a', r' := a, r;
    }
  }

  lemma QuotientBound(a: nat, p: nat, q: nat)
    requires p > 0 && a < q * p
    ensures a / p < q
  {
    var d := a / p;
    assert a == p * d + a % p;
    assert p * d == d * p;
    if d >= q {
      MulOrder(q, d, p);
    }
  }

  // lfs_npw2, the portable version: the exponent of the smallest power of two
  // that is at least a.
  method Npw2(a0: nat) returns (r: nat)
    requires 2 <= a0 <= 0x1_0000_0000
    ensures r == Log2(a0 - 1) + 1
    ensures Pow2(r - 1) < a0 <= Pow2(r)
  {
    ghost var n: nat := a0 - 1;
    var a: nat := a0 - 1;
    r := 0;
    NpwPowers();
    a, r := NpwRound(a, r, 16, n);
    a, r := NpwRound(a, r, 8, n);
    a, r := NpwRound(a, r, 4, n);
    a, r := NpwRound(a, r, 2, n);
    assert a == 1 || a == 2 || a == 3;
    r := r + a / 2 + 1;
    Log2Bounds(n);
  }

  lemma NpwPowers()
    ensures Pow2(16) == 0x1_0000 && Pow2(8) == 0x100 && Pow2(4) == 0x10 && Pow2(2) == 4 && Pow2(1) == 2
  {
    Pow2Values();
    assert Pow2(12) == 0x1000;
  }

  // No bit of x is set in its complement.
  lemma {:induction false} AndComplement(x: nat, n: nat)
    requires x < Pow2(n)
    ensures And(x, Pow2(n) - 1 - x) == 0
  {
    if n > 0 {
      var y := Pow2(n - 1) - 1 - x / 2;
      AndComplement(x / 2, n - 1);
      AndBit(x % 2, x / 2, 1 - x % 2, y);
      assert x == x % 2 + 2 * (x / 2) && Pow2(n) - 1 - x == 1 - x % 2 + 2 * y;
    }
  }

  // a & -a in n bits is the lowest one bit of a.
  lemma {:induction false} LowestBit(a: nat, n: nat)
    requires 0 < a < Pow2(n)
    ensures And(a, Pow2(n) - a) == Pow2(Ctz(a))
  {
    var x := a / 2;
    if a % 2 == 1 {
      var y := Pow2(n - 1) - 1 - x;
      AndComplement(x, n - 1);
      AndBit(1, x, 1, y);
      assert a == 1 + 2 * x && Pow2(n) - a == 1 + 2 * y;
    } else {
      LowestBit(x, n - 1);
      AndBit(0, x, 0, Pow2(n - 1) - x);
      assert a == 2 * x && Pow2(n) - a == 2 * (Pow2(n - 1) - x);
    }
  }

  // lfs_ctz, the portable version
  method CtzOf(a: nat) returns (k: nat)
    requires 0 < a < 0x1_0000_0000
    ensures k == Ctz(a)
  {
    Pow2Values();
    CtzBound(a, 32);
    LowestBit(a, 32);
    CtzDivides(a, Ctz(a));
    var negated := 0x1_0000_0000 - a;
    var lowest := And(a, negated);
    var r := Npw2(lowest + 1);
    Log2Unique(lowest, Ctz(a));
    k := r - 1;
  }
}
