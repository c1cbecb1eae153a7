/** Unsigned bit arithmetic on naturals: the operations `similarity.rs` does on `u64`, and how they
    split at a bit position. */
module Bits {

  function Pow2(n: nat): (p: nat)
    ensures p > 0
  {
    if n == 0 then 1 else 2 * Pow2(n - 1)
  }

  /** `x >> n` */
  function Shr(x: nat, n: nat): nat {
    DivNat(x, Pow2(n));
    x / Pow2(n)
  }

  /** The low `n` bits. */
  function Low(x: nat, n: nat): nat {
    x % Pow2(n)
  }

  /** `count_ones` */
  function Pop(x: nat): nat {
    if x == 0 then 0 else x % 2 + Pop(x / 2)
  }

  function Xor(a: nat, b: nat): nat
    decreases a + b
  {
    if a == 0 && b == 0 then 0 else (a + b) % 2 + 2 * Xor(a / 2, b / 2)
  }

  function Or(a: nat, b: nat): nat
    decreases a + b
  {
    if a == 0 && b == 0 then 0 else (if a % 2 == 1 || b % 2 == 1 then 1 else 0) + 2 * Or(a / 2, b / 2)
  }

  function And(a: nat, b: nat): nat
    decreases a + b
  {
    if a == 0 && b == 0 then 0 else (if a % 2 == 1 && b % 2 == 1 then 1 else 0) + 2 * And(a / 2, b / 2)
  }

  /** 64 less the number of leading zeros. */
  function BitLen(x: nat): nat {
    if x == 0 then 0 else 1 + BitLen(x / 2)
  }

  // ----- Splitting at a bit position

  lemma {:induction false} Pow2Sum(a: nat, b: nat)
    ensures Pow2(a + b) == Pow2(a) * Pow2(b)
  {
    if a > 0 { Pow2Sum(a - 1, b); }
  }

  lemma {:induction false} Pow2Monotone(a: nat, b: nat)
    requires a <= b
    ensures Pow2(a) <= Pow2(b)
  {
    if a < b { Pow2Monotone(a, b - 1); }
  }

  /** Halving commutes with splitting. */
  lemma HalveSplit(x: nat, n: nat)
    requires n > 0
    ensures Shr(x, n) == Shr(x / 2, n - 1) && Low(x, n) == x % 2 + 2 * Low(x / 2, n - 1)
  {
    var p := Pow2(n - 1);
    var q, r := (x / 2) / p, (x / 2) % p;
    DivMod(x / 2, p);
    assert x == q * (2 * p) + (2 * r + x % 2) by {
      assert 2 * (q * p) == q * (2 * p);
    }
    DivModUnique(x, 2 * p, q, 2 * r + x % 2);
  }

  lemma SplitAtZero(x: nat)
    ensures Shr(x, 0) == x && Low(x, 0) == 0
  {}

  lemma MulSmall(k: int, d: int)
    requires -d < k * d < d
    ensures k == 0
  {
    assert k * d == (k - 1) * d + d && k * d == (k + 1) * d - d;
    assert k >= 1 ==> (k - 1) * d >= 0;
    assert k <= -1 ==> (k + 1) * d <= 0;
  }

  lemma DivNat(x: nat, d: nat)
    requires d > 0
    ensures 0 <= x / d
  {
    var q: int := x / d;
    assert x == q * d + x % d && x % d < d;
    NegativeProduct(q, d);
  }

  lemma NegativeProduct(q: int, d: nat)
    requires q * d + d > 0
    ensures q >= 0
  {
    assert q <= -1 ==> (q + 1) * d <= 0;
  }

  lemma DivMod(x: nat, d: nat)
    requires d > 0
    ensures x == (x / d) * d + x % d && 0 <= x % d < d
  {}

  lemma DivModUnique(x: nat, d: nat, q: nat, r: nat)
    requires d > 0 && x == q * d + r && r < d
    ensures x / d == q && x % d == r
  {
    var q', r' := x / d, x % d;
    DivMod(x, d);
    assert (q - q') * d == r' - r by {
      assert (q - q') * d == q * d - q' * d;
    }
    MulSmall(q - q', d);
  }

  /** Shifting twice. */
  lemma ShrTwice(x: nat, s: nat, w: nat)
    ensures Shr(Shr(x, s), w) == Shr(x, s + w)
  {
    var p, q := Pow2(s), Pow2(w);
    Pow2Sum(s, w);
    hide Pow2;
    DivTwice(x, p, q);
  }

  lemma DivTwice(x: nat, p: nat, q: nat)
    requires p > 0 && q > 0 && p * q > 0
    ensures (x / p) / q == x / (p * q)
  {
    DivNat(x, p);
    var y: nat, low := x / p, x % p;
    DivMod(x, p);
    DivNat(y, q);
    var high: nat, rest := y / q, y % q;
    DivMod(y, q);
    JoinDigits(high, rest, low, p, q);
    SameNumber(x, y, high, rest, low, p, q);
    DivModUnique(x, p * q, high, rest * p + low);
  }

  lemma SameNumber(x: nat, y: nat, high: nat, rest: nat, low: nat, p: nat, q: nat)
    requires x == y * p + low && y == high * q + rest
    ensures x == (high * q + rest) * p + low
  {}

  lemma JoinDigits(high: nat, rest: nat, low: nat, p: nat, q: nat)
    requires rest < q && low < p
    ensures (high * q + rest) * p + low == high * (p * q) + (rest * p + low) && rest * p + low < p * q
  {
    assert rest * p + low < rest * p + p == (rest + 1) * p <= q * p;
  }

  lemma PopCons(i: nat, a: nat)
    requires i < 2
    ensures Pop(i + 2 * a) == i + Pop(a)
  {
    assert (i + 2 * a) / 2 == a && (i + 2 * a) % 2 == i;
  }

  lemma {:induction false} PopSplit(x: nat, n: nat)
    ensures Pop(x) == Pop(Shr(x, n)) + Pop(Low(x, n))
  {
    hide Shr, Low, Pow2;
    if n > 0 {
      HalveSplit(x, n);
      PopSplit(x / 2, n - 1);
      PopCons(x % 2, Low(x / 2, n - 1));
      PopCons(x % 2, x / 2);
      assert x == x % 2 + 2 * (x / 2);
    } else {
      SplitAtZero(x);
    }
  }

  lemma {:induction false} XorSplit(a: nat, b: nat, n: nat)
    ensures Shr(Xor(a, b), n) == Xor(Shr(a, n), Shr(b, n))
    ensures Low(Xor(a, b), n) == Xor(Low(a, n), Low(b, n))
  {
    hide Shr, Low, Pow2, Xor;
    if n > 0 {
      XorHalves(a, b);
      XorSplit(a / 2, b / 2, n - 1);
      HalveSplit(Xor(a, b), n);
      HalveSplit(a, n);
      HalveSplit(b, n);
      XorCons(a % 2, Low(a / 2, n - 1), b % 2, Low(b / 2, n - 1));
      ParityOfSum(a, b);
    } else {
      SplitAtZero(a);
      SplitAtZero(b);
      SplitAtZero(Xor(a, b));
      XorZero(0, 0);
    }
  }

  lemma ParityOfSum(a: nat, b: nat)
    ensures (a + b) % 2 == (a % 2 + b % 2) % 2
  {}

  lemma XorHalves(a: nat, b: nat)
    ensures Xor(a, b) / 2 == Xor(a / 2, b / 2) && Xor(a, b) % 2 == (a + b) % 2
  {}

  lemma XorCons(i: nat, a: nat, j: nat, b: nat)
    requires i < 2 && j < 2
    ensures Xor(i + 2 * a, j + 2 * b) == (i + j) % 2 + 2 * Xor(a, b)
  {
    assert (i + 2 * a) / 2 == a && (j + 2 * b) / 2 == b;
    assert (i + 2 * a + j + 2 * b) % 2 == (i + j) % 2;
  }

  lemma {:induction false} XorBound(a: nat, b: nat, n: nat)
    requires a < Pow2(n) && b < Pow2(n)
    ensures Xor(a, b) < Pow2(n)
  {
    if n > 0 { XorBound(a / 2, b / 2, n - 1); }
  }

  lemma {:induction false} XorUndoes(a: nat, b: nat)
    ensures Xor(a, Xor(a, b)) == b
    decreases a + b
  {
    if a == 0 && b == 0 {
    } else {
      hide Xor;
      XorUndoes(a / 2, b / 2);
      XorHalves(a, b);
      XorHalves(a, Xor(a, b));
      ParityUndone(a, b, Xor(a, b));
      SameHalves(Xor(a, Xor(a, b)), b);
    }
  }

  lemma ParityUndone(a: nat, b: nat, x: nat)
    requires x % 2 == (a + b) % 2
    ensures (a + x) % 2 == b % 2
  {}

  lemma SameHalves(x: nat, y: nat)
    requires x / 2 == y / 2 && x % 2 == y % 2
    ensures x == y
  {}

  lemma {:induction false} XorZero(a: nat, b: nat)
    ensures Xor(a, b) == 0 <==> a == b
    decreases a + b
  {
    if a != 0 || b != 0 { XorZero(a / 2, b / 2); }
  }

  lemma {:induction false} PopZero(x: nat)
    ensures Pop(x) == 0 <==> x == 0
  {
    if x != 0 { PopZero(x / 2); }
  }

  /** Masking with n ones is the remainder by 2^n. */
  lemma {:induction false} AndMask(x: nat, n: nat)
    ensures And(x, Pow2(n) - 1) == Low(x, n)
  {
    if n > 0 {
      HalveSplit(x, n);
      AndMask(x / 2, n - 1);
      assert (Pow2(n) - 1) / 2 == Pow2(n - 1) - 1 && (Pow2(n) - 1) % 2 == 1;
    } else {
      AndZero(x);
    }
  }

  lemma {:induction false} AndZero(x: nat)
    ensures And(x, 0) == 0
  {
    if x != 0 { AndZero(x / 2); }
  }

  // ----- The top bit

  lemma {:induction false} BitLenBounds(x: nat, n: nat)
    ensures BitLen(x) <= n <==> x < Pow2(n)
  {
    if x != 0 && n > 0 { BitLenBounds(x / 2, n - 1); }
    else if x != 0 { assert Pow2(0) == 1; }
  }

  /** Setting a bit above all others. */
  lemma {:induction false} SetHighBit(m: nat, bit: nat)
    requires m < Pow2(bit)
    ensures Or(m, Pow2(bit)) == m + Pow2(bit)
    ensures Pop(m + Pow2(bit)) == Pop(m) + 1
    ensures BitLen(m + Pow2(bit)) == bit + 1
  {
    if bit == 0 {
      assert m == 0;
      assert Or(0, 1) == 1 + 2 * Or(0, 0);
    } else {
      SetHighBit(m / 2, bit - 1);
      assert (m + Pow2(bit)) / 2 == m / 2 + Pow2(bit - 1) && (m + Pow2(bit)) % 2 == m % 2;
      assert Pow2(bit) / 2 == Pow2(bit - 1) && Pow2(bit) % 2 == 0;
    }
  }

  function TopBit(x: nat): nat
    requires x > 0
  {
    BitLen(x) - 1
  }

  /** A positive number without its top bit. */
  function Rest(x: nat): (m: nat)
    requires x > 0
    ensures m < Pow2(TopBit(x)) && x == m + Pow2(TopBit(x))
  {
    BitLenBounds(x, TopBit(x));
    BitLenBounds(x, TopBit(x) + 1);
    x - Pow2(TopBit(x))
  }
}
