/** Bytes, powers of two and the bitwise operators of the source's unsigned integers. */
module Bits {
  type byte = x: int | 0 <= x < 256

  /** The number of values of a 64-bit `usize`. */
  const WORD: int := 0x1_0000_0000_0000_0000

  function Pow2(k: nat): (r: nat)
    ensures 0 < r
  {
    if k == 0 then 1 else 2 * Pow2(k - 1)
  }

  /** Bitwise `|`. */
  function Or(a: nat, b: nat): nat {
    if a == 0 && b == 0 then 0
    else (if a % 2 == 1 || b % 2 == 1 then 1 else 0) + 2 * Or(a / 2, b / 2)
  }

  /** Bitwise `&`. */
  function And(a: nat, b: nat): nat {
    if a == 0 || b == 0 then 0
    else (if a % 2 == 1 && b % 2 == 1 then 1 else 0) + 2 * And(a / 2, b / 2)
  }

  lemma {:induction false} Pow2Add(j: nat, k: nat)
    ensures Pow2(j + k) == Pow2(j) * Pow2(k)
  {
    if j > 0 {
      Pow2Add(j - 1, k);
      DoubleProduct(Pow2(j - 1), Pow2(k));
    }
  }

  lemma DoubleProduct(a: nat, b: nat)
    ensures 2 * (a * b) == (2 * a) * b
  {
  }

  lemma {:induction false} Pow2Mono(j: nat, k: nat)
    requires j <= k
    ensures Pow2(j) <= Pow2(k)
  {
    if j < k {
      Pow2Mono(j, k - 1);
    }
  }

  lemma Pow2Values()
    ensures Pow2(0) == 1 && Pow2(1) == 2 && Pow2(2) == 4 && Pow2(3) == 8 && Pow2(4) == 16
    ensures Pow2(5) == 32 && Pow2(6) == 64 && Pow2(7) == 128 && Pow2(8) == 256
    ensures Pow2(16) == 65536 && Pow2(32) == 0x1_0000_0000
    ensures Pow2(14) == 16384 && Pow2(21) == 0x20_0000 && Pow2(28) == 0x1000_0000
    ensures Pow2(40) == 0x100_0000_0000 && Pow2(64) == WORD
  {
    assert Pow2(8) == 256 && Pow2(6) == 64;
    Pow2Add(8, 8);
    Pow2Add(16, 16);
    Pow2Add(32, 8);
    Pow2Add(32, 32);
    Pow2Add(7, 7);
    Pow2Add(14, 7);
    Pow2Add(21, 7);
  }

  /** `a << k`, by repeated doubling. */
  function Shl(a: nat, k: nat): nat {
    if k == 0 then a else 2 * Shl(a, k - 1)
  }

  lemma {:induction false} ShlIsMul(a: nat, k: nat)
    ensures Shl(a, k) == a * Pow2(k)
  {
    if k > 0 {
      ShlIsMul(a, k - 1);
      assert a * (2 * Pow2(k - 1)) == 2 * (a * Pow2(k - 1));
    }
  }

  lemma {:induction false} ShlAdd(a: nat, b: nat, k: nat)
    ensures Shl(a + b, k) == Shl(a, k) + Shl(b, k)
  {
    if k > 0 {
      ShlAdd(a, b, k - 1);
    }
  }

  lemma {:induction false} ShlShl(a: nat, j: nat, k: nat)
    ensures Shl(Shl(a, j), k) == Shl(a, j + k)
  {
    if k > 0 {
      ShlShl(a, j, k - 1);
    }
  }

  lemma {:induction false} ShlBelow(v: nat, n: nat, k: nat)
    requires v < Pow2(n)
    ensures Shl(v, k) < Pow2(n + k)
  {
    if k > 0 {
      ShlBelow(v, n, k - 1);
    }
  }

  /** `|` works separately on the bits above and below any position. */
  lemma {:induction false} OrSplit(k: nat, a: nat, x: nat, b: nat, y: nat)
    requires x < Pow2(k) && y < Pow2(k)
    ensures Or(Shl(a, k) + x, Shl(b, k) + y) == Shl(Or(a, b), k) + Or(x, y)
    ensures Or(x, y) < Pow2(k)
  {
    hide Or;
    if k == 0 {
      OrZero(0);
      return;
    }
    OrSplit(k - 1, a, x / 2, b, y / 2);
    OrStep(Shl(a, k - 1) + x / 2, x % 2, Shl(b, k - 1) + y / 2, y % 2);
    OrStep(x / 2, x % 2, y / 2, y % 2);
  }

  lemma OrStep(a: nat, x: nat, b: nat, y: nat)
    requires x < 2 && y < 2
    ensures Or(2 * a + x, 2 * b + y) == (if x == 1 || y == 1 then 1 else 0) + 2 * Or(a, b)
  {
    assert (2 * a + x) % 2 == x && (2 * a + x) / 2 == a;
    assert (2 * b + y) % 2 == y && (2 * b + y) / 2 == b;
  }

  lemma {:induction false} OrZero(a: nat)
    ensures Or(a, 0) == a && Or(0, a) == a
  {
    if a > 0 {
      OrZero(a / 2);
    }
  }

  /** Setting bits that are all clear is an addition. */
  lemma OrDisjoint(k: nat, a: nat, y: nat)
    requires y < Pow2(k)
    ensures Or(Shl(a, k), y) == Shl(a, k) + y
  {
    hide Or, Shl;
    OrSplit(k, a, 0, 0, y);
    OrZero(a);
    OrZero(y);
    ShlIsMul(0, k);
  }

  /** `&` works separately on the bits above and below any position. */
  lemma {:induction false} AndSplit(k: nat, a: nat, x: nat, b: nat, y: nat)
    requires x < Pow2(k) && y < Pow2(k)
    ensures And(Shl(a, k) + x, Shl(b, k) + y) == Shl(And(a, b), k) + And(x, y)
  {
    hide And;
    if k == 0 {
      AndZero(0);
      return;
    }
    AndSplit(k - 1, a, x / 2, b, y / 2);
    AndStep(Shl(a, k - 1) + x / 2, x % 2, Shl(b, k - 1) + y / 2, y % 2);
    AndStep(x / 2, x % 2, y / 2, y % 2);
  }

  lemma AndStep(a: nat, x: nat, b: nat, y: nat)
    requires x < 2 && y < 2
    ensures And(2 * a + x, 2 * b + y) == (if x == 1 && y == 1 then 1 else 0) + 2 * And(a, b)
  {
    assert (2 * a + x) % 2 == x && (2 * a + x) / 2 == a;
    assert (2 * b + y) % 2 == y && (2 * b + y) / 2 == b;
  }

  lemma {:induction false} AndZero(a: nat)
    ensures And(a, 0) == 0 && And(0, a) == 0
  {
  }

  /** Masking with `2^k - 1` keeps the low `k` bits. */
  lemma {:induction false} AndLowBits(a: nat, k: nat)
    ensures And(a, Pow2(k) - 1) == a % Pow2(k)
  {
    hide And;
    if k == 0 {
      AndZero(a);
      return;
    }
    var p := Pow2(k - 1);
    AndLowBits(a / 2, k - 1);
    AndStep(a / 2, a % 2, p - 1, 1);
    assert 2 * (a / 2) + a % 2 == a && 2 * (p - 1) + 1 == Pow2(k) - 1;
    ModStep(a, p);
  }

  lemma ModStep(a: nat, p: nat)
    requires p > 0
    ensures a % (2 * p) == 2 * ((a / 2) % p) + a % 2
  {
    var q, r := (a / 2) / p, (a / 2) % p;
    assert a == q * (2 * p) + (2 * r + a % 2);
    ModUnique(a, 2 * p, q, 2 * r + a % 2);
  }

  lemma ModUnique(a: int, n: int, q: int, r: int)
    requires n > 0 && 0 <= r < n && a == q * n + r
    ensures a % n == r && a / n == q
  {
    var d := a / n - q;
    assert d * n == r - a % n;
    MulAtLeast(d, n);
  }

  lemma MulAtLeast(d: int, n: int)
    requires n > 0
    ensures d >= 1 ==> d * n >= n
    ensures d <= -1 ==> d * n <= -n
  {
  }

  /** Reducing modulo a multiple of `n` first does not change the residue modulo `n`. */
  lemma ModMod(a: int, n: int, m: int)
    requires n > 0 && m > 0
    ensures (a % (n * m)) % n == a % n
  {
    var q, r := a / (n * m), a % (n * m);
    var q', r' := r / n, r % n;
    assert a == (q * m + q') * n + r' by {
      assert a == q * (n * m) + r && r == q' * n + r';
      assert q * (n * m) == (q * m) * n;
    }
    ModUnique(a, n, q * m + q', r');
  }
}
