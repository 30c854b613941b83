/** Bitwise operations on unbounded naturals, defined bit by bit from the
    least significant end. The address layer of the kernel computes
    alignments with `&`, `|` and `!` on u64 values; these definitions let the
    model perform the same bit operations and then prove what they mean
    arithmetically for power-of-two masks. */
module IntBits {

  function Pow2(n: nat): (r: nat)
    ensures r >= 1
  {
    if n == 0 then 1 else 2 * Pow2(n - 1)
  }

  /** `a & b` */
  function And(a: nat, b: nat): (r: nat)
    ensures r <= a && r <= b
  {
    if a == 0 || b == 0 then 0
    else 2 * And(a / 2, b / 2) + (if a % 2 == 1 && b % 2 == 1 then 1 else 0)
  }

  /** `a | b` */
  function Or(a: nat, b: nat): (r: nat)
    ensures r >= a && r >= b
    decreases a + b
  {
    if a == 0 then b
    else if b == 0 then a
    else 2 * Or(a / 2, b / 2) + (if a % 2 == 1 || b % 2 == 1 then 1 else 0)
  }

  predicate IsPowerOfTwo(k: int)
    decreases if k < 0 then 0 else k
  {
    k == 1 || (k >= 2 && k % 2 == 0 && IsPowerOfTwo(k / 2))
  }

  /** The exponent of a power of two. */
  function Log2(k: int): (n: nat)
    requires IsPowerOfTwo(k)
    ensures Pow2(n) == k
    decreases if k < 0 then 0 else k
  {
    if k == 1 then 0 else 1 + Log2(k / 2)
  }

  lemma {:induction false} Pow2IsPowerOfTwo(n: nat)
    ensures IsPowerOfTwo(Pow2(n))
  {
    if n > 0 {
      Pow2IsPowerOfTwo(n - 1);
      assert Pow2(n) / 2 == Pow2(n - 1);
    }
  }

  lemma {:induction false} Pow2Add(m: nat, n: nat)
    ensures Pow2(m + n) == Pow2(m) * Pow2(n)
  {
    if m > 0 {
      Pow2Add(m - 1, n);
      Associate(2, Pow2(m - 1), Pow2(n));
    }
  }

  lemma {:induction false} Pow2Monotone(m: nat, n: nat)
    requires m <= n
    ensures Pow2(m) <= Pow2(n)
  {
    if m < n {
      Pow2Monotone(m, n - 1);
    }
  }

  // ----- arithmetic helpers -----

  /** Division and remainder are determined by any decomposition
      `a == d * q + r` with `0 <= r < d`. */
  lemma DivModUnique(a: int, d: int, q: int, r: int)
    requires d > 0 && 0 <= r < d && a == d * q + r
    ensures a / d == q && a % d == r
  {
    var q0, r0 := a / d, a % d;
    assert a == d * q0 + r0;
    Distribute(d, q0, q);
    if q0 > q {
      MulAtLeast(d, q0 - q);
    } else if q0 < q {
      Distribute(d, q, q0);
      MulAtLeast(d, q - q0);
    }
  }

  /** Dividing by `m` and then by `n` is dividing by `m * n`. */
  lemma DivDiv(a: nat, m: nat, n: nat)
    requires m > 0 && n > 0
    ensures (a / m) / n == a / (m * n)
  {
    var q, r := a / (m * n), a % (m * n);
    var r1, r0 := r / m, r % m;
    assert (m * n) * q == m * (n * q) by { Associate(m, n, q); }
    Distribute(m, n * q + r1, r1);
    assert a == m * (n * q + r1) + r0;
    if r1 > n {
      Distribute(m, r1, n);
      MulAtLeast(m, r1 - n);
    }
    assert r1 < n;
    DivModUnique(a, m, n * q + r1, r0);
    DivModUnique(n * q + r1, n, q, r1);
  }

  /** Reducing modulo a multiple of `m` first does not change the
      remainder modulo `m`. */
  lemma ModOfMod(a: nat, m: nat, n: nat)
    requires m > 0 && n > 0
    ensures (a % (m * n)) % m == a % m
  {
    var q, r := a / (m * n), a % (m * n);
    assert (m * n) * q == m * (n * q) by { Associate(m, n, q); }
    DivModUnique(a, m, n * q + r / m, r % m);
  }

  lemma Distribute(d: int, a: int, b: int)
    ensures d * a - d * b == d * (a - b)
  {}

  lemma Associate(a: int, b: int, c: int)
    ensures (a * b) * c == a * (b * c)
  {}

  lemma MulAtLeast(d: int, k: int)
    requires d > 0 && k >= 1
    ensures d * k >= d
  {}

  lemma Halve(b: int, c: int)
    requires b == 2 * c
    ensures b % 2 == 0 && b / 2 == c
  {}

  lemma HalveOdd(b: int, c: int)
    requires b == 2 * c + 1
    ensures b % 2 == 1 && b / 2 == c
  {}

  /** The low bits of `a` modulo `2p` are its lowest bit followed by the low
      bits of `a / 2` modulo `p`. */
  lemma ModSplit(a: nat, p: nat, h: nat)
    requires h >= 1 && p == 2 * h
    ensures a % p == a % 2 + 2 * ((a / 2) % h)
  {
    var q, s := (a / 2) / h, (a / 2) % h;
    assert a / 2 == h * q + s;
    assert p * q == 2 * (h * q) by { Associate(2, h, q); }
    DivModUnique(a, p, q, a % 2 + 2 * s);
  }

  // ----- single steps of the bit recursions -----

  /** One step of `And` with an odd mask: the lowest bit of `a` is kept. */
  lemma AndStepOdd(a: nat, b: nat)
    requires a > 0 && b % 2 == 1
    ensures And(a, b) == 2 * And(a / 2, b / 2) + a % 2
  {}

  /** One step of `And` with an even mask: the lowest bit is cleared. */
  lemma AndStepEven(a: nat, b: nat)
    requires a > 0 && b > 0 && b % 2 == 0
    ensures And(a, b) == 2 * And(a / 2, b / 2)
  {}

  /** One step of `Or` with an odd mask: the lowest bit is set. */
  lemma OrStepOdd(a: nat, b: nat)
    requires a > 0 && b % 2 == 1
    ensures Or(a, b) == 2 * Or(a / 2, b / 2) + 1
  {}

  // ----- masks of the form 2^n - 1 and 2^w - 2^n -----

  /** `a & (2^n - 1)` keeps the low `n` bits. */
  lemma {:induction false} AndLowMask(a: nat, n: nat, p: nat)
    requires p == Pow2(n)
    ensures And(a, p - 1) == a % p
  {
    if n == 0 {
      assert And(a, 0) == 0;
    } else if a == 0 {
      assert And(0, p - 1) == 0;
      DivModUnique(0, p, 0, 0);
    } else {
      AndLowMask(a / 2, n - 1, p / 2);
      AndLowStep(a, p, p / 2);
    }
  }

  /** The inductive step of AndLowMask. */
  lemma AndLowStep(a: nat, p: nat, h: nat)
    requires a > 0 && h >= 1 && p == 2 * h
    requires And(a / 2, h - 1) == (a / 2) % h
    ensures And(a, p - 1) == a % p
  {
    HalveOdd(p - 1, h - 1);
    AndStepOdd(a, p - 1);
    ModSplit(a, p, h);
  }

  /** `a | (2^n - 1)` sets the low `n` bits. */
  lemma {:induction false} OrLowMask(a: nat, n: nat, p: nat)
    requires p == Pow2(n)
    ensures Or(a, p - 1) == a - a % p + p - 1
  {
    if n == 0 {
      assert Or(a, 0) == a;
    } else if a == 0 {
      assert Or(0, p - 1) == p - 1;
      DivModUnique(0, p, 0, 0);
    } else {
      OrLowMask(a / 2, n - 1, p / 2);
      OrLowStep(a, p, p / 2);
    }
  }

  /** The inductive step of OrLowMask. */
  lemma OrLowStep(a: nat, p: nat, h: nat)
    requires a > 0 && h >= 1 && p == 2 * h
    requires Or(a / 2, h - 1) == a / 2 - (a / 2) % h + h - 1
    ensures Or(a, p - 1) == a - a % p + p - 1
  {
    HalveOdd(p - 1, h - 1);
    OrStepOdd(a, p - 1);
    ModSplit(a, p, h);
  }

  /** `a & (2^w - 2^n)` clears the low `n` bits of a `w`-bit value. */
  lemma {:induction false} AndHighMask(a: nat, w: nat, pw: nat, n: nat, pn: nat)
    requires pw == Pow2(w) && pn == Pow2(n)
    requires n <= w && a < pw
    ensures pn <= pw
    ensures And(a, pw - pn) == a - a % pn
  {
    Pow2Monotone(n, w);
    if n == 0 {
      AndLowMask(a, w, pw);
      DivModUnique(a, pw, 0, a);
    } else if n == w {
      DivModUnique(a, pn, 0, a);
      assert And(a, 0) == 0;
    } else if a == 0 {
      assert And(0, pw - pn) == 0;
      DivModUnique(0, pn, 0, 0);
    } else {
      var hw, hn := Pow2(w - 1), Pow2(n - 1);
      assert pw == 2 * hw && pn == 2 * hn;
      Pow2Monotone(n, w - 1);
      AndHighMask(a / 2, w - 1, hw, n - 1, hn);
      AndHighStep(a, pw, hw, pn, hn);
    }
  }

  /** The inductive step of AndHighMask: clearing the low bits of `a` is
      clearing the low bits of `a / 2` and dropping bit 0. */
  lemma AndHighStep(a: nat, pw: nat, hw: nat, pn: nat, hn: nat)
    requires 1 <= hn < hw && a > 0 && pw == 2 * hw && pn == 2 * hn
    requires And(a / 2, hw - hn) == a / 2 - (a / 2) % hn
    ensures And(a, pw - pn) == a - a % pn
  {
    Halve(pw - pn, hw - hn);
    AndStepEven(a, pw - pn);
    ModSplit(a, pn, hn);
  }
}
