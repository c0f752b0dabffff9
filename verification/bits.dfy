/** Python's `&`, `|`, `^` and `>>` on non-negative integers, written out
    bit by bit so that no width is imposed. */
module Bits {

  function Pow2(k: nat): (r: nat)
    ensures r > 0
  {
    if k == 0 then 1 else 2 * Pow2(k - 1)
  }

  lemma {:induction false} Pow2Add(a: nat, b: nat)
    ensures Pow2(a + b) == Pow2(a) * Pow2(b)
  {
    if a > 0 {
      Pow2Add(a - 1, b);
      assert Pow2(a + b) == 2 * Pow2(a - 1 + b);
      MulAssoc(2, Pow2(a - 1), Pow2(b));
    }
  }

  lemma Pow2Sub(k: nat, j: nat)
    requires j <= k
    ensures Pow2(k) == Pow2(k - j) * Pow2(j)
  {
    Pow2Add(k - j, j);
    assert k - j + j == k;
  }

  /** `a & b` */
  function And(a: nat, b: nat): nat
    decreases a
  {
    if a == 0 || b == 0 then 0
    else 2 * And(a / 2, b / 2) + (if a % 2 == 1 && b % 2 == 1 then 1 else 0)
  }

  /** `a | b` */
  function Or(a: nat, b: nat): nat
    decreases a + b
  {
    if a == 0 then b
    else if b == 0 then a
    else 2 * Or(a / 2, b / 2) + (if a % 2 == 1 || b % 2 == 1 then 1 else 0)
  }

  /** `x >> k` */
  function Shr(x: nat, k: nat): nat {
    if k == 0 then x else Shr(x / 2, k - 1)
  }

  /** Bit `k` of `x`. */
  function Bit(x: nat, k: nat): bool {
    Shr(x, k) % 2 == 1
  }

  /** `x ^ (1 << k)`: flip one bit. */
  function FlipBit(x: nat, k: nat): nat {
    if Bit(x, k) then
      BitSetBound(x, k);
      x - Pow2(k)
    else x + Pow2(k)
  }

  /** A set bit `k` means the value is at least `2^k`. */
  lemma BitSetBound(x: nat, k: nat)
    requires Bit(x, k)
    ensures x >= Pow2(k)
  {
    ShrIsDiv(x, k);
    if x < Pow2(k) {
      DivUnique(x, Pow2(k), 0, x);
    }
  }

  lemma {:induction false} ShrIsDiv(x: nat, k: nat)
    ensures Shr(x, k) == x / Pow2(k)
  {
    if k > 0 {
      ShrIsDiv(x / 2, k - 1);
      DivDiv(x, 2, Pow2(k - 1));
    }
  }

  lemma DivDiv(x: nat, a: nat, b: nat)
    requires a > 0 && b > 0
    ensures x / a / b == x / (a * b)
  {
    DivDivParts(x, a, b);
    DivUnique(x, a * b, x / a / b, x % a + a * ((x / a) % b));
  }

  /** `x` in the mixed radix `a`, `b`: the quotient by `a * b` and what is
      left over. */
  lemma DivDivParts(x: nat, a: nat, b: nat)
    requires a > 0 && b > 0
    ensures x == (x / a / b) * (a * b) + (x % a + a * ((x / a) % b))
    ensures 0 <= x % a + a * ((x / a) % b) < a * b
  {
    var q, r := x / a, x % a;
    var q2, r2 := q / b, q % b;
    DivMod(x, a);
    DivMod(q, b);
    MulEq(q, q2 * b + r2, a);
    MulDistrib(q2 * b, r2, a);
    MulAssoc(q2, b, a);
    MulComm(b, a);
    MulComm(r2, a);
    MulMono(r2, b - 1, a);
    MulDistrib(b - 1, 1, a);
  }

  lemma MulEq(a: int, b: int, c: int)
    requires a == b
    ensures a * c == b * c
  {
  }

  lemma MulComm(a: int, b: int)
    ensures a * b == b * a
  {
  }

  lemma DivUnique(x: nat, d: nat, q: nat, r: nat)
    requires d > 0 && r < d && x == q * d + r
    ensures x / d == q && x % d == r
  {
    var q0 := x / d;
    var r0 := x % d;
    assert x == q0 * d + r0;
    if q > q0 {
      MulAtLeast(q - q0, d);
    } else if q < q0 {
      MulAtLeast(q0 - q, d);
    }
  }

  lemma MulAtLeast(a: nat, d: nat)
    requires a >= 1
    ensures a * d >= d
  {
  }

  lemma MulSub(a: nat, b: nat, d: nat)
    requires a >= b
    ensures a * d == b * d + (a - b) * d
  {
  }

  /** Masking with `2^k - 1` keeps the low `k` bits. */
  lemma {:induction false} AndLowMask(x: nat, k: nat)
    ensures And(x, Pow2(k) - 1) == x % Pow2(k)
  {
    if k > 0 && x > 0 {
      var p := Pow2(k - 1);
      var m := Pow2(k) - 1;
      assert Pow2(k) == 2 * p;
      LowMaskHalves(p, m);
      AndLowMask(x / 2, k - 1);
      AndStep(x, m);
      ModTwice(x, p);
      assert And(x, m) == x % (2 * p);
    } else if k == 0 {
      assert Pow2(k) - 1 == 0;
      assert x % 1 == 0;
    } else {
      assert x == 0;
      assert 0 % Pow2(k) == 0;
    }
  }

  lemma LowMaskHalves(p: nat, m: nat)
    requires p > 0 && m == 2 * p - 1
    ensures m > 0 && m / 2 == p - 1 && m % 2 == 1
  {
  }

  /** One step of the bitwise `&` recursion. */
  lemma AndStep(a: nat, b: nat)
    requires a > 0 && b > 0
    ensures And(a, b) == 2 * And(a / 2, b / 2) + (if a % 2 == 1 && b % 2 == 1 then 1 else 0)
  {
  }

  lemma ModTwice(x: nat, p: nat)
    requires p > 0
    ensures 2 * ((x / 2) % p) + x % 2 == x % (2 * p)
  {
    var q := (x / 2) / p;
    var r := (x / 2) % p;
    assert x / 2 == q * p + r;
    assert x == q * (2 * p) + (2 * r + x % 2);
    DivUnique(x, 2 * p, q, 2 * r + x % 2);
  }

  lemma {:induction false} AndZeroLeft(b: nat)
    ensures And(0, b) == 0
  {
  }

  /** Masking with `m << k` is masking the shifted value with `m`, shifted back. */
  lemma {:induction false} AndShiftedMask(x: nat, m: nat, k: nat)
    ensures And(x, m * Pow2(k)) == And(Shr(x, k), m) * Pow2(k)
  {
    if k == 0 {
      assert m * Pow2(k) == m;
    } else {
      var p := Pow2(k - 1);
      var mm := m * p;
      DoubleMul(m, p);
      assert m * Pow2(k) == 2 * mm;
      AndShiftedMask(x / 2, m, k - 1);
      assert Shr(x, k) == Shr(x / 2, k - 1);
      var y := And(Shr(x, k), m);
      assert And(x / 2, mm) == y * p;
      if x == 0 {
        ShrZero(k);
        assert And(x, 2 * mm) == 0;
        assert y == 0;
      } else if mm == 0 {
        assert And(x, 2 * mm) == 0;
        assert m == 0;
        assert y == 0;
      } else {
        EvenHalves(mm);
        AndStep(x, 2 * mm);
        assert And(x, 2 * mm) == 2 * (y * p);
        DoubleMul(y, p);
      }
    }
  }

  lemma DoubleMul(m: nat, p: nat)
    ensures m * (2 * p) == 2 * (m * p)
  {
  }

  lemma EvenHalves(mm: nat)
    ensures (2 * mm) / 2 == mm && (2 * mm) % 2 == 0
  {
  }

  lemma {:induction false} ShrZero(k: nat)
    ensures Shr(0, k) == 0
  {
    if k > 0 {
      ShrZero(k - 1);
    }
  }

  /** Masking a value that already fits in `k` bits leaves it alone. */
  lemma AndLowMaskFits(x: nat, k: nat)
    requires x < Pow2(k)
    ensures And(x, Pow2(k) - 1) == x
  {
    AndLowMask(x, k);
    DivUnique(x, Pow2(k), 0, x);
  }

  /** Masking `(v << k) | lo` with a `w`-bit field at `k` picks out `v << k`. */
  lemma AndField(lo: nat, v: nat, k: nat, w: nat, m: nat)
    requires lo < Pow2(k) && v < Pow2(w) && m + 1 == Pow2(w)
    ensures And(v * Pow2(k) + lo, m * Pow2(k)) == v * Pow2(k)
  {
    var p := Pow2(k);
    MulMono(0, v, p);
    var x: nat := v * p + lo;
    AndShiftedMask(x, m, k);
    ShrIsDiv(x, k);
    DivAddMultiple(v, lo, p);
    DivUnique(lo, p, 0, lo);
    AndLowMask(v, w);
    DivUnique(v, Pow2(w), 0, v);
  }

  /** Shifting `v << k` right by `k` gives `v` back. */
  lemma ShrOfShifted(v: nat, k: nat)
    ensures Shr(v * Pow2(k), k) == v
  {
    ShrIsDiv(v * Pow2(k), k);
    DivUnique(v * Pow2(k), Pow2(k), v, 0);
  }

  /** `|` of values whose set bits do not overlap is their sum. */
  lemma {:induction false} OrDisjoint(a: nat, m: nat, k: nat)
    requires a < Pow2(k)
    ensures Or(a, m * Pow2(k)) == a + m * Pow2(k)
  {
    if k > 0 && a > 0 && m > 0 {
      var mm := m * Pow2(k - 1);
      assert m * Pow2(k) == 2 * mm;
      assert (2 * mm) / 2 == mm;
      assert (2 * mm) % 2 == 0;
      OrDisjoint(a / 2, m, k - 1);
      assert Or(a, 2 * mm) == 2 * Or(a / 2, mm) + a % 2;
    }
  }

  /** Dividing `a * d + m` by `d`. */
  lemma DivAddMultiple(a: nat, m: nat, d: nat)
    requires d > 0
    ensures (a * d + m) / d == a + m / d && (a * d + m) % d == m % d
  {
    DivUnique(a * d + m, d, a + m / d, m % d);
  }

  /** The remainder modulo `a * b` in terms of remainders modulo `a` and `b`. */
  lemma ModSplit(x: nat, a: nat, b: nat)
    requires a > 0 && b > 0
    ensures x % (a * b) == x % a + a * ((x / a) % b)
  {
    DivDivParts(x, a, b);
    DivUnique(x, a * b, x / a / b, x % a + a * ((x / a) % b));
  }

  lemma MulDistrib(a: nat, b: nat, c: nat)
    ensures (a + b) * c == a * c + b * c
  {
  }

  lemma MulMono(a: nat, b: nat, c: nat)
    requires a <= b
    ensures a * c <= b * c
  {
  }

  lemma MulCancelLess(a: nat, b: nat, c: nat)
    requires a * c < b * c
    ensures a < b
  {
    if a >= b {
      MulMono(b, a, c);
    }
  }

  lemma DivMod(l: nat, q: nat)
    requires q > 0
    ensures l == (l / q) * q + l % q && l % q < q
  {
  }

  /** Flipping a bit above the low `k` bits flips it in the high part. */
  lemma FlipBitHigh(h: nat, l: nat, k: nat, j: nat)
    requires l < Pow2(k)
    ensures FlipBit(h * Pow2(k) + l, k + j) == FlipBit(h, j) * Pow2(k) + l
  {
    var p, q := Pow2(k), Pow2(j);
    MulMono(0, h, p);
    var x: nat := h * p + l;
    Pow2Add(k, j);
    ShrIsDiv(x, k + j);
    ShrIsDiv(h, j);
    DivDiv(x, p, q);
    DivUnique(l, p, 0, l);
    DivAddMultiple(h, l, p);
    assert Shr(x, k + j) == Shr(h, j);
    if Bit(h, j) {
      BitSetBound(h, j);
      MulSub(h, q, p);
      assert FlipBit(x, k + j) == x - p * q;
    } else {
      MulDistrib(h, q, p);
      assert FlipBit(x, k + j) == x + p * q;
    }
  }

  /** Flipping one of the low `k` bits flips it in the low part. */
  lemma FlipBitLow(h: nat, l: nat, k: nat, j: nat)
    requires j < k && l < Pow2(k)
    ensures FlipBit(l, j) < Pow2(k)
    ensures FlipBit(h * Pow2(k) + l, j) == h * Pow2(k) + FlipBit(l, j)
  {
    LowBitOfSum(h, l, k, j);
    if Bit(l, j) {
      BitSetBound(l, j);
    } else {
      LowBitClear(l, j, k);
    }
  }

  /** The low bits of `h * 2^k + l` are those of `l`. */
  lemma LowBitOfSum(h: nat, l: nat, k: nat, j: nat)
    requires j < k
    ensures Bit(h * Pow2(k) + l, j) == Bit(l, j)
  {
    var q, m := Pow2(j), Pow2(k - j);
    Pow2Sub(k, j);
    Pow2Even(k - j);
    MulAssoc(h, m, q);
    MulMono(0, h, m);
    EvenMul(h, m);
    EvenAbove(h * m, l, j);
  }

  /** An even multiple of `2^j` leaves bit `j` of what is added to it. */
  lemma EvenAbove(hm: nat, l: nat, j: nat)
    requires hm % 2 == 0
    ensures Bit(hm * Pow2(j) + l, j) == Bit(l, j)
  {
    var q := Pow2(j);
    ShrIsDiv(hm * q + l, j);
    ShrIsDiv(l, j);
    DivAddMultiple(hm, l, q);
    var s := Shr(l, j);
    DivAddMultiple(hm / 2, s, 2);
    assert hm == (hm / 2) * 2;
  }

  lemma MulAssoc(a: nat, b: nat, c: nat)
    ensures a * (b * c) == (a * b) * c
  {
  }

  lemma EvenMul(a: nat, b: nat)
    requires b % 2 == 0
    ensures (a * b) % 2 == 0
  {
    var t := b / 2;
    assert b == 2 * t;
    MulAssoc(a, 2, t);
    assert a * b == 2 * (a * t);
  }

  /** Setting a clear bit below bit `k` keeps a value below `2^k`. */
  lemma LowBitClear(l: nat, j: nat, k: nat)
    requires j < k && l < Pow2(k) && !Bit(l, j)
    ensures l + Pow2(j) < Pow2(k)
  {
    Pow2Sub(k, j);
    Pow2Even(k - j);
    ShrIsDiv(l, j);
    ClearBitRoom(l, Pow2(j), Pow2(k - j));
  }

  lemma Pow2Even(k: nat)
    requires k > 0
    ensures Pow2(k) % 2 == 0
  {
  }

  /** Arithmetic behind `LowBitClear`: an even quotient below an even bound
      leaves room for one more `q`. */
  lemma ClearBitRoom(l: nat, q: nat, m: nat)
    requires q > 0 && m % 2 == 0 && (l / q) % 2 == 0 && l < m * q
    ensures l + q < m * q
  {
    var t := l / q;
    DivMod(l, q);
    MulCancelLess(t, m, q);
    assert t + 2 <= m;
    MulDistrib(t, 2, q);
    MulMono(t + 2, m, q);
  }
}
