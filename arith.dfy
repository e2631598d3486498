/** Powers, and the division and remainder facts behind shifts and masks on unsigned integers. */
module Arith {

  /** 2^128: one more than the largest `u128`. */
  const U128: nat := 0x1_0000_0000_0000_0000_0000_0000_0000_0000

  /** A `u8`: the immediate operands of instructions and the bytes of a listing. */
  type Byte = x: int | 0 <= x < 256

  /** 2^64: one more than the largest `u64` (and `usize` on a 64-bit target). */
  const U64: nat := 0x1_0000_0000_0000_0000

  function Pow(b: nat, e: nat): (r: nat)
    ensures b > 0 ==> r > 0
  {
    if e == 0 then 1 else b * Pow(b, e - 1)
  }

  lemma {:induction false} PowAdd(b: nat, m: nat, n: nat)
    ensures Pow(b, m + n) == Pow(b, m) * Pow(b, n)
    decreases m
  {
    if m > 0 {
      PowAdd(b, m - 1, n);
      assert Pow(b, m + n) == b * Pow(b, m - 1 + n);
    }
  }

  lemma {:induction false} PowMul(b: nat, m: nat, n: nat)
    ensures Pow(b, m * n) == Pow(Pow(b, m), n)
    decreases n
  {
    if n > 0 {
      PowMul(b, m, n - 1);
      assert m * n == m + m * (n - 1);
      PowAdd(b, m, m * (n - 1));
    }
  }

  lemma {:induction false} PowMono(b: nat, m: nat, n: nat)
    requires b >= 1 && m <= n
    ensures Pow(b, m) <= Pow(b, n)
    decreases n
  {
    if m < n {
      PowMono(b, m, n - 1);
      assert Pow(b, n) == b * Pow(b, n - 1);
    }
  }

  /** A smaller base gives a smaller power. */
  lemma {:induction false} PowBaseMono(a: nat, b: nat, n: nat)
    requires a <= b
    ensures Pow(a, n) <= Pow(b, n)
    decreases n
  {
    if n > 0 {
      PowBaseMono(a, b, n - 1);
      MulMono(a, b, Pow(a, n - 1), Pow(b, n - 1));
    }
  }

  lemma MulMono(a: nat, b: nat, c: nat, d: nat)
    requires a <= b && c <= d
    ensures a * c <= b * d
  {
    assert a * c <= b * c;
    assert b * c <= b * d;
  }

  lemma Pow2At128()
    ensures Pow(2, 128) == U128
  {
    assert Pow(2, 1) == 2;
    PowAdd(2, 1, 1);
    PowAdd(2, 2, 2);
    assert Pow(2, 4) == 16;
    PowAdd(2, 4, 4);
    assert Pow(2, 8) == 0x100;
    PowAdd(2, 8, 8);
    assert Pow(2, 16) == 0x1_0000;
    PowAdd(2, 16, 16);
    assert Pow(2, 32) == 0x1_0000_0000;
    PowAdd(2, 32, 32);
    assert Pow(2, 64) == U64;
    PowAdd(2, 64, 64);
  }

  /** Octal and hex digits are exactly three and four bits wide. */
  lemma PowDigits(w: nat)
    ensures Pow(8, w) == Pow(2, 3 * w)
    ensures Pow(16, w) == Pow(2, 4 * w)
  {
    PowMul(2, 3, w);
    PowMul(2, 4, w);
    assert Pow(2, 3) == 8 && Pow(2, 4) == 16;
  }

  lemma DivModUnique(v: int, a: int, q: int, r: int)
    requires a > 0 && 0 <= r < a && v == q * a + r
    ensures v / a == q && v % a == r
  {
    var q', r' := v / a, v % a;
    assert v == q' * a + r';
    assert (q - q') * a == r' - r;
    MulSign(q - q', a);
  }

  lemma MulSign(d: int, a: int)
    requires a > 0
    ensures d >= 1 ==> d * a >= a
    ensures d <= -1 ==> d * a <= -a
  {
  }

  /** Shifting right twice is shifting right by the sum. */
  lemma DivDiv(v: nat, a: nat, b: nat)
    requires a > 0 && b > 0
    ensures v / a / b == v / (a * b)
  {
    var q, r := v / (a * b), v % (a * b);
    assert v == q * (a * b) + r;
    var r1, r2 := r % a, r / a;
    assert r == r2 * a + r1;
    MulSign(r2 - b + 1, a);
    assert r2 < b;
    assert v == (q * b + r2) * a + r1;
    DivModUnique(v, a, q * b + r2, r1);
    DivModUnique(q * b + r2, b, q, r2);
  }

  /** The low `a*b` part is the low `a` part plus the next `b` part scaled by `a`. */
  lemma ModSplit(v: nat, a: nat, b: nat)
    requires a > 0 && b > 0
    ensures (v / a % b) * a + v % a == v % (a * b)
  {
    DivDiv(v, a, b);
    var q := v / a;
    assert v == q * a + v % a;
    assert q == (q / b) * b + q % b;
    assert v == (q / b) * (a * b) + ((q % b) * a + v % a) by {
      assert q * a == (q / b) * b * a + (q % b) * a;
    }
    assert (q % b) * a + v % a < a * b by {
      MulMono(q % b, b - 1, a, a);
    }
    DivModUnique(v, a * b, q / b, (q % b) * a + v % a);
  }

  /** Dropping the low part of a value below `p * b` leaves a value below `p`. */
  lemma DivBelow(x: nat, b: nat, p: nat)
    requires b > 0 && x < p * b
    ensures x / b < p
  {
    DivModUnique(x, b, x / b, x % b);
    if x / b >= p {
      MulMono(p, x / b, b, b);
    }
  }

  /** `b^(w*i) == b^w * b^(w*(i-1))`: one more group of `w` digits. */
  lemma PowGroups(b: nat, w: nat, i: nat)
    requires i > 0
    ensures Pow(b, w * i) == Pow(b, w) * Pow(b, w * (i - 1))
  {
    assert w * i == w + w * (i - 1);
    PowAdd(b, w, w * (i - 1));
  }

  lemma ModBelow(v: nat, m: nat)
    requires v < m
    ensures v % m == v
  {
    DivModUnique(v, m, 0, v);
  }

  /** A remainder is never larger than the value it is taken of. */
  lemma ModAtMost(v: nat, m: nat)
    requires m > 0
    ensures v % m <= v
  {
    DivModUnique(v, m, v / m, v % m);
  }

  lemma MulAssoc(a: nat, b: nat, c: nat)
    ensures a * b * c == a * (b * c)
  {
  }

  /** A digit `r < a` appended below `q < b` stays below `a * b`. */
  lemma MulAddBound(q: nat, r: nat, a: nat, b: nat)
    requires q < b && r < a
    ensures q * a + r < a * b
  {
    MulMono(q, b - 1, a, a);
    assert (b - 1) * a == a * b - a;
  }

  /** Reducing a multiple of `m` modulo a multiple of `m` leaves a multiple of `m`. */
  lemma ModScaled(x: nat, m: nat, k: nat)
    requires m > 0 && k > 0
    ensures (x * m) % (m * k) == m * (x % k)
    ensures (x * m) % (m * k) <= m * k - m
  {
    var q, r := x / k, x % k;
    assert x * m == q * (m * k) + m * r;
    MulMono(r, k - 1, m, m);
    DivModUnique(x * m, m * k, q, m * r);
  }
}
