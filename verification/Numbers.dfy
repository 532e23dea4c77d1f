/**
  The number theory that the integer routines are specified with: powers,
  congruence, divisibility and greatest common divisors.
 */
module Numbers {
  import opened Radix

  function Power(x: int, n: nat): int {
    if n == 0 then 1 else x * Power(x, n - 1)
  }

  function Multiple(k: int, m: int): int {
    k * m
  }

  // a and b leave the same remainder modulo m
  ghost predicate Cong(a: int, b: int, m: int) {
    exists k: int :: Multiple(k, m) == a - b
  }

  lemma CongIf(a: int, b: int, m: int, k: int)
    requires a == b + k * m
    ensures Cong(a, b, m) && Cong(b, a, m)
  {
    assert Multiple(k, m) == a - b;
    assert Multiple(-k, m) == b - a;
  }

  lemma CongSelf(a: int, m: int)
    ensures Cong(a, a, m)
  {
    CongIf(a, a, m, 0);
  }

  lemma CongTrans(a: int, b: int, c: int, m: int)
    requires Cong(a, b, m) && Cong(b, c, m)
    ensures Cong(a, c, m) && Cong(c, a, m)
  {
    var k: int :| Multiple(k, m) == a - b;
    var j: int :| Multiple(j, m) == b - c;
    assert (k + j) * m == k * m + j * m;
    CongIf(a, c, m, k + j);
  }

  lemma CongMul(a: int, b: int, c: int, d: int, m: int)
    requires Cong(a, b, m) && Cong(c, d, m)
    ensures Cong(a * c, b * d, m)
  {
    var k: int :| Multiple(k, m) == a - b;
    var j: int :| Multiple(j, m) == c - d;
    calc {
      a * c;
      (b + k * m) * (d + j * m);
      b * d + (b * j) * m + (k * d) * m + (k * m * j) * m;
      b * d + (b * j + k * d + k * m * j) * m;
    }
    CongIf(a * c, b * d, m, b * j + k * d + k * m * j);
  }

  lemma {:induction false} CongPower(a: int, b: int, n: nat, m: int)
    requires Cong(a, b, m)
    ensures Cong(Power(a, n), Power(b, n), m)
  {
    if n == 0 {
      CongSelf(1, m);
    } else {
      CongPower(a, b, n - 1, m);
      CongMul(a, b, Power(a, n - 1), Power(b, n - 1), m);
    }
  }

  lemma CongMod(x: int, m: int)
    requires m > 0
    ensures Cong(x % m, x, m)
  {
    CongIf(x, x % m, m, x / m);
  }

  // a number below m is the remainder of everything it is congruent to
  lemma CongRemainder(r: int, x: int, m: int)
    requires 0 <= r < m && Cong(r, x, m)
    ensures r == x % m
  {
    var k: int :| Multiple(k, m) == r - x;
    var q := x / m;
    assert x == q * m + x % m;
    Distribute(k, q, m);
    NoMultiple(k + q, m, r - x % m);
  }

  lemma NoMultiple(k: int, m: int, d: int)
    requires k * m == d && -m < d < m
    ensures d == 0
  {
    if k > 0 { MulLe(1, k, m); }
    if k < 0 { MulLe(k, -1, m); }
  }

  lemma {:induction false} PowerAdd(x: int, i: nat, j: nat)
    ensures Power(x, i + j) == Power(x, i) * Power(x, j)
  {
    if i > 0 {
      PowerAdd(x, i - 1, j);
      assert x * (Power(x, i - 1) * Power(x, j)) == (x * Power(x, i - 1)) * Power(x, j);
    }
  }

  lemma {:induction false} PowerSquare(x: int, n: nat)
    ensures Power(x * x, n) == Power(x, 2 * n)
  {
    if n > 0 {
      PowerSquare(x, n - 1);
      assert (x * x) * Power(x, 2 * n - 2) == x * (x * Power(x, 2 * n - 2));
    }
  }

  lemma {:induction false} PowerPower(x: int, i: nat, j: nat)
    ensures i * j >= 0 && Power(Power(x, i), j) == Power(x, i * j)
  {
    if j > 0 {
      PowerPower(x, i, j - 1);
      assert i * j == i + i * (j - 1);
      PowerAdd(x, i, i * (j - 1));
    }
  }

  // ---- divisors ----

  ghost predicate Divides(d: int, n: int) {
    exists k: int :: Multiple(k, d) == n
  }

  lemma DividesIf(d: int, n: int, k: int)
    requires k * d == n
    ensures Divides(d, n)
  {
    assert Multiple(k, d) == n;
  }

  // g is a common divisor that every common divisor divides
  ghost predicate IsGcd(g: int, a: int, b: int) {
    && g > 0 && Divides(g, a) && Divides(g, b)
    && forall d: int :: Divides(d, a) && Divides(d, b) ==> Divides(d, g)
  }

  lemma GcdUnique(g: int, h: int, a: int, b: int)
    requires IsGcd(g, a, b) && IsGcd(h, a, b)
    ensures g == h
  {
    DividesAtMost(g, h);
    DividesAtMost(h, g);
  }

  lemma DividesAtMost(d: int, n: int)
    requires d > 0 && n > 0 && Divides(d, n)
    ensures d <= n
  {
    var k: int :| Multiple(k, d) == n;
    if k <= 0 { MulLe(k, 0, d); } else { MulLe(1, k, d); }
  }

  ghost predicate SameDivisors(a: int, b: int, c: int, d: int) {
    forall e: int :: Divides(e, a) && Divides(e, b) <==> Divides(e, c) && Divides(e, d)
  }

  lemma DividesSum(d: int, a: int, b: int)
    requires Divides(d, a) && Divides(d, b)
    ensures Divides(d, a + b) && Divides(d, a - b)
  {
    var k: int :| Multiple(k, d) == a;
    var j: int :| Multiple(j, d) == b;
    Distribute(k, j, d);
    Distribute(k, -j, d);
    DividesIf(d, a + b, k + j);
    DividesIf(d, a - b, k - j);
  }

  lemma SubtractDivisors(a: int, b: int)
    ensures SameDivisors(a, b, a - b, b) && SameDivisors(a, b, a, b - a)
  {
    forall e: int
      ensures Divides(e, a) && Divides(e, b) <==> Divides(e, a - b) && Divides(e, b)
      ensures Divides(e, a) && Divides(e, b) <==> Divides(e, a) && Divides(e, b - a)
    {
      if Divides(e, b) && (Divides(e, a) || Divides(e, a - b)) {
        if Divides(e, a) { DividesSum(e, a, b); } else { DividesSum(e, a - b, b); }
      }
      if Divides(e, a) && (Divides(e, b) || Divides(e, b - a)) {
        if Divides(e, b) { DividesSum(e, b, a); } else { DividesSum(e, b - a, a); }
      }
    }
  }

  lemma ParityProduct(k: int, e: int)
    ensures (k * e) % 2 == (if k % 2 == 1 && e % 2 == 1 then 1 else 0)
  {
    var i, j, p, q := k / 2, e / 2, k % 2, e % 2;
    assert k * e == 2 * (2 * (i * j) + i * q + p * j) + p * q by {
      assert (2 * i + p) * (2 * j + q) == 4 * (i * j) + 2 * (i * q) + 2 * (p * j) + p * q;
    }
  }

  lemma OddDivisor(e: int, n: int)
    requires Divides(e, n) && n % 2 == 1
    ensures e % 2 == 1
  {
    var k: int :| Multiple(k, e) == n;
    ParityProduct(k, e);
  }

  // an odd number that divides twice w divides w
  lemma OddDividesHalf(e: int, w: int)
    requires e % 2 == 1 && Divides(e, 2 * w)
    ensures Divides(e, w)
  {
    var k: int :| Multiple(k, e) == 2 * w;
    ParityProduct(k, e);
    MulAssoc(2, k / 2, e);
    DividesIf(e, w, k / 2);
  }

  lemma DividesDouble(e: int, w: int)
    requires Divides(e, w)
    ensures Divides(e, 2 * w) && Divides(2 * e, 2 * w)
  {
    var k: int :| Multiple(k, e) == w;
    MulAssoc(2, k, e);
    DividesIf(e, 2 * w, 2 * k);
    MulSwap(k, 2, e);
    DividesIf(2 * e, 2 * w, k);
  }

  // against an odd number, a factor of two can be dropped
  lemma HalveDivisors(w: int, v: int)
    requires v % 2 == 1
    ensures SameDivisors(2 * w, v, w, v)
  {
    forall e: int ensures Divides(e, 2 * w) && Divides(e, v) <==> Divides(e, w) && Divides(e, v) {
      if Divides(e, v) {
        OddDivisor(e, v);
        if Divides(e, 2 * w) { OddDividesHalf(e, w); }
        if Divides(e, w) { DividesDouble(e, w); }
      }
    }
  }

  lemma DividesItself(n: int)
    ensures Divides(n, n) && Divides(n, 0)
  {
    DividesIf(n, n, 1);
    DividesIf(n, 0, 0);
  }

  // the loops end with a pair whose common divisors are plain
  lemma GcdFromDivisors(g: int, a: int, b: int, c: int)
    requires g > 0 && SameDivisors(a, b, c, g) && (c == 0 || c == g)
    ensures IsGcd(g, a, b)
  {
    DividesItself(g);
  }

  lemma GcdDouble(g: int, a: int, b: int)
    requires IsGcd(g, a, b)
    ensures IsGcd(2 * g, 2 * a, 2 * b)
  {
    DividesDouble(g, a);
    DividesDouble(g, b);
    forall d: int | Divides(d, 2 * a) && Divides(d, 2 * b) ensures Divides(d, 2 * g) {
      if d % 2 == 1 {
        OddDividesHalf(d, a);
        OddDividesHalf(d, b);
        DividesDouble(d, g);
      } else {
        HalfDivides(d / 2, a);
        HalfDivides(d / 2, b);
        DividesDouble(d / 2, g);
      }
    }
  }

  lemma HalfDivides(e: int, w: int)
    requires Divides(2 * e, 2 * w)
    ensures Divides(e, w)
  {
    var k: int :| Multiple(k, 2 * e) == 2 * w;
    MulSwap(k, 2, e);
    DividesIf(e, w, k);
  }

  lemma {:induction false} GcdScale(k: nat, g: int, a: int, b: int)
    requires IsGcd(g, a, b)
    ensures IsGcd(Two(k) * g, Two(k) * a, Two(k) * b)
  {
    if k > 0 {
      GcdScale(k - 1, g, a, b);
      var e := Two(k - 1);
      GcdDouble(e * g, e * a, e * b);
      MulAssoc(2, e, g);
      MulAssoc(2, e, a);
      MulAssoc(2, e, b);
    }
  }
}
