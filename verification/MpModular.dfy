/**
  Barrett reduction and modular exponentiation of src/mpi/mpi.c.
 */
module MpModular {
  import opened Radix
  import opened MpInts
  import opened MpShift
  import opened MpArith
  import opened MpMul
  import opened MpSigned
  import opened MpLongDiv
  import opened MpQuotient
  import opened Numbers

  // ---- Barrett reduction ----

  // The estimate of the quotient never exceeds it ...
  lemma BarrettLow(x: nat, m: nat, p: nat, r: nat, q1: nat, mu: nat, q3: nat)
    requires p > 0 && r > 0 && m > 0
    requires q1 * p <= x && mu * m <= p * r && q3 * r <= q1 * mu
    ensures q3 * m <= x
  {
    MulLe(q3 * r, q1 * mu, m);
    MulAssoc(q1, mu, m);
    MulLe(mu * m, p * r, q1);
    MulLe(q1 * p, x, r);
    MulAssoc(q1, p, r);
    assert (q3 * m) * r == (q3 * r) * m;
    if q3 * m > x { MulLe(x + 1, q3 * m, r); Distribute(x, 1, r); }
  }

  // ... and falls short of it by at most 2.
  lemma BarrettHigh(x: nat, m: nat, p: nat, r: nat, q1: nat, mu: nat, q3: nat)
    requires p > 0 && r > 0 && p <= m && x < p * r
    requires q1 * p <= x < (q1 + 1) * p && mu * m <= p * r < (mu + 1) * m && q1 * mu < (q3 + 1) * r
    ensures x < (q3 + 3) * m
  {
    if x >= (q3 + 3) * m {
      BarrettChain(x, m, p, r, q1, mu, q3);
      MulLtCancel(q1, r, p) by { assert q1 * p < r * p; }
      if mu > r { MulLe(r + 1, mu, m); MulLe(p, m, r + 1); Distribute(r, 1, p); }
      BarrettGap(q1, mu, q3, r);
    }
  }

  lemma BarrettChain(x: nat, m: nat, p: nat, r: nat, q1: nat, mu: nat, q3: nat)
    requires p > 0 && r > 0 && m > 0 && x < (q1 + 1) * p && p * r < (mu + 1) * m && x >= (q3 + 3) * m
    ensures (q3 + 3) * r < (q1 + 1) * (mu + 1)
  {
    MulLe((q3 + 3) * m, (q1 + 1) * p, r);
    MulAssoc(q1 + 1, p, r);
    MulLe(p * r + 1, (mu + 1) * m, q1 + 1);
    Distribute(p * r, 1, q1 + 1);
    MulAssoc(q1 + 1, mu + 1, m);
    assert ((q3 + 3) * m) * r == ((q3 + 3) * r) * m;
    MulLtCancel((q3 + 3) * r, (q1 + 1) * (mu + 1), m);
  }

  lemma BarrettGap(q1: nat, mu: nat, q3: nat, r: nat)
    requires (q3 + 3) * r < (q1 + 1) * (mu + 1) && q1 * mu < (q3 + 1) * r
    ensures q1 + mu > 2 * r
  {
    Distribute(q3 + 1, 2, r);
    Distribute(q1, 1, mu + 1);
    Distribute(mu, 1, q1);
  }

  // Dropping the high digits of both numbers loses nothing but a multiple of r.
  lemma BarrettDifference(x: nat, y: nat, r: nat, xr: nat, yr: nat)
    requires r > 0 && 0 <= x - y < r && xr == x % r && yr == y % r
    ensures x - y == if xr < yr then xr - yr + r else xr - yr
  {
    var a := WholePart(x, r, xr);
    var b := WholePart(y, r, yr);
    WrapOnce(x, y, r, xr, yr, a, b);
  }

  lemma WholePart(x: nat, r: nat, xr: nat) returns (a: nat)
    requires r > 0 && xr == x % r
    ensures x == a * r + xr && xr < r
  {
    a := DivMod(x, r);
  }

  lemma WrapOnce(x: nat, y: nat, r: nat, xr: nat, yr: nat, a: int, b: int)
    requires x == a * r + xr && y == b * r + yr && xr < r && yr < r && 0 <= x - y < r
    ensures x - y == if xr < yr then xr - yr + r else xr - yr
  {
    Distribute(a, -b, r);
    OneWrap(a - b, r, xr - yr, x - y);
  }

  lemma OneWrap(k: int, r: int, e: int, d: int)
    requires d == k * r + e && -r < e < r && 0 <= d < r
    ensures d == if e < 0 then e + r else e
  {
    if k > 1 { MulLe(2, k, r); }
    if k < 0 { MulLe(k, -1, r); }
  }

  // mu is the precomputed floor of RADIX^(2k) / m, where m has k digits
  ghost predicate IsMu(mu: nat, m: nat, k: nat) {
    IsFloor(mu, Pow(2 * k), m)
  }

  ghost predicate Distinct(x: MpInt, m: MpInt, mu: MpInt)
    reads x, m, mu
  {
    x != m && x != mu && m != mu && x.dp != m.dp && x.dp != mu.dp && m.dp != mu.dp
  }

  // the quotient that the first half of s_mw_mp_reduce estimates
  ghost function Estimated(x: nat, mu: nat, k: nat): nat
    requires k >= 1
  {
    x / Pow(k - 1) * mu / Pow(k + 1)
  }

  // q falls short of the quotient by at most 2
  ghost predicate IsEstimate(q: nat, x: nat, m: nat) {
    Multiple(q, m) <= x < Multiple(q + 3, m)
  }

  // the first half of s_mw_mp_reduce
  method Estimate(x: MpInt, m: MpInt, mu: MpInt) returns (q: MpInt)
    requires Natural(x) && Natural(m) && Natural(mu) && Distinct(x, m, mu)
    ensures fresh(q) && fresh(q.dp) && Natural(q)
    ensures q.Mag() == Estimated(x.Mag(), mu.Mag(), m.used)
  {
    var um := m.used;
    q := new MpInt.Copy(x);
    Rshd(q, um - 1);
    MagMul(q, mu);
    Rshd(q, um + 1);
  }

  lemma EstimateExact(x: nat, m: nat, mu: nat, k: nat)
    requires k >= 1 && Pow(k - 1) <= m && x < Pow(2 * k) && IsMu(mu, m, k)
    ensures IsEstimate(Estimated(x, mu, k), x, m)
  {
    var q1 := x / Pow(k - 1);
    BarrettEstimate(x, m, k, q1, mu, q1 * mu, q1 * mu / Pow(k + 1));
  }

  lemma BarrettEstimate(x: nat, m: nat, k: nat, q1: nat, mu: nat, q2: nat, q3: nat)
    requires k >= 1 && Pow(k - 1) <= m && x < Pow(2 * k) && IsMu(mu, m, k)
    requires q1 == x / Pow(k - 1) && q2 == q1 * mu && q3 == q2 / Pow(k + 1)
    ensures q3 * m <= x < (q3 + 3) * m
  {
    PowAdd(k - 1, k + 1);
    QuotientBounds(x, Pow(k - 1));
    QuotientBounds(q2, Pow(k + 1));
    BarrettLow(x, m, Pow(k - 1), Pow(k + 1), q1, mu, q3);
    BarrettHigh(x, m, Pow(k - 1), Pow(k + 1), q1, mu, q3);
  }

  lemma QuotientBounds(x: nat, d: nat)
    requires d > 0
    ensures (x / d) * d <= x < (x / d + 1) * d
  {
    var q := DivMod(x, d);
    Distribute(q, 1, d);
  }

  // how many bits are kept of x and of q * m: the count is passed as a digit
  function BitsKept(k: nat): Digit {
    DIGIT_BIT * (k + 1) % 0x1_0000
  }

  // what the second half makes of x - y
  ghost function Wrapped(x: nat, y: nat, k: nat): nat {
    var r := Two(BitsKept(k));
    KeptFit(k);
    if x % r < y % r then x % r - y % r + Pow(k + 1) else x % r - y % r
  }

  lemma KeptFit(k: nat)
    ensures Two(BitsKept(k)) <= Pow(k + 1)
    ensures k <= 4094 ==> Two(BitsKept(k)) == Pow(k + 1)
  {
    PowIsTwo(k + 1);
    TwoMono(BitsKept(k), DIGIT_BIT * (k + 1));
  }

  // It is the difference while the count fits in a digit.
  lemma WrappedExact(x: nat, y: nat, k: nat)
    requires k <= 4094 && 0 <= x - y < Pow(k + 1)
    ensures Wrapped(x, y, k) == x - y
  {
    KeptFit(k);
    var r := Pow(k + 1);
    BarrettDifference(x, y, r, x % r, y % r);
  }

  // the second half: the difference, taken modulo RADIX^(k+1) as far as the count allows
  method Difference(x: MpInt, q: MpInt, m: MpInt)
    requires Natural(x) && Natural(q) && Natural(m) && Distinct(x, q, m)
    modifies x, x.dp, q, q.dp
    ensures Natural(x) && x.Mag() == Wrapped(old(x.Mag()), Multiple(old(q.Mag()), m.Mag()), m.used)
    ensures x.dp == old(x.dp) || fresh(x.dp)
  {
    var um := m.used;
    KeptFit(um);
    Mod2d(x, BitsKept(um));
    MagMul(q, m);
    Mod2d(q, BitsKept(um));
    SubtractWrapped(x, q, um + 1);
  }

  // x := x - q, and RADIX^p more when that is negative; q is working space then
  method SubtractWrapped(x: MpInt, q: MpInt, p: nat)
    requires Natural(x) && Natural(q) && x != q && x.dp != q.dp && q.Mag() - x.Mag() <= Pow(p)
    modifies x, x.dp, q, q.dp
    ensures Natural(x) && x.Mag() == old(x.Mag() - q.Mag()) + if old(x.Mag() < q.Mag()) then Pow(p) else 0
    ensures x.dp == old(x.dp) || fresh(x.dp)
  {
    var res := Sub(x, q, x);
    var z := CmpZero(x);
    if z < 0 {
      AddPower(x, q, p);
    }
  }

  lemma DifferenceFits(x: nat, y: nat, m: nat, k: nat, q: nat)
    requires m < Pow(k) && y == q * m <= x < (q + 3) * m
    ensures 0 <= x - y < Pow(k + 1)
  {
    Distribute(q, 3, m);
  }

  // x := x + RADIX^p, with q as working space
  method AddPower(x: MpInt, q: MpInt, p: nat)
    requires x.Valid() && q.Valid() && x != q && x.dp != q.dp
    modifies x, x.dp, q, q.dp
    ensures x.Valid() && x.Value() == old(x.Value()) + Pow(p)
    ensures x.dp == old(x.dp) || fresh(x.dp)
  {
    Set(q, 1);
    ShiftOne(q, p);
    var res := Add(x, q, x);
  }

  // 1 becomes RADIX^p
  method ShiftOne(q: MpInt, p: nat)
    requires Natural(q) && q.Mag() == 1
    modifies q, q.dp
    ensures Natural(q) && q.Mag() == Pow(p) && q.used == p + 1
    ensures q.dp == old(q.dp) || fresh(q.dp)
  {
    OneDigit(q.dp[..], q.used, 2);
    Lshd(q, p);
    ScalePow(1, p);
    PowerOfRadix(q.dp[..], q.used, p);
  }

  lemma PowerOfRadix(s: seq<Digit>, n: nat, p: nat)
    requires n == p + 1 <= |s| && ZeroFrom(s, n) && Val(s) == Pow(p)
    ensures s[n - 1] != 0
  {
    VZero(s, n, |s|);
    VBound(s, n - 1);
  }

  // what s_mw_mp_reduce makes of x, for any m of k digits and any mu
  ghost function ReduceValue(x: nat, m: nat, mu: nat, k: nat): (r: nat)
    requires m > 0 && k >= 1
    ensures r < m
  {
    Wrapped(x, Multiple(Estimated(x, mu, k), m), k) % m
  }

  // s_mw_mp_reduce; the last loop turns t times
  method Reduce(x: MpInt, m: MpInt, mu: MpInt) returns (res: MpErr, ghost t: nat)
    requires Natural(x) && Natural(m) && Natural(mu) && Distinct(x, m, mu) && m.Mag() > 0
    modifies x, x.dp
    ensures res == Okay && Natural(x)
    ensures x.Mag() == ReduceValue(old(x.Mag()), m.Mag(), mu.Mag(), m.used)
    ensures old(x.Mag()) < Pow(2 * m.used) && IsMu(mu.Mag(), m.Mag(), m.used) && m.used <= 4094 ==> t <= 2
    ensures x.dp == old(x.dp) || fresh(x.dp)
  {
    ghost var x0 := x.Mag();
    var estimate := Estimate(x, m, mu);
    Difference(x, estimate, m);
    ghost var d := x.Mag();
    res, t := BackDown(x, m);
    QuotientOf(d, m.Mag(), t, x.Mag());
    MagBounds(m.dp[..], m.used);
    if x0 < Pow(2 * m.used) && IsMu(mu.Mag(), m.Mag(), m.used) && m.used <= 4094 {
      FewTurns(x0, m.Mag(), mu.Mag(), m.used, d, t, x.Mag());
    }
  }

  lemma QuotientOf(d: nat, m: nat, t: nat, r: nat)
    requires m > 0 && IsQuotient(d, m, t, r)
    ensures r == d % m
  {
    DivUnique(d, m, t, r);
  }

  // m has k digits
  ghost predicate HasDigits(m: nat, k: nat) {
    k >= 1 && Pow(k - 1) <= m < Pow(k)
  }

  // With at most 4094 digits it is the remainder, and the last loop turns at most twice.
  lemma FewTurns(x: nat, m: nat, mu: nat, k: nat, d: nat, t: nat, r: nat)
    requires HasDigits(m, k) && k <= 4094 && x < Pow(2 * k) && IsMu(mu, m, k)
    requires d == Wrapped(x, Multiple(Estimated(x, mu, k), m), k) && IsQuotient(d, m, t, r)
    ensures t <= 2 && r == x % m
  {
    var q := Estimated(x, mu, k);
    EstimateExact(x, m, mu, k);
    DifferenceFits(x, Multiple(q, m), m, k, q);
    WrappedExact(x, Multiple(q, m), k);
    AtMostTwo(x, m, q, d, t, r);
    QuotientOf(x, m, q + t, r);
  }

  lemma ReduceExact(x: nat, m: nat, mu: nat, k: nat)
    requires HasDigits(m, k) && k <= 4094 && x < Pow(2 * k) && IsMu(mu, m, k)
    ensures ReduceValue(x, m, mu, k) == x % m
  {
    var d := Wrapped(x, Multiple(Estimated(x, mu, k), m), k);
    var t := DivMod(d, m);
    MulComm(m, t);
    FewTurns(x, m, mu, k, d, t, d % m);
  }

  // With more, the power of two whose bits are just not kept is reduced to zero.
  function NotKept(k: nat): nat {
    Two(BitsKept(k))
  }

  lemma ReduceFails(m: nat, mu: nat, k: nat)
    requires HasDigits(m, k) && k >= 4095
    ensures 0 < NotKept(k) < m && NotKept(k) < Pow(2 * k)
    ensures ReduceValue(NotKept(k), m, mu, k) == 0
  {
    NotKeptSmall(k);
    PowMono(k - 1, 2 * k);
    NoEstimate(NotKept(k), mu, k);
    NothingKept(k);
    DivUnique(0, m, 0, 0);
  }

  lemma NotKeptSmall(k: nat)
    requires k >= 4095
    ensures 0 < NotKept(k) < Pow(k - 1)
  {
    PowIsTwo(k - 1);
    assert BitsKept(k) < DIGIT_BIT * (k - 1);
    TwoMono(BitsKept(k), DIGIT_BIT * (k - 1));
  }

  lemma NoEstimate(x: nat, mu: nat, k: nat)
    requires k >= 1 && x < Pow(k - 1)
    ensures Estimated(x, mu, k) == 0
  {
    DivUnique(x, Pow(k - 1), 0, x);
    DivUnique(0, Pow(k + 1), 0, 0);
  }

  lemma NothingKept(k: nat)
    ensures Wrapped(NotKept(k), 0, k) == 0
  {
    var r := NotKept(k);
    DivUnique(r, r, 1, 0);
    DivUnique(0, r, 0, 0);
  }

  // So every product is reduced to its remainder exactly when the modulus has at most 4094
  // digits.
  lemma ReduceIff(m: nat, mu: nat, k: nat)
    requires HasDigits(m, k) && IsMu(mu, m, k)
    ensures (forall x: nat :: x < Pow(2 * k) ==> ReduceValue(x, m, mu, k) == x % m) <==> k <= 4094
  {
    if k <= 4094 {
      forall x: nat | x < Pow(2 * k) ensures ReduceValue(x, m, mu, k) == x % m {
        ReduceExact(x, m, mu, k);
      }
    } else {
      var x := NotKept(k);
      ReduceFails(m, mu, k);
      DivUnique(x, m, 0, x);
      assert ReduceValue(x, m, mu, k) != x % m;
    }
  }

  // the last loop
  method BackDown(x: MpInt, m: MpInt) returns (res: MpErr, ghost t: nat)
    requires Natural(x) && Natural(m) && x != m && x.dp != m.dp && m.Mag() > 0
    modifies x, x.dp
    ensures res == Okay && Natural(x) && x.dp == old(x.dp)
    ensures IsQuotient(old(x.Mag()), m.Mag(), t, x.Mag())
  {
    ghost var y := m.Mag();
    t, res := 0, Okay;
    var c := Cmp(x, m);
    while c >= 0
      invariant Natural(x) && x.dp == old(x.dp) && res == Okay
      invariant old(x.Mag()) == t * y + x.Mag()
      invariant c == if x.Mag() < y then -1 else if x.Mag() > y then 1 else 0
      decreases x.Mag()
    {
      Distribute(t, 1, y);
      res := MagSub(x, m);
      t := t + 1;
      if res != Okay {
        break;
      }
      c := Cmp(x, m);
    }
  }

  lemma AtMostTwo(x: nat, m: nat, q: nat, d: nat, t: nat, r: nat)
    requires q * m <= x < (q + 3) * m && d == x - q * m && IsQuotient(d, m, t, r)
    ensures t <= 2 && IsQuotient(x, m, q + t, r)
  {
    Distribute(q, 3, m);
    Distribute(q, t, m);
    if t >= 3 { MulLe(3, t, m); }
  }

  // ---- exponentiation ----

  // What the loops of mw_mp_exptmod keep: s * x^r is the wanted power modulo m, where
  // r is what is left of the exponent e.
  ghost predicate ExpState(s: nat, x: nat, r: nat, power: int, m: nat, e: nat) {
    && r <= e && x < m && Cong(s * Power(x, r), power, m)
    && (if m == 1 && e == 0 then s == 1 else s < m || (m == 1 && s == 1 && r > 0))
  }

  lemma ExpBit(s: nat, x: nat, r: nat, power: int, m: nat, e: nat, s1: nat, x1: nat)
    requires ExpState(s, x, r, power, m, e) && r > 0
    requires Cong(x1, x * x, m) && x1 < m
    requires if r % 2 == 1 then Cong(s1, s * x, m) && s1 < m else s1 == s
    ensures ExpState(s1, x1, r / 2, power, m, e)
  {
    var h := r / 2;
    CongPower(x1, x * x, h, m);
    PowerSquare(x, h);
    if r % 2 == 1 {
      CongMul(s1, s * x, Power(x1, h), Power(x * x, h), m);
      assert Power(x, r) == x * Power(x, 2 * h);
      MulAssoc(s, x, Power(x, 2 * h));
    } else {
      CongSelf(s, m);
      CongMul(s1, s, Power(x1, h), Power(x * x, h), m);
    }
    CongTrans(s1 * Power(x1, h), s * Power(x, r), power, m);
  }

  // the reduction by m with mu
  ghost predicate Reduces(f: nat -> nat, x: nat, m: nat, mu: nat, k: nat)
    requires m > 0 && k >= 1
  {
    f(x) == ReduceValue(x, m, mu, k)
  }

  ghost predicate ExpObjects(s: MpInt, x: MpInt, m: MpInt, mu: MpInt, f: nat -> nat)
    reads s, x, m, mu, s.dp, x.dp, m.dp, mu.dp
  {
    && Natural(s) && Natural(x) && Natural(m) && Natural(mu)
    && Distinct(s, m, mu) && Distinct(x, m, mu) && s != x && s.dp != x.dp && m.Mag() > 0
    && forall y: nat :: Reduces(f, y, m.Mag(), mu.Mag(), m.used)
  }

  // the loops of mw_mp_exptmod: s and x with the bits r of the exponent still to be used
  ghost function PowerLoop(f: nat -> nat, s: nat, x: nat, r: nat): nat
    decreases r
  {
    if r == 0 then s else PowerLoop(f, if r % 2 == 1 then f(s * x) else s, f(x * x), r / 2)
  }

  // s := s * x, reduced
  method MulReduce(s: MpInt, x: MpInt, m: MpInt, mu: MpInt, ghost f: nat -> nat) returns (res: MpErr)
    requires ExpObjects(s, x, m, mu, f)
    modifies s, s.dp
    ensures res == Okay && ExpObjects(s, x, m, mu, f) && s.Mag() == f(old(s.Mag()) * x.Mag())
    ensures s.dp == old(s.dp) || fresh(s.dp)
  {
    MagMul(s, x);
    assert Reduces(f, s.Mag(), m.Mag(), mu.Mag(), m.used);
    ghost var t;
    res, t := Reduce(s, m, mu);
  }

  // x := x * x, reduced
  method SqrReduce(s: MpInt, x: MpInt, m: MpInt, mu: MpInt, ghost f: nat -> nat) returns (res: MpErr)
    requires ExpObjects(s, x, m, mu, f)
    modifies x, x.dp
    ensures res == Okay && ExpObjects(s, x, m, mu, f) && x.Mag() == f(old(x.Mag()) * old(x.Mag()))
    ensures x.dp == old(x.dp) || fresh(x.dp)
  {
    MagSqr(x);
    assert Reduces(f, x.Mag(), m.Mag(), mu.Mag(), m.used);
    ghost var t;
    res, t := Reduce(x, m, mu);
  }

  // one bit of the exponent
  method ExpStep(s: MpInt, x: MpInt, m: MpInt, mu: MpInt, odd: bool, ghost f: nat -> nat, ghost r: nat) returns (res: MpErr)
    requires ExpObjects(s, x, m, mu, f) && r > 0 && odd == (r % 2 == 1)
    modifies s, s.dp, x, x.dp
    ensures res == Okay && ExpObjects(s, x, m, mu, f)
    ensures PowerLoop(f, s.Mag(), x.Mag(), r / 2) == old(PowerLoop(f, s.Mag(), x.Mag(), r))
    ensures s.dp == old(s.dp) || fresh(s.dp)
    ensures x.dp == old(x.dp) || fresh(x.dp)
  {
    if odd {
      res := MulReduce(s, x, m, mu, f);
    }
    res := SqrReduce(s, x, m, mu, f);
  }

  // the loop over the sixteen bits of one lower digit; h is what the digits above
  // it still hold of the exponent
  method ExpDigit(s: MpInt, x: MpInt, m: MpInt, mu: MpInt, digit: Digit, ghost f: nat -> nat, ghost h: nat) returns (res: MpErr)
    requires ExpObjects(s, x, m, mu, f) && h > 0
    modifies s, s.dp, x, x.dp
    ensures res == Okay && ExpObjects(s, x, m, mu, f)
    ensures PowerLoop(f, s.Mag(), x.Mag(), h) == old(PowerLoop(f, s.Mag(), x.Mag(), digit + RADIX * h))
    ensures s.dp == old(s.dp) || fresh(s.dp)
    ensures x.dp == old(x.dp) || fresh(x.dp)
  {
    var d := digit;
    var bit := 0;
    TwoSixteen();
    ghost var r: nat := digit + RADIX * h;
    ghost var v := PowerLoop(f, s.Mag(), x.Mag(), r);
    res := Okay;
    while bit < DIGIT_BIT
      invariant res == Okay && BitsLeft(r, d, bit, h)
      invariant ExpObjects(s, x, m, mu, f) && PowerLoop(f, s.Mag(), x.Mag(), r) == v
      invariant s.dp == old(s.dp) || fresh(s.dp)
      invariant x.dp == old(x.dp) || fresh(x.dp)
    {
      NextBit(r, d, bit, h);
      res := ExpStep(s, x, m, mu, d % 2 == 1, f, r);
      d := d / 2;
      r := r / 2;
      bit := bit + 1;
    }
  }

  // d holds the bits of the digit from this one up, and h what is above the digit
  ghost predicate BitsLeft(r: nat, d: int, bit: int, h: nat) {
    0 <= bit <= 16 && 0 <= d < Two(16 - bit) && r == d + Two(16 - bit) * h
  }

  lemma NextBit(r: nat, d: int, bit: int, h: nat)
    requires BitsLeft(r, d, bit, h) && bit < 16 && h > 0
    ensures r > 0 && r % 2 == d % 2 && BitsLeft(r / 2, d / 2, bit + 1, h)
  {
    BitOf(d, Two(15 - bit), h, r);
  }

  lemma BitOf(d: int, f: nat, h: nat, r: nat)
    requires 0 <= d < 2 * f && h > 0 && r == d + (2 * f) * h
    ensures r > 0 && r % 2 == d % 2 && r / 2 == d / 2 + f * h && d / 2 < f
  {
    MulLe(1, h, 2 * f);
    MulAssoc(2, f, h);
    LowBit(d, f, f * h, r);
  }

  lemma LowBit(d: int, f: nat, z: int, r: int)
    requires 0 <= d < 2 * f && r == d + 2 * z
    ensures r % 2 == d % 2 && r / 2 == d / 2 + z && d / 2 < f
  {}

  // the loop over the bits of the last digit
  method ExpLast(s: MpInt, x: MpInt, m: MpInt, mu: MpInt, digit: Digit, ghost f: nat -> nat) returns (res: MpErr)
    requires ExpObjects(s, x, m, mu, f)
    modifies s, s.dp, x, x.dp
    ensures res == Okay && ExpObjects(s, x, m, mu, f) && s.Mag() == old(PowerLoop(f, s.Mag(), x.Mag(), digit))
    ensures s.dp == old(s.dp) || fresh(s.dp)
    ensures x.dp == old(x.dp) || fresh(x.dp)
  {
    var d := digit;
    ghost var v := PowerLoop(f, s.Mag(), x.Mag(), d);
    res := Okay;
    while d != 0
      invariant 0 <= d && res == Okay
      invariant ExpObjects(s, x, m, mu, f) && PowerLoop(f, s.Mag(), x.Mag(), d) == v
      invariant s.dp == old(s.dp) || fresh(s.dp)
      invariant x.dp == old(x.dp) || fresh(x.dp)
    {
      res := ExpStep(s, x, m, mu, d % 2 == 1, f, d);
      d := d / 2;
    }
  }

  // both loops over the digits of the exponent
  method ExpLoops(s: MpInt, x: MpInt, m: MpInt, mu: MpInt, b: MpInt, ghost f: nat -> nat) returns (res: MpErr)
    requires ExpObjects(s, x, m, mu, f) && Natural(b) && b != s && b != x && b.dp != s.dp && b.dp != x.dp
    modifies s, s.dp, x, x.dp
    ensures res == Okay && ExpObjects(s, x, m, mu, f) && s.Mag() == old(PowerLoop(f, s.Mag(), x.Mag(), b.Mag()))
    ensures s.dp == old(s.dp) || fresh(s.dp)
    ensures x.dp == old(x.dp) || fresh(x.dp)
  {
    ghost var t, n := b.dp[..], b.used;
    UpperWhole(t, 0, n);
    VZero(t, n, |t|);
    res := ExpUpper(s, x, m, mu, b, f);
    assert Upper(t, n - 1, n) == t[n - 1] + RADIX * Upper(t, n, n);
    res := ExpLast(s, x, m, mu, b.dp[b.used - 1], f);
  }

  // the loop over all digits but the last
  method ExpUpper(s: MpInt, x: MpInt, m: MpInt, mu: MpInt, b: MpInt, ghost f: nat -> nat) returns (res: MpErr)
    requires ExpObjects(s, x, m, mu, f) && Natural(b) && b != s && b != x && b.dp != s.dp && b.dp != x.dp
    modifies s, s.dp, x, x.dp
    ensures res == Okay && ExpObjects(s, x, m, mu, f)
    ensures PowerLoop(f, s.Mag(), x.Mag(), Upper(b.dp[..], b.used - 1, b.used)) ==
            old(PowerLoop(f, s.Mag(), x.Mag(), Upper(b.dp[..], 0, b.used)))
    ensures s.dp == old(s.dp) || fresh(s.dp)
    ensures x.dp == old(x.dp) || fresh(x.dp)
  {
    ghost var t, n := b.dp[..], b.used;
    ghost var v := PowerLoop(f, s.Mag(), x.Mag(), Upper(t, 0, n));
    var dig := 0;
    res := Okay;
    while dig < b.used - 1
      invariant 0 <= dig <= n - 1 && res == Okay
      invariant ExpObjects(s, x, m, mu, f) && PowerLoop(f, s.Mag(), x.Mag(), Upper(t, dig, n)) == v
      invariant s.dp == old(s.dp) || fresh(s.dp)
      invariant x.dp == old(x.dp) || fresh(x.dp)
    {
      UpperPositive(t, dig + 1, n);
      res := ExpDigit(s, x, m, mu, b.dp[dig], f, Upper(t, dig + 1, n));
      dig := dig + 1;
    }
  }

  lemma {:induction false} UpperPositive(s: seq<Digit>, i: nat, n: nat)
    requires i < n <= |s| && s[n - 1] != 0
    ensures Upper(s, i, n) > 0
    decreases n - i
  {
    if i < n - 1 {
      UpperPositive(s, i + 1, n);
    }
  }

  // what mw_mp_div makes of B^2k / m
  ghost function MuValue(m: nat, k: nat): nat
    requires m > 0
  {
    TruncatedNatural(Pow(2 * k), DivisorUsed(Pow(2 * k), m));
    Quotient(Pow(2 * k), m)
  }

  lemma TruncatedNatural(x: nat, d: int)
    requires d > 0
    ensures Truncated(x, d) >= 0
  {
    var q := DivMod(x, d);
  }

  // mu = b^2k / m
  method MakeMu(m: MpInt) returns (res: MpErr, mu: MpInt)
    requires Natural(m) && m.Mag() > 0
    ensures res == Okay && fresh(mu) && fresh(mu.dp) && Natural(mu) && mu.Mag() == MuValue(m.Mag(), m.used)
  {
    mu := new MpInt.Size(DEFPREC);
    MagAddDigit(mu, 1);
    ShiftOne(mu, 2 * m.used);
    ghost var x, y := mu.Value(), m.Value();
    res := DivideBy(mu, m);
    TruncatedNatural(x, DivisorUsed(x, y));
    assert mu.Value() == Quotient(x, y) == MuValue(y, m.used);
  }

  lemma MuExact(m: nat, k: nat)
    requires HasDigits(m, k) && k <= 4094
    ensures IsMu(MuValue(m, k), m, k)
  {
    FewBits(m, k);
    var x := Pow(2 * k);
    TruncatedIs(x, m);
    FloorBounds(x, m, Truncated(x, m), Remainder(x, m));
  }

  lemma FewBits(m: nat, k: nat)
    requires m < Pow(k) && k <= 4094
    ensures m < Two(0x1_0000)
  {
    PowIsTwo(k);
    TwoMono(16 * k, 0x1_0000);
  }

  // what mw_mp_exptmod computes, for any modulus m of k digits
  ghost function ExptValue(a: int, b: nat, m: nat, k: nat): nat
    requires m > 0 && k >= 1
  {
    ModValueRange(a, m);
    PowerLoop(Barrett(m, k), 1, ModValue(a, m, false), b)
  }

  ghost function Barrett(m: nat, k: nat): nat -> nat
    requires m > 0 && k >= 1
  {
    (x: nat) => ReduceValue(x, m, MuValue(m, k), k)
  }

  // mw_mp_exptmod
  method ExptMod(a: MpInt, b: MpInt, m: MpInt, c: MpInt) returns (res: MpErr)
    requires a.Valid() && b.Valid() && m.Valid() && c.Valid()
    modifies c
    ensures res == if old(b.Value()) < 0 || old(m.Value()) <= 0 then Range else Okay
    ensures res == Range ==> c.dp == old(c.dp) && c.Value() == old(c.Value())
    ensures res == Okay ==> Natural(c) && fresh(c.dp)
    ensures res == Okay ==> c.Value() == ExptValue(old(a.Value()), old(b.Mag()), old(m.Mag()), old(m.used))
  {
    var zb := CmpZero(b);
    var zm := CmpZero(m);
    if zb < 0 || zm <= 0 {
      return Range;
    }
    var s;
    res, s := ExptModFresh(a, b, m);
    Exch(s, c);
  }

  // the body of mw_mp_exptmod, with the result in its working variable s
  method ExptModFresh(a: MpInt, b: MpInt, m: MpInt) returns (res: MpErr, s: MpInt)
    requires a.Valid() && Natural(b) && Natural(m) && m.Mag() > 0
    ensures res == Okay && Natural(s) && fresh(s) && fresh(s.dp)
    ensures s.Value() == ExptValue(a.Value(), b.Mag(), m.Mag(), m.used)
  {
    var x, mu;
    res, s, x, mu := ExpSetup(a, m);
    res := ExpLoops(s, x, m, mu, b, Barrett(m.Mag(), m.used));
  }

  method ExpSetup(a: MpInt, m: MpInt) returns (res: MpErr, s: MpInt, x: MpInt, mu: MpInt)
    requires a.Valid() && Natural(m) && m.Mag() > 0
    ensures res == Okay && ExpObjects(s, x, m, mu, Barrett(m.Mag(), m.used))
    ensures s.Mag() == 1 && x.Mag() == ModValue(a.Value(), m.Mag(), false)
    ensures fresh(s) && fresh(x) && fresh(mu) && fresh(s.dp) && fresh(x.dp) && fresh(mu.dp)
  {
    s := new MpInt.Size(DEFPREC);
    res, x := ReducedCopy(a, m);
    Set(s, 1);
    res, mu := MakeMu(m);
  }

  method ReducedCopy(a: MpInt, m: MpInt) returns (res: MpErr, x: MpInt)
    requires a.Valid() && Natural(m) && m.Mag() > 0
    ensures res == Okay && Natural(x) && x.Mag() == ModValue(a.Value(), m.Mag(), false)
    ensures fresh(x) && fresh(x.dp)
  {
    x := new MpInt.Copy(a);
    res := ModInPlace(x, m);
  }

  // ---- the power ----

  // With at most 4094 digits the loops compute the power.
  lemma {:induction false} LoopExact(f: nat -> nat, s: nat, x: nat, r: nat, power: int, m: nat, e: nat)
    requires ExpState(s, x, r, power, m, e) && forall y: nat :: Remainders(f, y, m)
    ensures var p := PowerLoop(f, s, x, r);
      Cong(p, power, m) && if m == 1 && e == 0 then p == 1 else p < m
    decreases r
  {
    if r == 0 {
      assert s * Power(x, 0) == s;
    } else {
      assert Remainders(f, s * x, m) && Remainders(f, x * x, m);
      var s1, x1 := if r % 2 == 1 then f(s * x) else s, f(x * x);
      ProductBound(s, x, m);
      ProductBound(x, x, m);
      CongMod(s * x, m);
      CongMod(x * x, m);
      ExpBit(s, x, r, power, m, e, s1, x1);
      LoopExact(f, s1, x1, r / 2, power, m, e);
    }
  }

  // f is the remainder by m for the products that occur
  ghost predicate Remainders(f: nat -> nat, y: nat, m: nat)
    requires m > 0
  {
    y <= Multiple(m, m) ==> f(y) == y % m
  }

  lemma ProductBound(x: nat, y: nat, m: nat)
    requires x <= m && y <= m
    ensures 0 <= x * y <= Multiple(m, m)
  {
    MulLe(x, m, y);
    MulLe(y, m, m);
    MulComm(m, y);
  }

  lemma BarrettRemainders(y: nat, m: nat, k: nat)
    requires HasDigits(m, k) && k <= 4094
    ensures Remainders(Barrett(m, k), y, m)
  {
    if y <= Multiple(m, m) {
      SquareBelow(m, k);
      MuExact(m, k);
      ReduceExact(y, m, MuValue(m, k), k);
    }
  }

  lemma SquareBelow(m: nat, k: nat)
    requires m < Pow(k)
    ensures Multiple(m, m) < Pow(2 * k)
  {
    PowAdd(k, k);
    ProductBelow(m, m, Pow(k), Pow(k));
  }

  lemma ExpStart(a: int, b: nat, m: nat, x: nat)
    requires x < m && Cong(x, a, m)
    ensures ExpState(1, x, b, Power(a, b), m, b)
  {
    CongPower(x, a, b, m);
    assert 1 * Power(x, b) == Power(x, b);
  }

  lemma ReducedBase(a: int, m: nat, k: nat)
    requires HasDigits(m, k) && k <= 4094
    ensures 0 <= ModValue(a, m, false) < m && Cong(ModValue(a, m, false), a, m)
  {
    FewBits(m, k);
    TruncatedIs(a, m);
    ReducedCong(a, m, Truncated(a, m), Remainder(a, m));
  }

  // It is the power modulo m, except that m = 1 with b = 0 gives 1.
  lemma ExptModExact(a: int, b: nat, m: nat, k: nat)
    requires HasDigits(m, k) && k <= 4094
    ensures ExptValue(a, b, m, k) == Power(a, b) % m <==> m > 1 || b > 0
    ensures m == 1 && b == 0 ==> ExptValue(a, b, m, k) == 1
  {
    var x := ModValue(a, m, false);
    ReducedBase(a, m, k);
    ExpStart(a, b, m, x);
    forall y: nat ensures Remainders(Barrett(m, k), y, m) {
      BarrettRemainders(y, m, k);
    }
    LoopExact(Barrett(m, k), 1, x, b, Power(a, b), m, b);
    var p := ExptValue(a, b, m, k);
    if p < m {
      CongRemainder(p, Power(a, b), m);
    }
  }

  // With more digits the first power of one number is already wrong: it is zero.
  lemma ExptModFails(m: nat, k: nat)
    requires HasDigits(m, k) && k >= 4095
    ensures 0 < NotKept(k) < m
    ensures ExptValue(NotKept(k), 1, m, k) == 0 != Power(NotKept(k), 1) % m
  {
    var a, f := NotKept(k), Barrett(m, k);
    ReduceFails(m, MuValue(m, k), k);
    ModSmall(a, m);
    assert f(1 * a) == 0;
    assert PowerLoop(f, 1, a, 1) == PowerLoop(f, f(1 * a), f(a * a), 0);
    assert Power(a, 1) == a * Power(a, 0) == a;
    DivUnique(a, m, 0, a);
  }

  lemma ModSmall(a: nat, m: nat)
    requires a < m
    ensures ModValue(a, m, false) == a
  {
    DivUnique(a, m, 0, a);
  }

  // So mw_mp_exptmod computes all powers but that of b = 0 with m = 1 exactly when the
  // modulus has at most 4094 digits.
  lemma ExptModIff(m: nat, k: nat)
    requires HasDigits(m, k)
    ensures (forall a: int, b: nat :: m > 1 || b > 0 ==> ExptValue(a, b, m, k) == Power(a, b) % m) <==> k <= 4094
  {
    if k <= 4094 {
      forall a: int, b: nat | m > 1 || b > 0 ensures ExptValue(a, b, m, k) == Power(a, b) % m {
        ExptModExact(a, b, m, k);
      }
    } else {
      ExptModFails(m, k);
    }
  }
}
