/**
  What long division in src/mpi/mpi.c is made of: powers of two and their shortcut,
  the product with a digit, normalisation, and the guessed quotient digit.
 */
module MpDiv {
  import opened Radix
  import opened MpInts
  import opened MpShift
  import opened MpArith

  // ---- powers of two ----

  lemma {:induction false} TwoInjective(j: nat, k: nat)
    requires Two(j) == Two(k)
    ensures j == k
  {
    if j < k { TwoMono(j, k); }
    if k < j { TwoMono(k, j); }
  }

  // an odd number times a power of two is a power of two only if it is 1
  lemma {:induction false} OddPart(d: nat, e: nat, r: nat)
    requires d % 2 == 1 && d * Two(e) == Two(r)
    ensures d == 1
  {
    if e == 0 {
    } else if r == 0 {
      MulLe(1, d, Two(e));
    } else {
      assert d * (2 * Two(e - 1)) == 2 * (d * Two(e - 1));
      OddPart(d, e - 1, r - 1);
    }
  }

  // A power of two has a power of two as its top digit and zeros below it.
  lemma PowerOfTwoDigits(s: seq<Digit>, n: nat, j: nat)
    requires 1 <= n <= |s| && s[n - 1] != 0 && V(s, n) == Two(j)
    ensures j >= 16 * (n - 1) && s[n - 1] == Two(j - 16 * (n - 1)) && V(s, n - 1) == 0
  {
    VTop(s, n);
    ScaleMono(1, s[n - 1], n - 1);
    TwoScale(0, n - 1);
    if j < 16 * (n - 1) { TwoMono(j, 16 * (n - 1)); }
    var e := j - 16 * (n - 1);
    TwoScale(e, n - 1);
    SameScaled(Two(e), s[n - 1], n - 1, V(s, n - 1));
  }

  // x scaled lies between d and d + 1 scaled only when x = d
  lemma SameScaled(x: nat, d: nat, n: nat, low: nat)
    requires Scale(x, n) == low + Scale(d, n) < Scale(d + 1, n)
    ensures x == d && low == 0
  {
    if x < d { ScaleMono(x, d, n); }
    if x > d { ScaleMono(d + 1, x, n); }
  }

  lemma TwoScale(e: nat, m: nat)
    ensures Scale(Two(e), m) == Two(e + 16 * m)
  {
    ScalePow(Two(e), m);
    PowIsTwo(m);
    TwoAdd(e, 16 * m);
  }

  lemma TopNotPower(s: seq<Digit>, n: nat, d: nat, e: nat)
    requires 1 <= n <= |s| && (n > 1 ==> s[n - 1] != 0) && d * Two(e) == s[n - 1]
    requires d != 1 && (d == 0 || d % 2 == 1)
    ensures forall j: nat :: V(s, n) != Two(j)
  {
    assert V(s, 1) == V(s, 0) + Scale(s[0], 0);
    forall j: nat ensures V(s, n) != Two(j) {
      if V(s, n) == Two(j) && s[n - 1] != 0 {
        PowerOfTwoDigits(s, n, j);
        OddPart(d, e, j - 16 * (n - 1));
      }
    }
  }

  lemma LowNotZero(s: seq<Digit>, n: nat, ix: nat)
    requires ix < n - 1 && 1 <= n <= |s| && s[n - 1] != 0 && s[ix] != 0
    ensures forall j: nat :: V(s, n) != Two(j)
  {
    forall j: nat ensures V(s, n) != Two(j) {
      if V(s, n) == Two(j) {
        PowerOfTwoDigits(s, n, j);
        AllZero(s, n - 1);
      }
    }
  }

  // the first loop of s_mw_mp_ispow2, on the top digit
  method StripTop(top: Digit) returns (d: nat, extra: nat)
    ensures d * Two(extra) == top && (d == 0 || d % 2 == 1)
  {
    d, extra := top, 0;
    while d != 0 && d % 2 == 0
      invariant d * Two(extra) == top
    {
      MulAssoc(d / 2, 2, Two(extra));
      d := d / 2;
      extra := extra + 1;
    }
  }

  // s_mw_mp_ispow2
  method IsPow2(v: MpInt) returns (k: int)
    requires v.Trimmed()
    ensures k >= 0 ==> v.Mag() == Two(k)
    ensures k < 0 ==> k == -1 && forall j: nat :: v.Mag() != Two(j)
  {
    ghost var s, n := v.dp[..], v.used;
    MagBounds(s, n);
    var d, extra := StripTop(v.dp[v.used - 1]);
    if d != 1 {
      TopNotPower(s, n, d, extra);
      return -1;
    }
    var ix := v.used - 2;
    while ix >= 0
      invariant -1 <= ix <= n - 2
      invariant forall i :: ix < i < n - 1 ==> s[i] == 0
    {
      if v.dp[ix] != 0 {
        LowNotZero(s, n, ix);
        return -1;
      }
      ix := ix - 1;
    }
    VZero(s, 0, n - 1);
    TwoScale(extra, n - 1);
    k := (v.used - 1) * DIGIT_BIT + extra;
  }

  // s_mw_mp_div passes the logarithm of a power of two to the shift helpers as a
  // 16-bit digit, so this is the divisor it really uses.
  ghost function Divisor(b: nat): (d: nat)
    ensures b > 0 ==> 0 < d <= b
    ensures b < Two(0x1_0000) ==> d == b
  {
    if exists k: nat :: k >= 0x1_0000 && b == Two(k) then
      var k: nat :| k >= 0x1_0000 && b == Two(k);
      TwoMono(0x1_0000, k);
      TwoMono(k % 0x1_0000, k);
      Two(k % 0x1_0000)
    else b
  }

  lemma DivisorOfPower(k: nat)
    ensures Divisor(Two(k)) == Two(k % 0x1_0000)
  {
    forall j: nat | Two(j) == Two(k) ensures j == k { TwoInjective(j, k); }
  }

  lemma DivisorDivides(b: nat) returns (c: nat)
    requires b > 0
    ensures c > 0 && b == c * Divisor(b)
  {
    c := 1;
    if k: nat :| k >= 0x1_0000 && b == Two(k) {
      DivisorOfPower(k);
      TwoAdd(k - k % 0x1_0000, k % 0x1_0000);
      c := Two(k - k % 0x1_0000);
    }
  }

  // The division by the reduced divisor is the right one exactly when both quotients
  // are zero.
  lemma DivisionExact(a: nat, b: nat)
    requires b > 0
    ensures a / Divisor(b) == a / b && a % Divisor(b) == a % b <==> Divisor(b) == b || a < Divisor(b)
  {
    var d := Divisor(b);
    if a < d {
      DivUnique(a, d, 0, a);
      DivUnique(a, b, 0, a);
    } else if d < b {
      var q := DivMod(a, d);
      var q2 := DivMod(a, b);
      DivAtLeast(a, d, 1);
      if q == q2 && a % d == a % b {
        SameQuotient(d, b, q);
      }
    }
  }

  lemma SameQuotient(d: nat, b: nat, q: nat)
    requires q > 0 && d * q == b * q
    ensures d == b
  {
    MulCancel(d, b, q);
  }

  // ---- one digit ----

  // a product with d of a number of n digits fits its buffer, or the top digit tells that
  // it does not
  ghost predicate HasRoom(top: Digit, d: Digit, m: nat, n: nat, alloc: nat) {
    n < alloc || Times(top, d) >= RADIX || m * d < Pow(n)
  }

  // s_mw_mp_mul_d. Its test looks only at the top digit and not at the carry into
  // it, so the caller must know that a carry out without that sign has room.
  method MulDigit(a: MpInt, d: Digit)
    requires a.Trimmed()
    requires HasRoom(a.dp[a.used - 1], d, a.Mag(), a.used, a.dp.Length)
    modifies a, a.dp
    ensures a.Trimmed() && a.Mag() == old(a.Mag()) * d && a.sign == (old(a.sign) && a.Mag() > 0)
    ensures a.dp == old(a.dp) || fresh(a.dp)
  {
    var max := a.used;
    ghost var top, m, alloc := a.dp[max - 1], a.Mag(), a.dp.Length;
    if Times(a.dp[max - 1], d) / RADIX != 0 {
      Pad(a, max + 1);
    }
    VZero(a.dp[..], max, a.dp.Length);
    var k := TimesDigit(a.dp, max, d);
    if k != 0 {
      CarryHasRoom(top, d, m, max, alloc, a.dp.Length, V(a.dp[..], max), k);
      StoreCarry(a, max, k);
    } else {
      VZero(a.dp[..], max, a.dp.Length);
    }
    Clamp(a);
  }

  lemma CarryHasRoom(top: Digit, d: Digit, m: nat, n: nat, alloc: nat, now: nat, v: nat, k: int)
    requires HasRoom(top, d, m, n, alloc) && k > 0 && v + Scale(k, n) == m * d
    requires now >= if Times(top, d) / RADIX != 0 then n + 1 else alloc
    ensures n < now
  {
    ScaleMono(1, k, n);
    ScalePow(1, n);
  }

  // a carry out of the digits becomes a new one
  method StoreCarry(a: MpInt, max: nat, k: Digit)
    requires 1 <= max < a.dp.Length && ZeroFrom(a.dp[..], max) && k != 0
    modifies a`used, a.dp
    ensures a.Shape() && a.Mag() == old(V(a.dp[..], max)) + Scale(k, max)
  {
    ghost var t := a.dp[..];
    a.dp[max] := k;
    a.used := max + 1;
    NewTop(t, a.dp[..], max);
  }

  // The test misses a carry: here it finds room enough, and the product needs a third
  // digit.
  lemma MulDigitCarry(a: seq<Digit>, d: Digit)
    requires a == [0xFFFF, 0x5555] && d == 3
    ensures Times(a[1], d) < RADIX && Val(a) * d >= Pow(2)
  {
    assert Pow(2) == RADIX * (RADIX * Pow(0));
    assert V(a, 2) == V(a, 1) + Scale(a[1], 1) && V(a, 1) == V(a, 0) + Scale(a[0], 0);
    assert Scale(a[1], 1) == RADIX * Scale(a[1], 0);
  }

  method TimesDigit(dp: array<Digit>, max: nat, d: Digit) returns (k: Word)
    requires max <= dp.Length
    modifies dp
    ensures k < RADIX && V(dp[..], max) + Scale(k, max) == old(V(dp[..], max)) * d
    ensures forall i :: max <= i < dp.Length ==> dp[i] == old(dp[i])
  {
    ghost var s := dp[..];
    k := 0;
    var ix := 0;
    while ix < max
      invariant 0 <= ix <= max && k < RADIX
      invariant SameFrom(dp[..], s, ix)
      invariant V(dp[..], ix) + Scale(k, ix) == V(s, ix) * d
    {
      ghost var u, k0 := dp[..], k;
      var w: Word := Times(dp[ix], d) + k;
      dp[ix] := w % RADIX;
      TimesStep(s, u, dp[..], ix, d, k0, w);
      k := w / RADIX;
      ix := ix + 1;
    }
  }

  lemma TimesStep(s: seq<Digit>, t: seq<Digit>, u: seq<Digit>, ix: nat, d: Digit, k: int, w: int)
    requires ix < |s| == |t| == |u| && u == t[ix := u[ix]] && u[ix] == w % RADIX
    requires w == Times(s[ix], d) + k
    requires V(t, ix) + Scale(k, ix) == V(s, ix) * d
    ensures V(u, ix + 1) + Scale(w / RADIX, ix + 1) == V(s, ix + 1) * d
  {
    var z := Times(s[ix], d);
    CarryStep(t, u, ix, w);
    ScaleAdd(z, k, ix);
    TimesScale(V(s, ix), s[ix], d, z, ix);
  }

  lemma TimesScale(v: int, x: int, d: int, z: int, ix: nat)
    requires z == x * d
    ensures (v + Scale(x, ix)) * d == v * d + Scale(z, ix)
  {
    ScaleMul(d, x, z, ix);
    Distribute(v, Scale(x, ix), d);
  }

  // ---- normalisation ----

  // the shift that s_mw_mp_norm finds
  method NormShift(top: Digit) returns (d: Digit)
    requires top > 0
    ensures d < 16 && 0x8000 <= top * Two(d) && (top as int + 1) * Two(d) <= RADIX
  {
    var t: Digit := top;
    d := 0;
    while t < RADIX / 2
      invariant t == top * Two(d) && (top as int + 1) * Two(d) <= RADIX && d < 16
      decreases RADIX - t
    {
      NormStep(top, d, t);
      t := t * 2;
      d := d + 1;
    }
  }

  lemma NormStep(top: Digit, d: nat, t: nat)
    requires top > 0 && t == top * Two(d) && t < 0x8000 && d < 16
    ensures d < 15 && 0 < t && 2 * t == top * Two(d + 1) && (top as int + 1) * Two(d + 1) <= RADIX
  {
    TwoFifteen();
    if d == 15 { MulLe(1, top, Two(d)); }
    TwoAdd(d, 15 - d);
    NormProduct(top, Two(d), Two(15 - d), t);
  }

  lemma NormProduct(top: int, e: int, f: int, t: int)
    requires top > 0 && e > 0 && e * f == 0x8000 && t == top * e && t < 0x8000
    ensures 0 < t && 2 * t == top * (2 * e) && (top + 1) * (2 * e) <= RADIX
  {
    MulLtCancel(top, f, e);
    MulLe(top + 1, f, e);
    MulLe(1, top, e);
  }

  lemma TwoFifteen()
    ensures Two(15) == 0x8000
  {
    TwoSixteen();
  }

  ghost predicate Normalised(b: MpInt)
    reads b, b.dp
  {
    b.Trimmed() && b.dp[b.used - 1] >= 0x8000
  }

  // s_mw_mp_norm
  method Norm(a: MpInt, b: MpInt) returns (d: Digit)
    requires a.Trimmed() && b.Trimmed() && a != b && a.dp != b.dp && b.Mag() > 0
    modifies a, a.dp, b, b.dp
    ensures a.Trimmed() && a.Mag() == old(a.Mag()) * Two(d)
    ensures Normalised(b) && b.Mag() == old(b.Mag()) * Two(d)
    ensures a.dp == old(a.dp) || fresh(a.dp)
    ensures b.dp == old(b.dp) || fresh(b.dp)
    ensures a.dp != b.dp
  {
    ghost var s, n := b.dp[..], b.used;
    MagBounds(s, n);
    d := NormShift(b.dp[b.used - 1]);
    NormTop(s, n, d);
    if d != 0 {
      Mul2d(a, d);
      Mul2d(b, d);
      TopHalf(b.dp[..], b.used, n);
    }
  }

  lemma NormTop(s: seq<Digit>, n: nat, d: nat)
    requires 0 < n <= |s| && 0x8000 <= s[n - 1] * Two(d) && (s[n - 1] as int + 1) * Two(d) <= RADIX
    ensures Scale(0x8000, n - 1) <= V(s, n) * Two(d) < Pow(n)
    ensures d == 0 ==> s[n - 1] >= 0x8000
  {
    VTop(s, n);
    var x, e := s[n - 1] as int, Two(d);
    NormScale(V(s, n), x, x * e, (x + 1) * e, e, n - 1);
    ScaleMono(0x8000, x * e, n - 1);
    ScaleMono((x + 1) * e, RADIX, n - 1);
    ScalePow(1, n - 1);
    ScaleUp(1, n - 1);
    ScalePow(1, n);
    assert d == 0 ==> x * e == x;
  }

  lemma Between(l: int, v: int, h: int, e: int)
    requires l <= v < h && e > 0
    ensures e * l <= v * e < e * h
  {}

  lemma NormScale(v: nat, x: int, lo: int, hi: int, e: int, n: nat)
    requires e > 0 && lo == x * e && hi == (x + 1) * e && Scale(x, n) <= v < Scale(x + 1, n)
    ensures Scale(lo, n) <= v * e < Scale(hi, n)
  {
    ScaleMul(e, x, lo, n);
    ScaleMul(e, x + 1, hi, n);
    Between(Scale(x, n), v, Scale(x + 1, n), e);
  }

  lemma TopHalf(s: seq<Digit>, m: nat, n: nat)
    requires 1 <= m <= |s| && ZeroFrom(s, m) && (m > 1 ==> s[m - 1] != 0) && n > 0
    requires Scale(0x8000, n - 1) <= Val(s) < Pow(n)
    ensures m == n && s[m - 1] >= 0x8000
  {
    MagBounds(s, m);
    ScalePow(0x8000, n - 1);
    MulLe(1, 0x8000, Pow(n - 1));
    if m < n { PowMono(m, n - 1); }
    if m > n { PowMono(n, m - 1); }
    VTop(s, m);
    if s[m - 1] < 0x8000 { ScaleMono(s[m - 1] as int + 1, 0x8000, m - 1); }
  }

  // ---- the quotient digit ----

  // the quotient of the leading digits, held below the radix
  function GuessOf(x: nat, top: nat): nat
    requires top > 0
  {
    if x / top >= RADIX then RADIX - 1 else x / top
  }

  // The guess is never too small ...
  lemma GuessLow(r: nat, b: nat, p: nat, top: nat, x: nat, bp: nat, rp: nat)
    requires p > 0 && top > 0 && b > 0 && bp == top * p && rp == (x + 1) * p
    requires bp <= b && r < RADIX * b && r < rp
    ensures r / b <= GuessOf(x, top)
  {
    var t := DivMod(r, b);
    if t >= RADIX { MulLe(RADIX, t, b); }
    MulLe(bp, b, t);
    MulAssoc(t, top, p);
    MulLtCancel(t * top, x + 1, p);
    DivAtLeast(x, top, t);
  }

  // ... and, when the divisor's top digit is at least half the radix, at most 2 too large.
  lemma GuessHigh(r: nat, b: nat, p: nat, top: nat, x: nat, bp: nat, rp: nat)
    requires p > 0 && top >= 0x8000 && bp == (top + 1) * p && rp == x * p
    requires 0 < b < bp && rp <= r < RADIX * b
    ensures GuessOf(x, top) <= r / b + 2
  {
    var q := GuessOf(x, top);
    var t := DivMod(r, b);
    if q >= t + 3 {
      var g := DivMod(x, top);
      MulLe(t + 3, g, top);
      Distribute(t, 1, b);
      GapIsLarge(r, b, p, top, x, bp, rp, t);
    }
  }

  lemma GapIsLarge(r: nat, b: nat, p: nat, top: nat, x: nat, bp: nat, rp: nat, t: nat)
    requires p > 0 && bp == (top + 1) * p && rp == x * p && b < bp && rp <= r < (t + 1) * b
    requires (t + 3) * top <= x
    ensures t >= 2 * top
  {
    MulLe((t + 3) * top, x, p);
    MulLe(b, bp, t + 1);
    MulAssoc(t + 1, top + 1, p);
    MulLtCancel((t + 3) * top, (t + 1) * (top + 1), p);
    TooHigh(t, top);
  }

  lemma TooHigh(t: nat, top: nat)
    requires (t + 3) * top < (t + 1) * (top + 1)
    ensures t >= 2 * top
  {
    Distribute(t, 3, top);
    Distribute(t, 1, top + 1);
    assert t * (top + 1) == t * top + t;
  }

  lemma GuessRange(r: nat, b: nat, n: nat, top: nat, x: nat)
    requires Scale(x, n) <= r < Scale(x + 1, n) && Scale(top, n) <= b < Scale(top + 1, n)
    requires top >= 0x8000 && 0 < b && r < RADIX * b
    ensures r / b <= GuessOf(x, top) <= r / b + 2
  {
    ScalePow(x, n);
    ScalePow(x + 1, n);
    ScalePow(top, n);
    ScalePow(top + 1, n);
    GuessLow(r, b, Pow(n), top, x, Scale(top, n), Scale(x + 1, n));
    GuessHigh(r, b, Pow(n), top, x, Scale(top + 1, n), Scale(x, n));
  }

  // how many digits the partial remainder has
  lemma PartialSize(r: seq<Digit>, m: nat, b: seq<Digit>, n: nat)
    requires 1 <= m <= |r| && ZeroFrom(r, m) && (m > 1 ==> r[m - 1] != 0)
    requires 1 <= n <= |b| && ZeroFrom(b, n) && b[n - 1] >= 0x8000
    requires Val(b) <= Val(r) < RADIX * Val(b)
    ensures m == n || m == n + 1
    ensures m == n ==> b[n - 1] <= r[n - 1]
    ensures m == n + 1 ==> r[n] <= b[n - 1]
  {
    PartialLength(r, m, b, n);
    VZero(r, m, |r|);
    VZero(b, n, |b|);
    if m == n {
      if r[n - 1] < b[n - 1] { FirstDifference(r, b, n - 1); }
    } else {
      VTop(r, m);
      VTop(b, n);
      TopsOrdered(Val(r), Val(b), r[n], b[n - 1], n - 1);
    }
  }

  lemma TopsOrdered(r: nat, b: nat, c: nat, d: nat, n: nat)
    requires Scale(c, n + 1) <= r < RADIX * b && b < Scale(d + 1, n)
    ensures c <= d
  {
    if c > d {
      ScaleMono(d + 1, c, n + 1);
      ScaleUp(d + 1, n);
    }
  }

  lemma PartialLength(r: seq<Digit>, m: nat, b: seq<Digit>, n: nat)
    requires 1 <= m <= |r| && ZeroFrom(r, m) && (m > 1 ==> r[m - 1] != 0)
    requires 1 <= n <= |b| && ZeroFrom(b, n) && (n > 1 ==> b[n - 1] != 0)
    requires Val(b) <= Val(r) < RADIX * Val(b)
    ensures m == n || m == n + 1
  {
    if m < n { LongerIsLarger(r, m, b, n); }
    if m > n + 1 {
      MagBounds(r, m);
      MagBounds(b, n);
      PowMono(n + 1, m - 1);
    }
  }

  // what its leading digits say
  lemma LeadingDigits(r: seq<Digit>, m: nat, n: nat)
    requires 1 <= n <= m <= |r| && m <= n + 1 && ZeroFrom(r, m)
    ensures Scale(Leading(r, m, n), n - 1) <= Val(r) < Scale(Leading(r, m, n) + 1, n - 1)
  {
    VZero(r, m, |r|);
    if m == n {
      VTop(r, m);
    } else {
      TopTwo(r, n);
    }
  }

  lemma TopTwo(r: seq<Digit>, n: nat)
    requires 1 <= n < |r|
    ensures var x := r[n] as int * RADIX + r[n - 1]; Scale(x, n - 1) <= V(r, n + 1) < Scale(x + 1, n - 1)
  {
    VBound(r, n - 1);
    TwoDigits(r, n);
    LeadTwo(V(r, n - 1), r[n], r[n - 1], n - 1);
  }

  lemma LeadTwo(v: nat, c: Digit, e: Digit, k: nat)
    requires v < Pow(k)
    ensures var x := c as int * RADIX + e;
      Scale(x, k) <= v + Scale(e, k) + Scale(c, k + 1) < Scale(x + 1, k)
  {
    ScaleTwoDigits(c, e, c as int * RADIX + e, k);
  }

  lemma TwoDigits(r: seq<Digit>, n: nat)
    requires 1 <= n < |r|
    ensures V(r, n + 1) == V(r, n - 1) + Scale(r[n - 1], n - 1) + Scale(r[n], n)
  {
    assert V(r, n) == V(r, n - 1) + Scale(r[n - 1], n - 1);
  }

  lemma ScaleTwoDigits(c: int, e: int, x: int, k: nat)
    requires x == c * RADIX + e
    ensures Scale(x, k) == Scale(e, k) + Scale(c, k + 1)
    ensures Scale(x + 1, k) == Scale(x, k) + Pow(k)
  {
    ScaleUp(c, k);
    ScaleAdd(RADIX * c, e, k);
    ScaleAdd(x, 1, k);
    ScalePow(1, k);
  }

  // the top digit, or the top two when there is one digit more than in the divisor
  function Leading(r: seq<Digit>, m: nat, n: nat): nat
    requires 1 <= n <= m <= |r| && m <= n + 1
  {
    if m == n then r[m - 1] else r[n] as int * RADIX + r[n - 1]
  }

  lemma GuessBounds(r: seq<Digit>, m: nat, b: seq<Digit>, n: nat)
    requires 1 <= m <= |r| && ZeroFrom(r, m) && (m > 1 ==> r[m - 1] != 0)
    requires 1 <= n <= |b| && ZeroFrom(b, n) && b[n - 1] >= 0x8000
    requires 0 < Val(b) && Val(r) < RADIX * Val(b) && n <= m <= n + 1
    ensures Val(r) / Val(b) <= GuessOf(Leading(r, m, n), b[n - 1]) <= Val(r) / Val(b) + 2
  {
    LeadingDigits(r, m, n);
    VTop(b, n);
    VZero(b, n, |b|);
    GuessRange(Val(r), Val(b), n - 1, b[n - 1], Leading(r, m, n));
  }

  // the remainder is as long as the divisor and has the same top digit
  ghost predicate SameTop(rem: MpInt, b: MpInt)
    requires rem.Shape() && b.Shape()
    reads rem, rem.dp, b, b.dp
  {
    rem.used == b.used > 1 && rem.dp[rem.used - 1] == b.dp[b.used - 1]
  }

  // the guess of s_mw_mp_div: at most 2 too large, but for equal tops, where it is as large
  // as it can be and the digit is 1
  method Guess(rem: MpInt, b: MpInt) returns (q: Word)
    requires rem.Trimmed() && Normalised(b) && 0 < b.Mag() <= rem.Mag() < RADIX * b.Mag()
    ensures rem.Mag() / b.Mag() <= q < RADIX
    ensures q <= rem.Mag() / b.Mag() + 2 <==> !SameTop(rem, b)
    ensures SameTop(rem, b) ==> q == RADIX - 1 && rem.Mag() / b.Mag() == 1
  {
    ghost var r, d, m, n := rem.dp[..], b.dp[..], rem.used, b.used;
    PartialSize(r, m, d, n);
    q := rem.dp[rem.used - 1];
    var top := b.dp[b.used - 1];
    if q <= top && rem.used > 1 {
      q := q * RADIX + rem.dp[rem.used - 2];
    }
    ghost var x := q;
    q := q / top;
    if q >= RADIX {
      q := RADIX - 1;
    }
    if m == n > 1 && r[n - 1] == d[n - 1] {
      DivAtLeast(x, top, RADIX);
      EqualTops(r, d, n);
    } else {
      assert x == Leading(r, m, n);
      GuessBounds(r, m, d, n);
    }
  }

  lemma DivAtLeast(x: nat, d: nat, k: nat)
    requires d > 0 && k * d <= x
    ensures x / d >= k
  {
    var q := DivMod(x, d);
    if q < k { MulLe(q + 1, k, d); Distribute(q, 1, d); }
  }

  // with equal tops the digit is 1
  lemma EqualTops(r: seq<Digit>, b: seq<Digit>, n: nat)
    requires 1 <= n <= |r| && n <= |b| && ZeroFrom(r, n) && ZeroFrom(b, n)
    requires r[n - 1] == b[n - 1] >= 0x8000 && 0 < Val(b) <= Val(r)
    ensures Val(r) / Val(b) == 1
  {
    VZero(r, n, |r|);
    VZero(b, n, |b|);
    VTop(r, n);
    VTop(b, n);
    ScaleAdd(b[n - 1], 1, n - 1);
    ScaleMono(1, b[n - 1], n - 1);
    OnceIn(Val(r), Val(b), Scale(b[n - 1], n - 1), Scale(1, n - 1));
  }

  lemma OnceIn(r: nat, b: nat, s: int, p: int)
    requires 0 < b <= r < s + p && p <= s <= b
    ensures r / b == 1
  {
    DivUnique(r, b, 1, r - b);
  }
}
