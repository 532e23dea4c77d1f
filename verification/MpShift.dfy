/**
  The shift helpers of src/mpi/mpi.c. A shift by whole digits moves the digits in
  place; a shift by bits carries the bits that cross a digit boundary.
 */
module MpShift {
  import opened Radix
  import opened MpInts

  // ---- loops over the digit buffer ----

  method MoveUp(dp: array<Digit>, n: nat, p: nat)
    requires n + p <= dp.Length
    modifies dp
    ensures forall i :: 0 <= i < n ==> dp[i + p] == old(dp[i])
    ensures forall i :: n + p <= i < dp.Length ==> dp[i] == old(dp[i])
  {
    ghost var s := dp[..];
    var ix := n - 1;
    while ix >= 0
      invariant -1 <= ix < n
      invariant forall i :: 0 <= i <= ix ==> dp[i] == s[i]
      invariant forall i :: ix < i < n ==> dp[i + p] == s[i]
      invariant forall i :: n + p <= i < dp.Length ==> dp[i] == s[i]
    {
      dp[ix + p] := dp[ix];
      ix := ix - 1;
    }
  }

  method MoveDown(dp: array<Digit>, n: nat, p: nat)
    requires p <= n <= dp.Length
    modifies dp
    ensures forall i :: 0 <= i < n - p ==> dp[i] == old(dp[i + p])
    ensures forall i :: n - p <= i < dp.Length ==> dp[i] == old(dp[i])
  {
    var ix := p;
    while ix < n
      invariant p <= ix <= n
      invariant forall i :: 0 <= i < ix - p ==> dp[i] == old(dp[i + p])
      invariant forall i :: ix - p <= i < dp.Length ==> dp[i] == old(dp[i])
    {
      dp[ix - p] := dp[ix];
      ix := ix + 1;
    }
  }

  method Clear(dp: array<Digit>, lo: nat, hi: nat)
    requires lo <= hi <= dp.Length
    modifies dp
    ensures forall i :: lo <= i < hi ==> dp[i] == 0
    ensures forall i :: (0 <= i < lo || hi <= i < dp.Length) ==> dp[i] == old(dp[i])
  {
    var ix := lo;
    while ix < hi
      invariant lo <= ix <= hi
      invariant forall i :: lo <= i < ix ==> dp[i] == 0
      invariant forall i :: (0 <= i < lo || ix <= i < dp.Length) ==> dp[i] == old(dp[i])
    {
      dp[ix] := 0;
      ix := ix + 1;
    }
  }

  // Bits leave at the bottom of each digit and enter the top of the one below it.
  method BitsDown(dp: array<Digit>, n: nat, lo: int, hi: int) returns (save: int)
    requires n <= dp.Length && lo > 0 && hi > 0 && lo * hi == RADIX
    modifies dp
    ensures V(dp[..], n) * lo + save == old(V(dp[..], n)) && 0 <= save < lo
    ensures forall i :: n <= i < dp.Length ==> dp[i] == old(dp[i])
  {
    ghost var s := dp[..];
    save := 0;
    var ix := n - 1;
    while ix >= 0
      invariant -1 <= ix < n && 0 <= save < lo
      invariant SameBelow(dp[..], s, ix + 1)
      invariant SameFrom(dp[..], s, n)
      invariant BitsDownTo(s, dp[..], ix + 1, n, lo, save)
    {
      ghost var t := dp[..];
      var next := dp[ix] % lo;
      var moved := ShiftIn(dp[ix], lo, hi, save);
      dp[ix] := moved;
      ShiftInStep(s, t, dp[..], ix, n, lo, hi, save);
      save := next;
      ix := ix - 1;
    }
  }

  ghost predicate SameBelow(s: seq<Digit>, t: seq<Digit>, n: nat) {
    n <= |s| == |t| && forall i :: 0 <= i < n ==> s[i] == t[i]
  }

  ghost predicate BitsDownTo(s: seq<Digit>, t: seq<Digit>, ix: nat, n: nat, lo: int, save: int) {
    ix <= n <= |s| == |t|
    && (V(t, n) - V(t, ix)) * lo + Scale(save, ix) == V(s, n) - V(s, ix)
  }

  // Bits leave at the top of each digit and enter the bottom of the one above it.
  method BitsUp(dp: array<Digit>, n: nat, lo: int, hi: int) returns (save: int)
    requires 0 < n <= dp.Length && lo > 0 && hi > 0 && lo * hi == RADIX
    modifies dp
    ensures V(dp[..], n) + Scale(save, n) == old(V(dp[..], n)) * lo
    ensures 0 <= save < lo && save == (old(dp[n - 1]) / hi) % lo
    ensures save == 0 && old(dp[n - 1]) > 0 ==> dp[n - 1] > 0
    ensures forall i :: n <= i < dp.Length ==> dp[i] == old(dp[i])
  {
    ghost var s := dp[..];
    save := 0;
    var ix := 0;
    while ix < n
      invariant 0 <= ix <= n && 0 <= save < lo
      invariant ix > 0 ==> save == (s[ix - 1] / hi) % lo
      invariant ix > 0 && save == 0 && s[ix - 1] > 0 ==> dp[ix - 1] > 0
      invariant SameFrom(dp[..], s, ix)
      invariant V(dp[..], ix) + Scale(save, ix) == V(s, ix) * lo
    {
      ghost var t := dp[..];
      var next := (dp[ix] / hi) % lo;
      var moved := ShiftOut(dp[ix], lo, hi, save);
      dp[ix] := moved;
      ShiftOutStep(s, t, dp[..], ix, lo, hi, save);
      save := next;
      ix := ix + 1;
    }
  }

  // (dp[ix] >> d) | (save << (DIGIT_BIT - d)), whose two parts share no bit
  function ShiftIn(x: Digit, lo: int, hi: int, save: int): Digit
    requires lo > 0 && hi > 0 && lo * hi == RADIX && 0 <= save < lo
  {
    ShiftInFits(x, lo, hi, save);
    x / lo + save * hi
  }

  // (dp[ix] << d) | save, whose two parts share no bit
  function ShiftOut(x: Digit, lo: int, hi: int, save: int): Digit
    requires lo > 0 && hi > 0 && lo * hi == RADIX && 0 <= save < lo
  {
    BitStep(x, lo, hi);
    (x * lo) % RADIX + save
  }

  lemma ShiftInFits(x: Digit, lo: int, hi: int, save: int)
    requires lo > 0 && hi > 0 && lo * hi == RADIX && 0 <= save < lo
    ensures 0 <= x / lo + save * hi < RADIX
  {
    DigitBelow(x, lo, hi);
    MulLe(save, lo - 1, hi);
    MulPos(save, hi);
    Distribute(lo, -1, hi);
  }

  lemma DigitBelow(x: Digit, lo: int, hi: int)
    requires lo > 0 && hi > 0 && lo * hi == RADIX
    ensures 0 <= x / lo < hi && 0 <= x % lo < lo
  {
    assert x == lo * (x / lo) + x % lo;
    if x / lo >= hi { MulLe(hi, x / lo, lo); }
  }

  // shifting a digit left drops its high bits, which are the next carry
  lemma BitStep(x: Digit, lo: int, hi: int)
    requires lo > 0 && hi > 0 && lo * hi == RADIX
    ensures 0 <= (x * lo) % RADIX <= RADIX - lo
    ensures (x * lo) % RADIX + RADIX * (x / hi) == x * lo
  {
    var q, r := x / hi, x % hi;
    assert x == q * hi + r;
    assert x * lo == q * RADIX + r * lo by { MulAssoc(q, hi, lo); Distribute(q * hi, r, lo); }
    MulLe(r, hi - 1, lo);
    MulPos(r, lo);
    Distribute(hi, -1, lo);
    DivUnique(x * lo, RADIX, q, r * lo);
  }

  lemma ShiftInStep(s: seq<Digit>, t: seq<Digit>, u: seq<Digit>, ix: nat, n: nat, lo: int, hi: int, save: int)
    requires lo > 0 && hi > 0 && lo * hi == RADIX && 0 <= save < lo
    requires ix < n && BitsDownTo(s, t, ix + 1, n, lo, save)
    requires u == t[ix := ShiftIn(s[ix], lo, hi, save)]
    ensures 0 <= s[ix] % lo < lo && BitsDownTo(s, u, ix, n, lo, s[ix] % lo)
  {
    VDiff(t, u, ix + 1, n);
    ShiftInDigit(s[ix], u[ix], ix, lo, hi, save);
    Distribute(V(u, n) - V(u, ix + 1), Scale(u[ix], ix), lo);
  }

  lemma ShiftInDigit(x: nat, y: nat, ix: nat, lo: int, hi: int, save: int)
    requires lo > 0 && hi > 0 && lo * hi == RADIX && y == x / lo + save * hi
    ensures Scale(y, ix) * lo + Scale(x % lo, ix) == Scale(x, ix) + Scale(save, ix + 1)
  {
    var z, r := lo * y, x % lo;
    assert z + r == x + RADIX * save by {
      var q := x / lo;
      assert x == lo * q + r;
      MulSwap(lo, save, hi);
      Distribute(q, save * hi, lo);
    }
    ScaleMul(lo, y, z, ix);
    ScaleAdd(z, r, ix);
    ScaleAdd(x, RADIX * save, ix);
    ScaleUp(save, ix);
  }

  lemma ShiftOutStep(s: seq<Digit>, t: seq<Digit>, u: seq<Digit>, ix: nat, lo: int, hi: int, save: int)
    requires lo > 0 && hi > 0 && lo * hi == RADIX && 0 <= save < lo
    requires ix < |s| && ix < |t|
    requires u == t[ix := ShiftOut(s[ix], lo, hi, save)]
    requires V(t, ix) + Scale(save, ix) == V(s, ix) * lo
    ensures 0 <= s[ix] / hi < lo && (s[ix] / hi) % lo == s[ix] / hi
    ensures V(u, ix + 1) + Scale(s[ix] / hi, ix + 1) == V(s, ix + 1) * lo
    ensures s[ix] > 0 && s[ix] / hi == 0 ==> u[ix] > 0
  {
    VEq(t, u, ix);
    ShiftOutDigit(s[ix], u[ix], s[ix] / hi, ix, lo, hi, save);
    Distribute(V(s, ix), Scale(s[ix], ix), lo);
  }

  lemma ShiftOutDigit(x: Digit, y: nat, q: nat, ix: nat, lo: int, hi: int, save: int)
    requires lo > 0 && hi > 0 && lo * hi == RADIX && 0 <= save
    requires y == (x * lo) % RADIX + save && q == x / hi
    ensures 0 <= q < lo && q % lo == q
    ensures Scale(y, ix) + Scale(q, ix + 1) == Scale(x, ix) * lo + Scale(save, ix)
    ensures x > 0 && q == 0 ==> y > 0
  {
    DigitBelow(x, hi, lo);
    DivUnique(q, lo, 0, q);
    BitStep(x, lo, hi);
    MulLe(0, lo - 1, x);
    Distribute(lo, -1, x);
    ScaleShifted(x, x * lo, y, q, ix, lo, save);
  }

  lemma ScaleShifted(x: int, z: int, y: int, q: int, ix: nat, lo: int, save: int)
    requires z == x * lo && y - save + RADIX * q == z
    ensures Scale(y, ix) + Scale(q, ix + 1) == Scale(x, ix) * lo + Scale(save, ix)
  {
    ScaleCarried(z, y, q, ix, save);
    ScaleMul(lo, x, z, ix);
  }

  lemma ScaleCarried(z: int, y: int, q: int, ix: nat, save: int)
    requires y - save + RADIX * q == z
    ensures Scale(y, ix) + Scale(q, ix + 1) == Scale(z, ix) + Scale(save, ix)
  {
    ScaleAdd(y - save, save, ix);
    ScaleAdd(y - save, RADIX * q, ix);
    ScaleUp(q, ix);
  }

  // ---- whole digits ----

  // s_mw_mp_lshd
  method Lshd(mp: MpInt, p: nat)
    requires mp.Shape()
    modifies mp`used, mp`dp, mp.dp
    ensures mp.Shape() && mp.Mag() == Scale(old(mp.Mag()), p)
    ensures mp.used == old(mp.used) + p
    ensures mp.dp == old(mp.dp) || fresh(mp.dp)
    ensures p > 0 ==> mp.dp[0] == 0
  {
    ghost var s, n := mp.dp[..], mp.used;
    if p == 0 {
      return;
    }
    Pad(mp, mp.used + p);
    MoveUp(mp.dp, mp.used - p, p);
    Clear(mp.dp, 0, p);
    MovedUp(s, mp.dp[..], n, p);
  }

  lemma MovedUp(s: seq<Digit>, t: seq<Digit>, n: nat, p: nat)
    requires n <= |s| && ZeroFrom(s, n) && n + p <= |t|
    requires forall i :: 0 <= i < n ==> t[p + i] == s[i]
    requires forall i :: 0 <= i < p ==> t[i] == 0
    requires ZeroFrom(t, n + p)
    ensures Val(t) == Scale(Val(s), p)
  {
    VSplit(t, s, p, n);
    VZero(t, 0, p);
    VZero(t, n + p, |t|);
    VZero(s, n, |s|);
  }

  // s_mw_mp_rshd
  method Rshd(mp: MpInt, p: nat)
    requires mp.Trimmed()
    modifies mp`used, mp`sign, mp.dp
    ensures mp.Trimmed() && mp.Mag() == old(mp.Mag()) / Pow(p)
    ensures mp.sign == (old(mp.sign) && (p == 0 || mp.Mag() > 0))
  {
    ghost var s, n := mp.dp[..], mp.used;
    if p == 0 {
      return;
    }
    if p >= mp.used {
      MagBounds(s, n);
      PowMono(n, p);
      DivUnique(Val(s), Pow(p), 0, Val(s));
      Clear(mp.dp, 0, mp.dp.Length);
      VZero(mp.dp[..], 0, mp.dp.Length);
      mp.used := 1;
      mp.sign := false;
      return;
    }
    MoveDown(mp.dp, mp.used, p);
    Clear(mp.dp, mp.used - p, mp.used);
    MovedDown(s, mp.dp[..], n, p);
    Clamp(mp);
  }

  lemma MovedDown(s: seq<Digit>, t: seq<Digit>, n: nat, p: nat)
    requires p <= n <= |s| == |t| && ZeroFrom(s, n)
    requires forall i :: 0 <= i < n - p ==> t[i] == s[p + i]
    requires ZeroFrom(t, n - p)
    ensures Val(t) == Val(s) / Pow(p)
  {
    VBound(s, p);
    DownParts(s, t, n, p);
    ScaledQuotient(Val(s), p, Val(t), V(s, p));
  }

  lemma DownParts(s: seq<Digit>, t: seq<Digit>, n: nat, p: nat)
    requires p <= n <= |s| == |t| && ZeroFrom(s, n)
    requires forall i :: 0 <= i < n - p ==> t[i] == s[p + i]
    requires ZeroFrom(t, n - p)
    ensures Val(s) == V(s, p) + Scale(Val(t), p)
  {
    VZero(s, n, |s|);
    VSplit(s, t, p, n - p);
    VZero(t, n - p, |t|);
  }

  lemma ScaledQuotient(x: nat, p: nat, q: nat, r: nat)
    requires x == r + Scale(q, p) && r < Pow(p)
    ensures x / Pow(p) == q
  {
    ScalePow(q, p);
    DivUnique(x, Pow(p), q, r);
  }

  // ---- bits ----

  // s_mw_mp_mod_2d
  method Mod2d(mp: MpInt, d: Digit)
    requires mp.Trimmed()
    modifies mp`used, mp`sign, mp.dp
    ensures mp.Trimmed() && mp.Mag() == old(mp.Mag()) % Two(d)
    ensures mp.sign ==> old(mp.sign)
    ensures mp.Mag() > 0 ==> mp.sign == old(mp.sign)
    ensures old(mp.Valid()) ==> mp.Valid()
  {
    ghost var s, n := mp.dp[..], mp.used;
    var ndig, nbit := d / DIGIT_BIT, d % DIGIT_BIT;
    if ndig >= mp.used {
      BitsCover(s, n, d);
      return;
    }
    var low := mp.dp[ndig] % Two(nbit);
    MaskFits(mp.dp[ndig], nbit);
    mp.dp[ndig] := low;
    Clear(mp.dp, ndig + 1, mp.used);
    Masked(s, mp.dp[..], ndig, n, nbit);
    Clamp(mp);
  }

  lemma MaskFits(x: Digit, bit: nat)
    ensures 0 <= x % Two(bit) <= x
  {
    RemainderFits(x, Two(bit));
  }

  lemma RemainderFits(x: nat, d: nat)
    requires d > 0
    ensures 0 <= x % d <= x
  {
    var q := DivMod(x, d);
    MulPos(d, q);
  }

  lemma BitsCover(s: seq<Digit>, n: nat, d: nat)
    requires 1 <= n <= |s| && ZeroFrom(s, n) && d / DIGIT_BIT >= n
    ensures Val(s) % Two(d) == Val(s)
  {
    VZero(s, n, |s|);
    VBound(s, n);
    PowIsTwo(n);
    TwoMono(16 * n, d);
    DivUnique(Val(s), Two(d), 0, Val(s));
  }

  lemma Masked(s: seq<Digit>, t: seq<Digit>, k: nat, n: nat, bit: nat)
    requires k < n <= |s| == |t| && ZeroFrom(s, n) && bit < 16
    requires SameBelow(s, t, k) && t[k] == s[k] % Two(bit) && ZeroFrom(t, k + 1)
    ensures Val(t) == Val(s) % Two(16 * k + bit)
  {
    VEq(s, t, k);
    VZero(t, k + 1, |t|);
    SplitBits(s, k, n, bit, t[k]);
  }

  // what a digit string leaves below the bit number 16 * k + bit
  lemma SplitBits(s: seq<Digit>, k: nat, n: nat, bit: nat, r: nat)
    requires k < n <= |s| && ZeroFrom(s, n) && bit < 16 && r == s[k] % Two(bit)
    ensures Val(s) % Two(16 * k + bit) == V(s, k) + Scale(r, k)
  {
    VBound(s, k);
    var h := HighPart(s, k, n);
    SplitScaled(Val(s), V(s, k), s[k], h, k, bit, r);
  }

  lemma HighPart(s: seq<Digit>, k: nat, n: nat) returns (h: nat)
    requires k < n <= |s| && ZeroFrom(s, n)
    ensures Val(s) == V(s, k) + Scale(s[k], k) + Scale(h, k + 1)
  {
    VZero(s, n, |s|);
    var t := s[k + 1..];
    VSplit(s, t, k + 1, n - k - 1);
    h := V(t, n - k - 1);
  }

  lemma SplitScaled(x: nat, v: nat, d: nat, h: nat, k: nat, bit: nat, r: nat)
    requires v < Pow(k) && bit < 16 && r == d % Two(bit)
    requires x == v + Scale(d, k) + Scale(h, k + 1)
    ensures x % Two(16 * k + bit) == v + Scale(r, k)
  {
    var q := DivMod(d, Two(bit));
    PowIsTwo(k);
    TwoAdd(16 * k, bit);
    BitFactors(bit);
    ScalePow(d, k);
    ScalePow(h, k + 1);
    ScalePow(r, k);
    SplitProduct(x, v, d, h, q, r, Pow(k), Pow(k + 1), Two(bit), Two(16 - bit), Two(16 * k + bit));
  }

  lemma SplitProduct(x: nat, v: nat, d: nat, h: nat, q: nat, r: nat, p: nat, pp: nat, m: nat, e: nat, w: nat)
    requires v < p && m > 0 && m * e == RADIX && pp == RADIX * p && w == p * m
    requires d == m * q + r && r < m && x == v + d * p + h * pp
    ensures w > 0 && x % w == v + r * p
  {
    SplitDigit(d, q, r, p, m, w);
    SplitHigh(h, e, p, m, pp, w);
    Distribute(q, h * e, w);
    SplitLow(v, r, p, m, w);
    DivUnique(x, w, q + h * e, v + r * p);
  }

  lemma SplitDigit(d: nat, q: nat, r: nat, p: nat, m: nat, w: nat)
    requires d == m * q + r && w == p * m
    ensures d * p == q * w + r * p
  {
    Distribute(m * q, r, p);
    assert (m * q) * p == q * (p * m);
  }

  lemma SplitHigh(h: nat, e: nat, p: nat, m: nat, pp: nat, w: nat)
    requires m * e == RADIX && pp == RADIX * p && w == p * m
    ensures h * pp == (h * e) * w
  {
    assert h * ((m * e) * p) == (h * e) * (p * m);
  }

  lemma SplitLow(v: nat, r: nat, p: nat, m: nat, w: nat)
    requires v < p && r < m && w == p * m
    ensures 0 <= v + r * p < w && w > 0
  {
    MulLe(r, m - 1, p);
    Distribute(m, -1, p);
    MulPos(r, p);
  }

  // s_mw_mp_div_2d
  method Div2d(mp: MpInt, d: Digit)
    requires mp.Trimmed()
    modifies mp`used, mp`sign, mp.dp
    ensures mp.Trimmed() && mp.Mag() == old(mp.Mag()) / Two(d)
    ensures mp.sign == (old(mp.sign) && mp.Mag() > 0)
  {
    ghost var m0 := mp.Mag();
    Rshd(mp, d / DIGIT_BIT);
    var bit := d % DIGIT_BIT;
    ghost var s, n := mp.dp[..], mp.used;
    BitFactors(bit);
    var save := BitsDown(mp.dp, mp.used, Two(bit), Two(DIGIT_BIT - bit));
    ShiftedDown(s, mp.dp[..], n, m0, d, save);
    Clamp(mp);
  }

  lemma BitFactors(bit: nat)
    requires bit < 16
    ensures Two(bit) * Two(16 - bit) == RADIX
  {
    TwoAdd(bit, 16 - bit);
    TwoSixteen();
  }

  lemma ShiftedDown(s: seq<Digit>, t: seq<Digit>, n: nat, m0: nat, d: nat, save: int)
    requires n <= |s| == |t| && ZeroFrom(s, n) && ZeroFrom(t, n)
    requires Val(s) == m0 / Pow(d / 16)
    requires V(t, n) * Two(d % 16) + save == V(s, n) && 0 <= save < Two(d % 16)
    ensures Val(t) == m0 / Two(d)
    ensures Val(t) > 0 ==> Val(s) > 0
  {
    VZero(s, n, |s|);
    VZero(t, n, |t|);
    var lo := Two(d % 16);
    DivUnique(Val(s), lo, Val(t), save);
    PowIsTwo(d / 16);
    TwoAdd(16 * (d / 16), d % 16);
    DivDiv(m0, Pow(d / 16), lo, Two(d));
    if Val(t) > 0 { MulLe(1, Val(t), lo); }
  }

  lemma DivDiv(x: nat, a: nat, b: nat, ab: nat)
    requires a > 0 && b > 0 && ab == a * b
    ensures ab > 0 && x / a / b == x / ab
  {
    var q, r := x / a, x % a;
    var q2, r2 := q / b, q % b;
    assert x == q * a + r && q == q2 * b + r2;
    assert q * a == q2 * ab + r2 * a by { Distribute(q2 * b, r2, a); assert (q2 * b) * a == q2 * (a * b); }
    MulLe(r2, b - 1, a);
    MulPos(r2, a);
    Distribute(b, -1, a);
    DivUnique(x, ab, q2, r2 * a + r);
  }

  // s_mw_mp_div_2
  method Div2(mp: MpInt)
    requires mp.Trimmed()
    modifies mp`used, mp`sign, mp.dp
    ensures mp.Valid() && mp.Mag() == old(mp.Mag()) / 2
    ensures mp.sign == (old(mp.sign) && mp.Mag() > 0)
    ensures old(mp.Value()) % 2 == 0 ==> 2 * mp.Value() == old(mp.Value())
  {
    assert Two(1) == 2;
    Div2d(mp, 1);
  }

  // s_mw_mp_mul_2d
  method Mul2d(mp: MpInt, d: Digit)
    requires mp.Trimmed()
    modifies mp, mp.dp
    ensures mp.Trimmed() && mp.Mag() == old(mp.Mag()) * Two(d)
    ensures mp.sign == (old(mp.sign) && mp.Mag() > 0)
    ensures mp.dp == old(mp.dp) || fresh(mp.dp)
  {
    ghost var m0 := mp.Mag();
    Lshd(mp, d / DIGIT_BIT);
    ShiftLeft(mp, d % DIGIT_BIT);
    Clamp(mp);
    TwoSplit(m0, d);
  }

  // the bit shift of s_mw_mp_mul_2d, before it clamps
  method ShiftLeft(mp: MpInt, bit: nat)
    requires mp.Shape() && bit < 16
    modifies mp`used, mp`dp, mp.dp
    ensures mp.Shape() && mp.Mag() == old(mp.Mag()) * Two(bit)
    ensures mp.dp == old(mp.dp) || fresh(mp.dp)
  {
    var used := mp.used;
    BitFactors(bit);
    var lo, hi := Two(bit), Two(DIGIT_BIT - bit);
    var carries := (mp.dp[used - 1] / hi) % lo != 0;
    if carries {
      Grow(mp, used + 1);
    }
    ghost var s := mp.dp[..];
    var save := BitsUp(mp.dp, used, lo, hi);
    ghost var t := mp.dp[..];
    VZero(s, used, |s|);
    VZero(t, used, |t|);
    if save != 0 {
      MulLe(1, hi, lo);
      mp.dp[used] := save;
      mp.used := mp.used + 1;
      NewTop(t, mp.dp[..], used);
    }
  }

  lemma TwoSplit(m: nat, d: nat)
    ensures Scale(m, d / 16) * Two(d % 16) == m * Two(d)
  {
    PowIsTwo(d / 16);
    TwoAdd(16 * (d / 16), d % 16);
    ScalePow(m, d / 16);
    MulAssoc(m, Pow(d / 16), Two(d % 16));
  }

  // the last carry becomes a new top digit
  lemma NewTop(t: seq<Digit>, u: seq<Digit>, n: nat)
    requires n < |t| == |u| && ZeroFrom(t, n) && u == t[n := u[n]]
    ensures ZeroFrom(u, n + 1) && Val(u) == V(t, n) + Scale(u[n], n)
    ensures Val(t) == V(t, n)
  {
    VEq(t, u, n);
    VZero(u, n + 1, |u|);
    VZero(t, n, |t|);
  }

  // s_mw_mp_mul_2
  method Mul2(mp: MpInt)
    requires mp.Trimmed()
    modifies mp`used, mp`dp, mp.dp
    ensures mp.Trimmed() && mp.Mag() == 2 * old(mp.Mag())
    ensures mp.dp == old(mp.dp) || fresh(mp.dp)
    ensures old(mp.Valid()) ==> mp.Valid() && mp.Value() == 2 * old(mp.Value())
  {
    ghost var s, n := mp.dp[..], mp.used;
    var kin := BitsUp(mp.dp, mp.used, 2, 0x8000);
    VZero(s, n, |s|);
    VZero(mp.dp[..], n, |s|);
    if kin != 0 {
      PutTop(mp, kin);
    }
  }

  // a carry out of the top digit becomes a new top digit
  method PutTop(mp: MpInt, w: Digit)
    requires mp.Shape() && w > 0
    modifies mp`used, mp`dp, mp.dp
    ensures mp.Trimmed() && mp.Mag() == old(mp.Mag()) + Scale(w, old(mp.used))
    ensures mp.dp == old(mp.dp) || fresh(mp.dp)
  {
    var ix := mp.used;
    Pad(mp, mp.used + 1);
    ghost var p := mp.dp[..];
    mp.dp[ix] := w;
    NewTop(p, mp.dp[..], ix);
  }

  // s_mw_mp_2expt
  method TwoExpt(a: MpInt, k: Digit)
    requires a.dp.Length > 0
    modifies a, a.dp
    ensures a.Valid() && !a.sign && a.Mag() == Two(k)
    ensures a.dp == old(a.dp) || fresh(a.dp)
  {
    var dig, bit := k / DIGIT_BIT, k % DIGIT_BIT;
    Zero(a);
    Pad(a, dig + 1);
    ghost var z := a.dp[..];
    AllZero(z, |z|);
    OneBit(k);
    a.dp[dig] := a.dp[dig] + Two(bit);
    VZero(z, 0, dig);
    NewTop(z, a.dp[..], dig);
  }

  lemma OneBit(k: nat)
    ensures Two(k % 16) < RADIX && Scale(Two(k % 16), k / 16) == Two(k)
  {
    TwoMono(k % 16, 16);
    TwoSixteen();
    PowIsTwo(k / 16);
    TwoAdd(16 * (k / 16), k % 16);
    ScalePow(Two(k % 16), k / 16);
  }

  lemma {:induction false} AllZero(s: seq<Digit>, n: nat)
    requires n <= |s| && V(s, n) == 0
    ensures forall i :: 0 <= i < n ==> s[i] == 0
  {
    if n > 0 {
      AllZero(s, n - 1);
    }
  }
}
