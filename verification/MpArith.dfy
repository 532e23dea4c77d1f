/**
  Addition and subtraction of magnitudes in src/mpi/mpi.c, digit by digit and by one
  digit.
 */
module MpArith {
  import opened Radix
  import opened MpInts
  import opened MpShift

  // ---- digit loops ----

  // The first loop of s_mw_mp_add. pa and pb may be the same buffer.
  method AddDigits(pa: array<Digit>, pb: array<Digit>, n: nat) returns (w: Word)
    requires n <= pa.Length && n <= pb.Length
    modifies pa
    ensures w <= 1
    ensures V(pa[..], n) + Scale(w, n) == old(V(pa[..], n)) + old(V(pb[..], n))
    ensures forall i :: n <= i < pa.Length ==> pa[i] == old(pa[i])
  {
    ghost var s, t := pa[..], pb[..];
    w := 0;
    var ix := 0;
    while ix < n
      invariant 0 <= ix <= n && w <= 1
      invariant SameFrom(pa[..], s, ix) && SameFrom(pb[..], t, ix)
      invariant Summed(pa[..], w, s, t, ix)
    {
      ghost var u, w0 := pa[..], w;
      w := w + (pa[ix] as int + pb[ix]);
      pa[ix] := w % RADIX;
      SumStep(u, pa[..], ix, w, w0, s, t);
      w := w / RADIX;
      ix := ix + 1;
    }
  }

  // The second loop of s_mw_mp_add: a carry runs up until it is absorbed.
  method CarryDigits(pa: array<Digit>, lo: nat, n: nat, w0: Word) returns (w: Word, ix: nat)
    requires lo <= n <= pa.Length && w0 <= 1
    modifies pa
    ensures lo <= ix <= n && w <= 1 && (w == 0 || ix == n)
    ensures V(pa[..], ix) + Scale(w, ix) == old(V(pa[..], ix)) + Scale(w0, lo)
    ensures forall i :: ix <= i < pa.Length ==> pa[i] == old(pa[i])
  {
    ghost var s := pa[..];
    w, ix := w0, lo;
    while w != 0 && ix < n
      invariant lo <= ix <= n && w <= 1
      invariant SameFrom(pa[..], s, ix)
      invariant V(pa[..], ix) + Scale(w, ix) == V(s, ix) + Scale(w0, lo)
    {
      ghost var u := pa[..];
      ScaleAdd(w, pa[ix], ix);
      w := w + pa[ix];
      pa[ix] := w % RADIX;
      CarryStep(u, pa[..], ix, w);
      w := w / RADIX;
      ix := ix + 1;
    }
  }

  // storing the low digit of w at ix and keeping the rest as a carry
  lemma CarryStep(u: seq<Digit>, v: seq<Digit>, ix: nat, w: int)
    requires ix < |u| == |v| && v == u[ix := v[ix]] && v[ix] == w % RADIX
    ensures V(v, ix + 1) + Scale(w / RADIX, ix + 1) == V(u, ix) + Scale(w, ix)
  {
    VEq(u, v, ix);
    Carry(w, ix);
  }

  // the sum of the first n digits of s and t, with the carry w
  ghost predicate Summed(u: seq<Digit>, w: int, s: seq<Digit>, t: seq<Digit>, n: nat)
    requires n <= |u| && n <= |s| && n <= |t|
  {
    V(u, n) + Scale(w, n) == V(s, n) + V(t, n)
  }

  lemma SumStep(u: seq<Digit>, v: seq<Digit>, ix: nat, w: int, w0: int, s: seq<Digit>, t: seq<Digit>)
    requires ix < |u| == |v| && ix < |s| && ix < |t| && Summed(u, w0, s, t, ix)
    requires v == u[ix := v[ix]] && v[ix] == w % RADIX && w == w0 + (s[ix] as int + t[ix])
    ensures Summed(v, w / RADIX, s, t, ix + 1)
  {
    AddStep(u, v, ix, w, w0, s[ix], t[ix]);
  }

  lemma AddStep(u: seq<Digit>, v: seq<Digit>, ix: nat, w: int, w0: int, x: int, y: int)
    requires ix < |u| == |v| && v == u[ix := v[ix]] && v[ix] == w % RADIX && w == w0 + (x + y)
    ensures V(v, ix + 1) + Scale(w / RADIX, ix + 1) == V(u, ix) + Scale(w0, ix) + Scale(x, ix) + Scale(y, ix)
  {
    CarryStep(u, v, ix, w);
    ScaleAdd(w0, x + y, ix);
    ScaleAdd(x, y, ix);
  }

  // The first loop of s_mw_mp_sub.
  method SubDigits(pa: array<Digit>, pb: array<Digit>, n: nat) returns (w: Word)
    requires n <= pa.Length && n <= pb.Length
    modifies pa
    ensures w <= 1
    ensures V(pa[..], n) - Scale(w, n) == old(V(pa[..], n)) - old(V(pb[..], n))
    ensures forall i :: n <= i < pa.Length ==> pa[i] == old(pa[i])
  {
    ghost var s, t := pa[..], pb[..];
    w := 0;
    var ix := 0;
    while ix < n
      invariant 0 <= ix <= n && w <= 1
      invariant SameFrom(pa[..], s, ix) && SameFrom(pb[..], t, ix)
      invariant V(pa[..], ix) - Scale(w, ix) == V(s, ix) - V(t, ix)
    {
      ghost var u, w0 := pa[..], w;
      w := (RADIX + pa[ix]) - w - pb[ix];
      pa[ix] := w % RADIX;
      BorrowStep(u, pa[..], ix, w, w0, s[ix], t[ix]);
      w := if w / RADIX != 0 then 0 else 1;
      ix := ix + 1;
    }
  }

  // The second loop of s_mw_mp_sub.
  method BorrowDigits(pa: array<Digit>, lo: nat, n: nat, w0: Word) returns (w: Word)
    requires lo <= n <= pa.Length && w0 <= 1
    modifies pa
    ensures w <= 1
    ensures V(pa[..], n) - Scale(w, n) == old(V(pa[..], n)) - Scale(w0, lo)
    ensures forall i :: n <= i < pa.Length ==> pa[i] == old(pa[i])
  {
    ghost var s := pa[..];
    w := w0;
    var ix := lo;
    while ix < n
      invariant lo <= ix <= n && w <= 1
      invariant SameFrom(pa[..], s, ix)
      invariant V(pa[..], ix) - Scale(w, ix) == V(s, ix) - Scale(w0, lo)
    {
      ghost var u, b := pa[..], w;
      w := RADIX + pa[ix] - w;
      pa[ix] := w % RADIX;
      BorrowStep(u, pa[..], ix, w, b, s[ix], 0);
      w := if w / RADIX != 0 then 0 else 1;
      ix := ix + 1;
    }
  }

  // The loop of s_mw_mp_sub_d: a borrow runs up until it is absorbed.
  method BorrowRun(pa: array<Digit>, lo: nat, n: nat, w0: Word) returns (w: Word)
    requires lo <= n <= pa.Length && w0 <= 1
    modifies pa
    ensures w <= 1
    ensures V(pa[..], n) - Scale(w, n) == old(V(pa[..], n)) - Scale(w0, lo)
    ensures forall i :: n <= i < pa.Length ==> pa[i] == old(pa[i])
  {
    ghost var s := pa[..];
    w := w0;
    var ix := lo;
    while w != 0 && ix < n
      invariant lo <= ix <= n && w <= 1
      invariant SameFrom(pa[..], s, ix)
      invariant V(pa[..], ix) - Scale(w, ix) == V(s, ix) - Scale(w0, lo)
    {
      ghost var u, b := pa[..], w;
      w := (RADIX + pa[ix]) - w;
      pa[ix] := w % RADIX;
      BorrowStep(u, pa[..], ix, w, b, s[ix], 0);
      w := if w / RADIX != 0 then 0 else 1;
      ix := ix + 1;
    }
    VDiff(pa[..], s, ix, n);
  }

  lemma BorrowStep(u: seq<Digit>, v: seq<Digit>, ix: nat, w: int, w0: int, x: int, y: int)
    requires ix < |u| == |v| && v == u[ix := v[ix]] && v[ix] == w % RADIX
    requires 0 <= w < 2 * RADIX && w == RADIX + x - w0 - y
    ensures V(v, ix + 1) - Scale(if w / RADIX != 0 then 0 else 1, ix + 1)
         == V(u, ix) - Scale(w0, ix) + Scale(x, ix) - Scale(y, ix)
  {
    CarryStep(u, v, ix, w);
    assert w / RADIX == if w < RADIX then 0 else 1;
    ScaleUp(1, ix);
    ScaleAdd(RADIX, x - w0 - y, ix);
    ScaleThree(x, w0, y, ix);
  }

  lemma ScaleThree(x: int, y: int, z: int, n: nat)
    ensures Scale(x - y - z, n) == Scale(x, n) - Scale(y, n) - Scale(z, n)
  {
    ScaleSub(x - y, z, n);
    ScaleSub(x, y, n);
  }

  lemma ScaleSub(x: int, y: int, n: nat)
    ensures Scale(x - y, n) == Scale(x, n) - Scale(y, n)
  {
    ScaleAdd(x - y, y, n);
  }

  // Both loops of s_mw_mp_add, and where they stop.
  method AddInto(pa: array<Digit>, ua: nat, pb: array<Digit>, ub: nat) returns (w: Word, ix: nat)
    requires ub <= ua <= pa.Length && ub <= pb.Length
    modifies pa
    ensures w <= 1 && (w != 0 ==> ix == ua)
    ensures Val(pa[..]) + Scale(w, ua) == old(Val(pa[..])) + old(V(pb[..], ub))
    ensures forall i :: ua <= i < pa.Length ==> pa[i] == old(pa[i])
  {
    ghost var s := pa[..];
    w := AddDigits(pa, pb, ub);
    ghost var r := pa[..];
    w, ix := CarryDigits(pa, ub, ua, w);
    VDiff(r, s, ub, ix);
    VDiff(pa[..], s, ix, |s|);
  }

  // Both loops of s_mw_mp_sub.
  method SubInto(pa: array<Digit>, ua: nat, pb: array<Digit>, ub: nat) returns (w: Word)
    requires ub <= ua <= pa.Length && ub <= pb.Length
    modifies pa
    ensures w <= 1
    ensures Val(pa[..]) - Scale(w, ua) == old(Val(pa[..])) - old(V(pb[..], ub))
    ensures forall i :: ua <= i < pa.Length ==> pa[i] == old(pa[i])
  {
    ghost var s := pa[..];
    w := SubDigits(pa, pb, ub);
    ghost var r := pa[..];
    w := BorrowDigits(pa, ub, ua, w);
    VDiff(r, s, ub, ua);
    VDiff(pa[..], s, ua, |s|);
  }

  method AddDigitInto(pa: array<Digit>, ua: nat, d: Digit) returns (w: Word, ix: nat)
    requires 1 <= ua <= pa.Length
    modifies pa
    ensures w <= 1 && (w != 0 ==> ix == ua)
    ensures Val(pa[..]) + Scale(w, ua) == old(Val(pa[..])) + d
    ensures forall i :: ua <= i < pa.Length ==> pa[i] == old(pa[i])
  {
    ghost var s := pa[..];
    w := pa[0] as int + d;
    pa[0] := w % RADIX;
    CarryStep(s, pa[..], 0, w);
    ghost var r := pa[..];
    w, ix := CarryDigits(pa, 1, ua, w / RADIX);
    VDiff(r, s, 1, ix);
    VDiff(pa[..], s, ix, |s|);
  }

  method SubDigitInto(pa: array<Digit>, ua: nat, d: Digit) returns (b: Word)
    requires 1 <= ua <= pa.Length
    modifies pa
    ensures b <= 1
    ensures Val(pa[..]) - Scale(b, ua) == old(Val(pa[..])) - d
    ensures forall i :: ua <= i < pa.Length ==> pa[i] == old(pa[i])
  {
    ghost var s := pa[..];
    var w: Word := (RADIX + pa[0]) - d;
    pa[0] := w % RADIX;
    BorrowStep(s, pa[..], 0, w, 0, s[0], d);
    ghost var r := pa[..];
    b := BorrowRun(pa, 1, ua, if w / RADIX != 0 then 0 else 1);
    VDiff(r, s, 1, ua);
    VDiff(pa[..], s, ua, |s|);
  }

  // ---- magnitudes ----

  lemma TopNonzero(s: seq<Digit>, n: nat)
    requires 0 < n <= |s| && ZeroFrom(s, n) && (n > 1 ==> Val(s) >= Pow(n - 1))
    ensures n > 1 ==> s[n - 1] != 0
  {
    VZero(s, n, |s|);
    VBound(s, n - 1);
  }

  // s_mw_mp_add
  method MagAdd(a: MpInt, b: MpInt)
    requires a.Trimmed() && b.Trimmed() && Apart(a, b)
    modifies a`used, a`dp, a.dp
    ensures a.Trimmed() && a.Mag() == old(a.Mag()) + old(b.Mag())
    ensures a.dp == old(a.dp) || fresh(a.dp)
  {
    MagBounds(a.dp[..], a.used);
    MagBounds(b.dp[..], b.used);
    if b.used > a.used {
      Pad(a, b.used);
    }
    AddPadded(a, b);
  }

  // s_mw_mp_add once a has at least as many digits in use as b
  method AddPadded(a: MpInt, b: MpInt)
    requires a.Shape() && b.Trimmed() && Apart(a, b) && b.used <= a.used
    requires a.used > 1 ==> a.Mag() + b.Mag() >= Pow(a.used - 1)
    modifies a`used, a`dp, a.dp
    ensures a.Trimmed() && a.Mag() == old(a.Mag()) + old(b.Mag())
    ensures a.dp == old(a.dp) || fresh(a.dp)
  {
    VZero(b.dp[..], b.used, b.dp.Length);
    var w, ix := AddInto(a.dp, a.used, b.dp, b.used);
    if w != 0 {
      PutTop(a, w);
    } else {
      TopNonzero(a.dp[..], a.used);
    }
  }

  // s_mw_mp_sub, which assumes |a| >= |b|
  method MagSub(a: MpInt, b: MpInt) returns (res: MpErr)
    requires a.Trimmed() && b.Trimmed() && Apart(a, b) && a.Mag() >= b.Mag()
    modifies a`used, a`sign, a.dp
    ensures a.Trimmed() && a.Mag() == old(a.Mag()) - old(b.Mag()) && res == Okay
    ensures a.sign == (old(a.sign) && a.Mag() > 0)
  {
    MagBounds(b.dp[..], b.used);
    if b.used > a.used { LongerIsLarger(a.dp[..], a.used, b.dp[..], b.used); }
    var w := SubInto(a.dp, a.used, b.dp, b.used);
    NoBorrow(a.dp[..], a.used, w);
    Clamp(a);
    res := if w != 0 then Range else Okay;
  }

  lemma NoBorrow(s: seq<Digit>, n: nat, w: nat)
    requires n <= |s| && ZeroFrom(s, n) && w <= 1 && Val(s) - Scale(w, n) >= 0
    ensures w == 0
  {
    VZero(s, n, |s|);
    VBound(s, n);
    ScalePow(1, n);
  }

  // s_mw_mp_add_d
  method MagAddDigit(mp: MpInt, d: Digit)
    requires mp.Trimmed()
    modifies mp`used, mp`dp, mp.dp
    ensures mp.Trimmed() && mp.Mag() == old(mp.Mag()) + d
    ensures mp.dp == old(mp.dp) || fresh(mp.dp)
  {
    MagBounds(mp.dp[..], mp.used);
    var k, ix := AddDigitInto(mp.dp, mp.used, d);
    if k != 0 {
      PutTop(mp, k);
    } else {
      TopNonzero(mp.dp[..], mp.used);
    }
  }

  // s_mw_mp_sub_d, which assumes |mp| >= d
  method MagSubDigit(mp: MpInt, d: Digit) returns (res: MpErr)
    requires mp.Trimmed() && mp.Mag() >= d
    modifies mp`used, mp`sign, mp.dp
    ensures mp.Trimmed() && mp.Mag() == old(mp.Mag()) - d && res == Okay
    ensures mp.sign == (old(mp.sign) && mp.Mag() > 0)
  {
    var b := SubDigitInto(mp.dp, mp.used, d);
    NoBorrow(mp.dp[..], mp.used, b);
    Clamp(mp);
    res := if b != 0 then Range else Okay;
  }
}
