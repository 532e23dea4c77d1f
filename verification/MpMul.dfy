/**
  Schoolbook multiplication and the special squaring loop of src/mpi/mpi.c. The
  product of two digits fills a whole 32-bit word, so the squaring loop, which
  doubles it, keeps the bit that falls off by hand.
 */
module MpMul {
  import opened Radix
  import opened MpInts
  import opened MpShift
  import opened MpArith

  // ---- products of digits ----

  // d times one more digit of a, moved up by ix
  lemma RowTerm(a: seq<Digit>, jx: nat, d: int, z: int, ix: nat)
    requires jx < |a| && z == d * a[jx] as int
    ensures Scale(d * V(a, jx + 1), ix) == Scale(d * V(a, jx), ix) + Scale(z, ix + jx)
  {
    RowScale(d * V(a, jx), d * V(a, jx + 1), a[jx], V(a, jx), jx, d, z, ix);
  }

  lemma RowScale(e: int, e1: int, x: int, v: int, jx: nat, d: int, z: int, ix: nat)
    requires e == d * v && e1 == d * (v + Scale(x, jx)) && z == d * x
    ensures Scale(e1, ix) == Scale(e, ix) + Scale(z, ix + jx)
  {
    ScaleMul(d, x, z, jx);
    Distribute(v, Scale(x, jx), d);
    ScaleAdd(e, Scale(z, jx), ix);
    ScaleScale(z, jx, ix);
  }

  // after jx digits of one inner loop of s_mw_mp_mul
  ghost predicate RowDone(s: seq<Digit>, t: seq<Digit>, ix: nat, a: seq<Digit>, jx: nat, d: Digit, k: int) {
    ix + jx <= |s| == |t| && jx <= |a|
    && V(t, ix + jx) + Scale(k, ix + jx) == V(s, ix + jx) + Scale(d * V(a, jx), ix)
  }

  lemma RowStep(s: seq<Digit>, t: seq<Digit>, u: seq<Digit>, ix: nat, a: seq<Digit>, jx: nat, d: Digit, k: int, w: int)
    requires RowDone(s, t, ix, a, jx, d, k) && jx < |a| && ix + jx < |s| == |u|
    requires w == Times(d, a[jx]) + (k + s[ix + jx])
    requires u == t[ix + jx := u[ix + jx]] && u[ix + jx] == w % RADIX
    ensures RowDone(s, u, ix, a, jx + 1, d, w / RADIX)
  {
    var z := Times(d, a[jx]);
    AddStep(t, u, ix + jx, w, z, k, s[ix + jx]);
    RowTerm(a, jx, d, z, ix);
  }

  // one inner loop of s_mw_mp_mul
  method MulRow(pt: array<Digit>, ix: nat, pa: array<Digit>, ua: nat, d: Digit)
    requires pt != pa && ix + ua < pt.Length && ua <= pa.Length && ZeroFrom(pt[..], ix + ua)
    modifies pt
    ensures Val(pt[..]) == old(Val(pt[..])) + Scale(d * V(pa[..], ua), ix)
    ensures ZeroFrom(pt[..], ix + ua + 1)
  {
    ghost var s, a := pt[..], pa[..];
    var k: Word := 0;
    var jx := 0;
    while jx < ua
      invariant 0 <= jx <= ua && k < RADIX
      invariant SameFrom(pt[..], s, ix + jx)
      invariant RowDone(s, pt[..], ix, a, jx, d, k)
    {
      ghost var u, k0 := pt[..], k;
      var w: Word := Times(d, pa[jx]) + (k + pt[ix + jx]);
      pt[ix + jx] := w % RADIX;
      RowStep(s, u, pt[..], ix, a, jx, d, k0, w);
      k := w / RADIX;
      jx := jx + 1;
    }
    ghost var u := pt[..];
    pt[ix + jx] := k;
    NewTop(u, pt[..], ix + ua);
    VZero(s, ix + ua, |s|);
  }

  // s_mw_mp_mul, on the digits
  method MulDigits(pt: array<Digit>, pa: array<Digit>, ua: nat, pb: array<Digit>, ub: nat)
    requires pt != pa && pt != pb && ua <= pa.Length && ub <= pb.Length && pt.Length == ua + ub
    requires ua > 0 && ZeroFrom(pt[..], 0)
    modifies pt
    ensures Val(pt[..]) == V(pa[..], ua) * V(pb[..], ub)
  {
    ghost var a, b := pa[..], pb[..];
    VZero(pt[..], 0, pt.Length);
    var ix := 0;
    while ix < ub
      invariant 0 <= ix <= ub && ZeroFrom(pt[..], ua + ix)
      invariant Val(pt[..]) == V(a, ua) * V(b, ix)
    {
      RowAdds(a, ua, b, ix);
      if pb[ix] != 0 {
        MulRow(pt, ix, pa, ua, pb[ix]);
      }
      ix := ix + 1;
    }
  }

  lemma RowAdds(a: seq<Digit>, ua: nat, b: seq<Digit>, ix: nat)
    requires ua <= |a| && ix < |b|
    ensures V(a, ua) * V(b, ix + 1) == V(a, ua) * V(b, ix) + Scale(b[ix] * V(a, ua), ix)
    ensures b[ix] == 0 ==> Scale(b[ix] * V(a, ua), ix) == 0
  {
    RowSum(V(a, ua), V(b, ix), b[ix], Scale(b[ix], ix), ix);
  }

  lemma RowSum(v: int, y: int, d: int, x: int, ix: nat)
    requires x == Scale(d, ix)
    ensures v * (y + x) == v * y + Scale(d * v, ix)
    ensures d == 0 ==> d * v == 0
  {
    Distribute(y, x, v);
    ScaleMul(v, d, d * v, ix);
  }

  // s_mw_mp_mul
  method MagMul(a: MpInt, b: MpInt)
    requires a.Trimmed() && b.Trimmed() && Apart(a, b)
    modifies a
    ensures a.Valid() && a.Mag() == old(a.Mag()) * old(b.Mag()) && !a.sign && fresh(a.dp)
  {
    var ua, ub := a.used, b.used;
    var tmp := new MpInt.Size(ua + ub);
    tmp.used := ua + ub;
    VZero(a.dp[..], ua, a.dp.Length);
    VZero(b.dp[..], ub, b.dp.Length);
    MulDigits(tmp.dp, a.dp, ua, b.dp, ub);
    Clamp(tmp);
    Exch(tmp, a);
  }

  // ---- squaring ----

  // One inner step of s_mw_mp_sqr: twice p plus the digit and the carry, as a word and
  // one overflow bit. The doubling and the addition cannot both overflow.
  method DoubleAdd(p: Word, digit: Digit, k: Word) returns (w: Word, u: Word)
    requires p <= 0xFFFE_0001 && k <= 0x1_FFFF
    ensures u <= 1 && w + u * 0x1_0000_0000 == 2 * p + (digit + k)
    ensures w / RADIX + u * RADIX <= 0x1_FFFF
  {
    w := p;
    u := (w / 0x8000_0000) % 2;
    w := (w * 2) % 0x1_0000_0000;
    var v: Word := digit + k;
    u := if 0xFFFF_FFFF - v < w then 1 else u;
    w := (w + v) % 0x1_0000_0000;
  }

  // the value one row of the square adds: a[ix] against itself and the digits above
  ghost function RowValue(a: seq<Digit>, n: nat, ix: nat): int
    requires ix < n <= |a|
  {
    Scale(Times(a[ix], a[ix]), ix + ix) + Scale(2 * a[ix] as int * (V(a, n) - V(a, ix + 1)), ix)
  }

  // after the digits below jx of one inner loop of s_mw_mp_sqr
  ghost predicate SqrDone(s: seq<Digit>, t: seq<Digit>, ix: nat, a: seq<Digit>, jx: nat, k: int) {
    ix < jx <= |a| && ix + jx <= |s| == |t|
    && V(t, ix + jx) + Scale(k, ix + jx) == V(s, ix + jx) + RowValue(a, jx, ix)
  }

  // The inner loop of s_mw_mp_sqr; k is a word because it can need 17 bits.
  method SqrInner(pt: array<Digit>, ix: nat, pa: array<Digit>, n: nat) returns (k: Word)
    requires pt != pa && ix < n <= pa.Length && 2 * n <= pt.Length
    modifies pt
    ensures k <= 0x1_FFFF
    ensures SqrDone(old(pt[..]), pt[..], ix, pa[..], n, k)
    ensures forall i :: ix + n <= i < pt.Length ==> pt[i] == old(pt[i])
  {
    ghost var s, a := pt[..], pa[..];
    var w: Word := pt[ix + ix] + Times(pa[ix], pa[ix]);
    pt[ix + ix] := w % RADIX;
    k := w / RADIX;
    SqrFirst(s, pt[..], ix, a, w);
    var jx := ix + 1;
    while jx < n
      invariant ix < jx <= n && k <= 0x1_FFFF
      invariant SameFrom(pt[..], s, ix + jx)
      invariant SqrDone(s, pt[..], ix, a, jx, k)
    {
      ghost var t, k0 := pt[..], k;
      w := Times(pa[ix], pa[jx]);
      var u;
      w, u := DoubleAdd(w, pt[ix + jx], k);
      pt[ix + jx] := w % RADIX;
      k := w / RADIX + u * RADIX;
      SqrStep(s, t, pt[..], ix, a, jx, k0, k);
      jx := jx + 1;
    }
  }

  lemma SqrFirst(s: seq<Digit>, t: seq<Digit>, ix: nat, a: seq<Digit>, w: int)
    requires ix < |a| && ix + ix < |s| == |t| && w == s[ix + ix] + Times(a[ix], a[ix])
    requires t == s[ix + ix := t[ix + ix]] && t[ix + ix] == w % RADIX
    ensures SqrDone(s, t, ix, a, ix + 1, w / RADIX)
  {
    CarryStep(s, t, ix + ix, w);
    ScaleAdd(s[ix + ix], Times(a[ix], a[ix]), ix + ix);
    var d := 2 * a[ix] as int;
    assert d * (V(a, ix + 1) - V(a, ix + 1)) == 0;
  }

  lemma SqrStep(s: seq<Digit>, t: seq<Digit>, u: seq<Digit>, ix: nat, a: seq<Digit>, jx: nat, k: int, k1: int)
    requires SqrDone(s, t, ix, a, jx, k) && jx < |a| && ix + jx < |s| == |u|
    requires u == t[ix + jx := u[ix + jx]]
    requires u[ix + jx] + k1 * RADIX == 2 * Times(a[ix], a[jx]) + (s[ix + jx] + k)
    ensures SqrDone(s, u, ix, a, jx + 1, k1)
  {
    var p, x := 2 * Times(a[ix], a[jx]), s[ix + jx];
    var w := p + (x + k);
    assert w % RADIX == u[ix + jx] && w / RADIX == k1;
    AddStep(t, u, ix + jx, w, p, x, k);
    RowMore(a, jx, ix);
  }

  lemma RowMore(a: seq<Digit>, jx: nat, ix: nat)
    requires ix < jx < |a|
    ensures RowValue(a, jx + 1, ix) == RowValue(a, jx, ix) + Scale(2 * Times(a[ix], a[jx]), ix + jx)
  {
    var d, v := 2 * a[ix] as int, V(a, jx) - V(a, ix + 1);
    assert 2 * Times(a[ix], a[jx]) == d * a[jx] as int;
    RowScale(d * v, d * (v + Scale(a[jx], jx)), a[jx], v, jx, d, d * a[jx] as int, ix);
  }

  // One row of s_mw_mp_sqr, with the carry that its last digit can still leave: the
  // bounds show that it is at most 1 and that it stays inside the buffer.
  method SqrRow(pt: array<Digit>, ix: nat, pa: array<Digit>, n: nat)
    requires pt != pa && ix < n <= pa.Length && 2 * n == pt.Length
    requires ZeroFrom(pt[..], ix + n + 1)
    requires Val(pt[..]) + RowValue(pa[..], n, ix) < 2 * Pow(ix + n + 1)
    requires Val(pt[..]) + RowValue(pa[..], n, ix) < Pow(2 * n)
    modifies pt
    ensures Val(pt[..]) == old(Val(pt[..])) + RowValue(pa[..], n, ix)
  {
    ghost var s, target := pt[..], Val(pt[..]) + RowValue(pa[..], n, ix);
    VZero(s, ix + n + 1, |s|);
    var k := SqrInner(pt, ix, pa, n);
    var jx := n;
    ghost var t, k0 := pt[..], k;
    k := pt[ix + jx] + k;
    pt[ix + jx] := k % RADIX;
    SqrLast(s, t, pt[..], ix, pa[..], n, k0, k);
    k := k / RADIX;
    CarryIsOne(V(pt[..], ix + jx + 1), k, ix + jx + 1, target, 2 * n);
    PropagateOne(pt, ix + jx, 2 * n, k, target);
  }

  lemma SqrLast(s: seq<Digit>, t: seq<Digit>, u: seq<Digit>, ix: nat, a: seq<Digit>, n: nat, k: int, w: int)
    requires SqrDone(s, t, ix, a, n, k) && ix + n < |s| == |u| && w == s[ix + n] + k
    requires u == t[ix + n := u[ix + n]] && u[ix + n] == w % RADIX
    ensures V(u, ix + n + 1) + Scale(w / RADIX, ix + n + 1) == V(s, ix + n + 1) + RowValue(a, n, ix)
  {
    CarryStep(t, u, ix + n, w);
    ScaleAdd(s[ix + n], k, ix + n);
  }

  // the while(k) loop at the end of a row
  method PropagateOne(pt: array<Digit>, at: nat, n: nat, k0: Word, ghost target: nat)
    requires at < n == pt.Length && k0 <= 1 && (k0 == 1 ==> at + 1 < n)
    requires V(pt[..], at + 1) + Scale(k0, at + 1) == target && ZeroFrom(pt[..], at + 1)
    modifies pt
    ensures Val(pt[..]) == target
  {
    var k: Word, kx := k0, 1;
    while k != 0
      invariant 1 <= kx && at + kx <= n && k <= 1
      invariant k == 1 ==> at + kx < n
      invariant ZeroFrom(pt[..], at + kx)
      invariant V(pt[..], at + kx) + Scale(k, at + kx) == target
      decreases k
    {
      ghost var t := pt[..];
      k := pt[at + kx] as int + 1;
      pt[at + kx] := k % RADIX;
      CarryStep(t, pt[..], at + kx, k);
      k := k / RADIX;
      kx := kx + 1;
    }
    VZero(pt[..], at + kx, n);
  }

  lemma CarryIsOne(v: nat, k: nat, i: nat, target: nat, m: nat)
    requires v + Scale(k, i) == target < 2 * Pow(i) && target < Pow(m)
    ensures k <= 1 && (k == 1 ==> i < m)
  {
    ScalePow(k, i);
    if k >= 2 { MulLe(2, k, Pow(i)); }
    if k == 1 && i >= m { PowMono(m, i); }
  }

  // what the first ix rows have added up to
  ghost function RowsSoFar(a: seq<Digit>, n: nat, ix: nat): int
    requires ix <= n <= |a|
  {
    V(a, ix) * (2 * V(a, n) - V(a, ix))
  }

  lemma RowsAdvance(a: seq<Digit>, n: nat, ix: nat)
    requires ix < n <= |a|
    ensures RowsSoFar(a, n, ix + 1) == RowsSoFar(a, n, ix) + RowValue(a, n, ix)
    ensures a[ix] == 0 ==> RowValue(a, n, ix) == 0
  {
    var d, hi := a[ix] as int, V(a, n) - V(a, ix + 1);
    ScalePow(d, ix);
    ScalePow(Times(a[ix], a[ix]), ix + ix);
    ScalePow(2 * d * hi, ix);
    PowAdd(ix, ix);
    SquareParts(V(a, ix), d, Pow(ix), Pow(ix + ix), hi, V(a, n), V(a, ix + 1), Times(a[ix], a[ix]), 2 * d * hi);
  }

  lemma SquareParts(lo: int, d: int, p: int, pp: int, hi: int, v: int, lo1: int, dd: int, dh: int)
    requires pp == p * p && dd == d * d && dh == 2 * d * hi && lo1 == lo + d * p && v == lo1 + hi
    ensures lo1 * (2 * v - lo1) == lo * (2 * v - lo) + dd * pp + dh * p
    ensures d == 0 ==> dd * pp + dh * p == 0
  {
    var x := d * p;
    assert dd * pp == x * x by { assert (d * d) * (p * p) == (d * p) * (d * p); }
    assert dh * p == 2 * (x * hi) by { assert (2 * d * hi) * p == 2 * ((d * p) * hi); }
    assert (lo + x) * (lo + x + 2 * hi) == lo * (lo + 2 * x + 2 * hi) + x * x + 2 * (x * hi);
  }

  lemma RowsBound(a: seq<Digit>, n: nat, ix: nat)
    requires ix <= n <= |a|
    ensures 0 <= RowsSoFar(a, n, ix) < 2 * Pow(ix + n)
    ensures RowsSoFar(a, n, ix) < Pow(2 * n)
  {
    var lo, v := V(a, ix), V(a, n);
    VBound(a, ix);
    VBound(a, n);
    VMono(a, ix, n);
    PowAdd(ix, n);
    PowAdd(n, n);
    RowsProduct(lo, v, Pow(ix), Pow(n));
  }

  lemma RowsProduct(lo: nat, v: nat, p: nat, q: nat)
    requires lo < p && v < q && lo <= v
    ensures 0 <= lo * (2 * v - lo) < 2 * (p * q)
    ensures lo * (2 * v - lo) < q * q
  {
    MulPos(lo, 2 * v - lo);
    ProductBelow(lo, 2 * v - lo, p, 2 * q);
    MulSwap(p, 2, q);
    assert lo * (2 * v - lo) == v * v - (v - lo) * (v - lo);
    MulPos(v - lo, v - lo);
    ProductBelow(v, v, q, q);
  }

  lemma ProductBelow(x: nat, y: nat, p: nat, q: nat)
    requires x < p && y < q
    ensures x * y < p * q
  {
    MulLe(x, p - 1, y);
    MulLe(y, q - 1, p - 1);
    Distribute(p, -1, q - 1);
    Distribute(q, -1, p);
  }

  lemma {:induction false} ZeroAbove(s: seq<Digit>, n: nat, m: nat)
    requires n <= m <= |s| && V(s, m) < Pow(n)
    ensures forall i :: n <= i < m ==> s[i] == 0
  {
    if n < m {
      VTop(s, m);
      if s[m - 1] > 0 {
        ScaleMono(1, s[m - 1], m - 1);
        ScalePow(1, m - 1);
        PowMono(n, m - 1);
      }
      ZeroAbove(s, n, m - 1);
    }
  }

  // s_mw_mp_sqr, on the digits
  method SqrDigits(pt: array<Digit>, pa: array<Digit>, n: nat)
    requires pt != pa && n <= pa.Length && pt.Length == 2 * n && ZeroFrom(pt[..], 0)
    modifies pt
    ensures Val(pt[..]) == V(pa[..], n) * V(pa[..], n)
  {
    ghost var a := pa[..];
    VZero(pt[..], 0, pt.Length);
    var ix := 0;
    while ix < n
      invariant 0 <= ix <= n
      invariant Val(pt[..]) == RowsSoFar(a, n, ix)
    {
      RowsAdvance(a, n, ix);
      if pa[ix] != 0 {
        RowsBound(a, n, ix);
        RowsBound(a, n, ix + 1);
        PowMono(ix + n, ix + n + 1);
        ZeroAbove(pt[..], ix + n + 1, 2 * n);
        SqrRow(pt, ix, pa, n);
      }
      ix := ix + 1;
    }
  }

  // s_mw_mp_sqr
  method MagSqr(a: MpInt)
    requires a.Trimmed()
    modifies a
    ensures a.Valid() && a.Mag() == old(a.Mag()) * old(a.Mag()) && !a.sign && fresh(a.dp)
  {
    var used := a.used;
    var tmp := new MpInt.Size(2 * used);
    tmp.used := 2 * used;
    VZero(a.dp[..], used, a.dp.Length);
    SqrDigits(tmp.dp, a.dp, used);
    Clamp(tmp);
    Exch(tmp, a);
  }
}
