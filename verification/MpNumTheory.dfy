/**
  The square root of src/mpi/mpi.c, by Newton's iteration.
 */
module MpNumTheory {
  import opened Radix
  import opened MpInts
  import opened MpShift
  import opened MpSigned
  import opened MpDiv
  import opened MpQuotient

  // ---- iterations ----

  // the iterates of next from x on, up to one that stays
  ghost predicate Run(next: int -> int, xs: seq<int>, x: int) {
    && xs != [] && xs[0] == x && next(Last(xs)) == Last(xs)
    && forall i :: 0 <= i < |xs| - 1 ==> xs[i] != xs[i + 1] == next(xs[i])
  }

  ghost function Last(xs: seq<int>): int
    requires xs != []
  {
    xs[|xs| - 1]
  }

  lemma RunLonger(next: int -> int, xs: seq<int>, x: int, y: int)
    requires x != y == next(x) && Run(next, xs, y)
    ensures Run(next, [x] + xs, x) && Last([x] + xs) == Last(xs)
  {}

  lemma RunTwoLonger(next: int -> int, xs: seq<int>, x: int, y: int, z: int) returns (zs: seq<int>)
    requires x != y == next(x) && y != z == next(y) && Run(next, xs, z)
    ensures Run(next, zs, x) && Last(zs) == Last(xs)
  {
    RunLonger(next, xs, y, z);
    RunLonger(next, [y] + xs, x, y);
    zs := [x] + ([y] + xs);
  }

  // a number has only one run
  lemma {:induction false} RunUnique(next: int -> int, xs: seq<int>, ys: seq<int>, x: int)
    requires Run(next, xs, x) && Run(next, ys, x)
    ensures xs == ys
    decreases |xs|
  {
    assert |xs| > 1 ==> xs[0] != xs[1];
    assert |ys| > 1 ==> ys[0] != ys[1];
    if |xs| > 1 && |ys| > 1 {
      assert xs[1] == next(x) == ys[1];
      RunUnique(next, xs[1..], ys[1..], next(x));
      assert xs == [x] + xs[1..] && ys == [x] + ys[1..];
    }
  }

  // Numbers that step down, and their negations that step up, come to a stop.
  ghost predicate StepsDown(next: int -> int, good: int -> bool, x: int) {
    good(x) ==>
      && x > 0 && next(-x) == -next(x)
      && (next(x) == x || (0 < next(x) < x && good(next(x))))
  }

  lemma {:induction false} Descent(next: int -> int, good: int -> bool, x: int) returns (xs: seq<int>, ys: seq<int>)
    requires good(x) && forall y :: StepsDown(next, good, y)
    ensures Run(next, xs, x) && forall i :: 0 <= i < |xs| ==> good(xs[i])
    ensures Run(next, ys, -x) && Last(ys) == -Last(xs)
    decreases x, StepsDown(next, good, x)
  {
    assert StepsDown(next, good, x);
    var y := next(x);
    if y == x {
      xs, ys := [x], [-x];
    } else {
      xs, ys := Descent(next, good, y);
      RunLonger(next, xs, x, y);
      RunLonger(next, ys, -x, -y);
      xs, ys := [x] + xs, [-x] + ys;
    }
  }

  // ---- the iteration of mw_mp_sqrt ----

  // r is the root of a, rounded down
  ghost predicate IsRoot(r: int, a: int) {
    r >= 0 && r * r <= a < (r + 1) * (r + 1)
  }

  // what mw_mp_div makes of (x * x - a) / 2x
  ghost function Step(x: int, a: int): int
    requires x != 0
  {
    Quotient(Excess(x, a), 2 * x)
  }

  ghost function Excess(x: int, a: int): int {
    x * x - a
  }

  // the next iterate; it is the same one when the quotient is zero, or the division fails
  ghost function Next(a: int): int -> int {
    (x: int) => if x == 0 then 0 else x - Step(x, a)
  }

  // the iteration with exact division
  ghost function Exact(a: int): int -> int {
    (x: int) => if x == 0 then 0 else x - Truncated(Excess(x, a), 2 * x)
  }

  // above the root
  ghost predicate Over(x: int, a: int) {
    x > 0 && a < x * x
  }

  // the double is not cut down, or makes no difference
  ghost predicate Uncut(x: int, a: int) {
    Excess(x, a) <= 2 * x || forall k: nat :: k >= 0xFFFF ==> x != Two(k)
  }

  // above the root, with a double that is not cut down
  ghost predicate Above(x: int, a: int) {
    x > 0 && a < x * x && 2 * x < Two(0x1_0000)
  }

  // the step of a number above the root and of its negation, while the divisor is not cut
  // down
  lemma StepAbove(x: int, a: nat)
    requires x > 0 && a < x * x && Divisor(2 * x) == 2 * x
    ensures Step(x, a) == (x * x - a) / (2 * x) >= 0 && Step(-x, a) == -Step(x, a)
  {
    assert (-x) * (-x) == x * x;
    var q := DivMod(x * x - a, 2 * x);
  }

  lemma NextAbove(x: int, a: nat)
    requires x > 0 && a < x * x && Divisor(2 * x) == 2 * x
    ensures Next(a)(x) == x - (x * x - a) / (2 * x) <= x && Next(a)(-x) == -Next(a)(x)
  {
    StepAbove(x, a);
  }

  // one turn from above: x stays above the root, or has come one above it
  lemma NewtonStep(a: nat, x: int, y: int)
    requires 0 < x && a < x * x && y == x - (x * x - a) / (2 * x) <= x
    ensures 0 < y && if y < x then a < y * y else IsRoot(x - 1, a)
  {
    var t := x - y;
    var d := 2 * x;
    var q := DivMod(x * x - a, d);
    MulComm(d, t);
    if t >= x { MulLe(x, t, d); }
    assert (x - t) * (x - t) == x * x - t * (2 * x) + t * t;
    if t > 0 { MulLe(1, t, t); }
    assert (x - 1) * (x - 1) == x * x - 2 * x + 1;
  }

  // exact iterates above the root step down to one above it
  lemma OverDown(x: int, a: nat)
    requires Over(x, a)
    ensures Exact(a)(-x) == -Exact(a)(x)
    ensures if Exact(a)(x) == x then IsRoot(x - 1, a) else 0 < Exact(a)(x) < x && Over(Exact(a)(x), a)
  {
    ExactIs(x, a);
    NewtonStep(a, x, Exact(a)(x));
  }

  lemma ExactIs(x: int, a: nat)
    requires Over(x, a)
    ensures Exact(a)(x) == x - (x * x - a) / (2 * x) <= x && Exact(a)(-x) == -Exact(a)(x)
  {
    assert (-x) * (-x) == x * x;
    var q := DivMod(x * x - a, 2 * x);
  }

  // The exact iteration ends one above the root for every a. The routine has the same
  // iterates exactly when none of them, doubled, is cut down and makes a difference.
  lemma SqrtUncut(a: nat) returns (xs: seq<int>)
    requires a >= 2
    ensures Run(Exact(a), xs, a) && IsRoot(Last(xs) - 1, a)
    ensures Run(Next(a), xs, a) <==> forall i :: 0 <= i < |xs| ==> Uncut(xs[i], a)
  {
    var good := (y: int) => Over(y, a);
    forall y ensures StepsDown(Exact(a), good, y) {
      if Over(y, a) {
        OverDown(y, a);
      }
    }
    MulLe(2, a, a);
    var ys;
    xs, ys := Descent(Exact(a), good, a);
    OverDown(Last(xs), a);
    forall i | 0 <= i < |xs| ensures Uncut(xs[i], a) <==> Next(a)(xs[i]) == Exact(a)(xs[i]) {
      NextExact(xs[i], a);
    }
    RunSame(Exact(a), Next(a), xs, a);
  }

  lemma RunSame(f: int -> int, g: int -> int, xs: seq<int>, x: int)
    requires Run(f, xs, x)
    ensures Run(g, xs, x) <==> forall i :: 0 <= i < |xs| ==> g(xs[i]) == f(xs[i])
  {
    if Run(g, xs, x) {
      forall i | 0 <= i < |xs| ensures g(xs[i]) == f(xs[i]) {
        assert i < |xs| - 1 ==> xs[i + 1] == g(xs[i]) == f(xs[i]);
      }
    }
  }

  lemma NextExact(x: int, a: nat)
    requires Over(x, a)
    ensures Next(a)(x) == Exact(a)(x) <==> Uncut(x, a)
  {
    var e := Excess(x, a);
    NextIs(a, x);
    if k: nat :| k >= 0xFFFF && x == Two(k) {
      DoubleCut(k, (k + 1) % 0x1_0000);
      if e > 2 * x {
        SmallerDivisor(e, Divisor(2 * x), 2 * x);
      }
    } else {
      DoubleUncut(x);
    }
  }

  lemma DoubleCut(k: nat, j: nat)
    requires j == (k + 1) % 0x1_0000 && j <= k
    ensures 2 * Divisor(2 * Two(k)) <= 2 * Two(k)
  {
    PowerBelow(j, k);
    DivisorOfPower(k + 1);
    assert Divisor(Two(k + 1)) == Two(j);
  }

  lemma PowerBelow(j: nat, k: nat)
    requires j <= k
    ensures 2 * Two(j) <= Two(k + 1) == 2 * Two(k)
  {
    TwoMono(j, k);
  }

  lemma DoubleUncut(x: int)
    requires x > 0 && forall k: nat :: k >= 0xFFFF ==> x != Two(k)
    ensures Divisor(2 * x) == 2 * x
  {
    forall k: nat | k >= 0x1_0000 ensures 2 * x != Two(k) {
      assert x != Two(k - 1);
    }
  }

  // a quotient of one or more changes when the divisor is halved
  lemma SmallerDivisor(e: int, d: int, f: int)
    requires d > 0 && 2 * d <= f < e
    ensures e / d != e / f
  {
    var q := DivMod(e, f);
    var p := DivMod(e, d);
    if q < 1 { MulLe(f, q, 0); }
    if p == q {
      MulLe(2 * d, f, q);
    }
  }

  // From above the loop ends one above the root, and from below with the negation of that.
  lemma RunAbove(x: int, a: nat) returns (xs: seq<int>, ys: seq<int>)
    requires Above(x, a)
    ensures Run(Next(a), xs, x) && IsRoot(Last(xs) - 1, a)
    ensures Run(Next(a), ys, -x) && Last(ys) == -Last(xs)
  {
    var good := (y: int) => Above(y, a);
    forall y ensures StepsDown(Next(a), good, y) {
      if Above(y, a) {
        AboveDown(y, a);
      }
    }
    xs, ys := Descent(Next(a), good, x);
    AboveDown(Last(xs), a);
  }

  lemma AboveDown(x: int, a: nat)
    requires Above(x, a)
    ensures Next(a)(-x) == -Next(a)(x)
    ensures if Next(a)(x) == x then IsRoot(x - 1, a) else 0 < Next(a)(x) < x && Above(Next(a)(x), a)
  {
    NextAbove(x, a);
    NewtonStep(a, x, Next(a)(x));
  }

  // Below 2^65535 the loop ends, one above the root.
  lemma SqrtExact(a: nat) returns (xs: seq<int>)
    requires 2 <= a && 2 * a < Two(0x1_0000)
    ensures Run(Next(a), xs, a) && IsRoot(Last(xs) - 1, a)
  {
    MulLe(2, a, a);
    var ys;
    xs, ys := RunAbove(a, a);
  }

  // Wherever the loop ends, for whatever a, the last iterate is in size the root or one
  // above it; the result is the root exactly when it is positive and above the root.
  lemma SqrtResult(a: nat, xs: seq<int>)
    requires a >= 2 && Run(Next(a), xs, a) && Last(xs) != 0
    ensures IsRoot(Abs(Last(xs)) - 1, a) || IsRoot(Abs(Last(xs)), a)
    ensures IsRoot(Last(xs) - 1, a) <==> Over(Last(xs), a)
  {
    var x := Last(xs);
    NextIs(a, x);
    StopsNear(x, a);
  }

  lemma StopsNear(x: int, a: nat)
    requires x != 0 && Step(x, a) == 0
    ensures IsRoot(Abs(x) - 1, a) || IsRoot(Abs(x), a)
    ensures IsRoot(x - 1, a) <==> Over(x, a)
  {
    StopBound(Excess(x, a), 2 * x);
    SquareAbs(x);
    RootNear(Abs(x), a);
  }

  lemma StopBound(e: int, d: int)
    requires d != 0 && Quotient(e, d) == 0
    ensures Abs(e) < Abs(d)
  {
    ZeroQuotient(Abs(e), Abs(DivisorUsed(e, d)));
  }

  lemma SquareAbs(x: int)
    ensures x * x == Abs(x) * Abs(x)
  {}

  lemma ZeroQuotient(e: nat, d: nat)
    requires d > 0 && e / d == 0
    ensures e < d
  {}

  lemma RootNear(y: int, a: nat)
    requires y > 0 && -2 * y < y * y - a < 2 * y
    ensures if a < y * y then IsRoot(y - 1, a) else IsRoot(y, a)
    ensures a >= y * y ==> !IsRoot(y - 1, a)
  {
    assert (y - 1) * (y - 1) == y * y - 2 * y + 1 && (y + 1) * (y + 1) == y * y + 2 * y + 1;
  }

  // ---- where the result is not the root ----

  // For a = 2^65535 the first division by 2a = 2^65536 is one by 1. From then on the
  // iterates are negative, and the routine returns the negated root less 2.
  lemma SqrtCutDown(a: int) returns (xs: seq<int>)
    requires a == Two(0xFFFF)
    ensures Run(Next(a), xs, a)
    ensures IsRoot(-(Last(xs) - 1) - 2, a)
  {
    var h, c, y := CutNumbers(a, 0xFFFF);
    CutFirst(a, h, c);
    CutSecond(a, c, y);
    var zs := CutRest(a, c);
    xs := CutWhole(a, c, y, a * c, zs);
  }

  lemma CutWhole(a: int, c: int, y: int, z: int, zs: seq<int>) returns (xs: seq<int>)
    requires Next(a)(a) == -y != a && Next(a)(-y) == -(z + 1) != -y && Run(Next(a), zs, -(z + 1)) && IsRoot(-Last(zs) - 1, a)
    ensures Run(Next(a), xs, a)
    ensures IsRoot(-(Last(xs) - 1) - 2, a)
  {
    xs := RunTwoLonger(Next(a), zs, a, -y, -(z + 1));
    assert -(Last(xs) - 1) - 2 == -Last(zs) - 1;
  }

  // a = 2h, c = h - 1 and y = 2ac
  lemma CutNumbers(a: int, k: nat) returns (h: int, c: int, y: int)
    requires k >= 3 && a == Two(k)
    ensures a == 2 * h && c == h - 1 && c >= 3 && c % 2 == 1 && y == 2 * (a * c)
  {
    h := Two(k - 1);
    TwoMono(2, k - 1);
    assert Two(2) == 2 * Two(1) && Two(1) == 2 * Two(0) && h == 2 * Two(k - 2);
    c := h - 1;
    y := 2 * (a * c);
  }

  // the first iterate
  lemma CutFirst(a: int, h: int, c: int)
    requires a == Two(0xFFFF) && a == 2 * h && c == h - 1 && c >= 3
    ensures Next(a)(a) == -(2 * (a * c)) < 0
  {
    DivisorOfPower(0x1_0000);
    assert Two(0x1_0000) == 2 * a && Two(0) == 1;
    FirstNumbers(a, h);
    FirstStep(a, a * a - a);
    MulPos(a, c);
  }

  lemma FirstStep(a: int, e: int)
    requires a > 0 && e > 2 * a && e == a * a - a && Divisor(2 * a) == 1
    ensures Step(a, a) == e
  {}

  lemma FirstNumbers(a: int, h: int)
    requires a >= 4 && a == 2 * h
    ensures a * a - a > 2 * a && a - (a * a - a) == -(2 * (a * (h - 1)))
  {
    MulLe(4, a, a);
    assert a * (h - 1) == a * h - a && a * a == 2 * (a * h);
  }

  // the second, after an even number
  lemma CutSecond(a: int, c: int, y: int)
    requires a == Two(0xFFFF) && c >= 3 && c % 2 == 1 && y == 2 * (a * c)
    ensures Next(a)(-y) == -(a * c + 1) != -y
  {
    MulLe(3, c, a);
    MulComm(c, a);
    MulLe(a, y, y);
    MulLe(1, a, y);
    MulAssoc(2, a, c);
    assert Two(0x1_0000) == 2 * a && Two(0x1_0001) == 2 * Two(0x1_0000);
    MulAssoc(2, 2 * a, c);
    NotAPower(c, 0x1_0001, 2 * y);
    NextAbove(y, a);
    EvenStep(y, a * c, a);
  }

  lemma EvenStep(y: int, h: int, a: int)
    requires y == 2 * h && y > a > 0
    ensures (y * y - a) / (2 * y) == h - 1
  {
    assert y * y - a == (h - 1) * (2 * y) + (2 * y - a);
    DivUnique(y * y - a, 2 * y, h - 1, 2 * y - a);
  }

  lemma OddStep(y: int, h: int, a: int)
    requires y == 2 * h + 1 && y >= a > 0
    ensures (y * y - a) / (2 * y) == h
  {
    assert y * y - a == h * (2 * y) + (y - a);
    DivUnique(y * y - a, 2 * y, h, y - a);
  }

  // an odd factor keeps the divisor from being cut down
  lemma NotAPower(c: int, e: nat, d: int)
    requires c > 1 && c % 2 == 1 && (d == Two(e) * c || d == c * Two(e)) && d > 0
    ensures Divisor(d) == d
  {
    MulComm(c, Two(e));
    forall k: nat ensures d != Two(k) {
      if d == Two(k) {
        OddPart(c, e, k);
      }
    }
  }

  // c * 2^k
  ghost function Shifted(c: int, k: nat): int {
    if k == 0 then c else 2 * Shifted(c, k - 1)
  }

  lemma {:induction false} ShiftedIs(c: int, k: nat)
    requires c >= 0
    ensures Shifted(c, k) == Two(k) * c && Shifted(c, k) >= c
  {
    if k > 0 {
      ShiftedIs(c, k - 1);
      MulAssoc(2, Two(k - 1), c);
    }
  }

  // the others are odd until they are below 2^65535
  ghost function Odd(c: int, k: nat): int {
    Shifted(c, k) + 1
  }

  lemma CutRest(a: int, c: int) returns (xs: seq<int>)
    requires a == Two(0xFFFF) && a == 2 * c + 2 && c >= 3
    ensures Run(Next(a), xs, -(a * c + 1)) && IsRoot(-Last(xs) - 1, a)
  {
    forall i: nat | 0 < i ensures Halves(Next(a), c, i) {
      CutLink(a, c, i);
    }
    xs := CutLast(a, c);
    assert Shifted(c, 1) == 2 * Shifted(c, 0);
    xs := CutChain(Next(a), c, 0xFFFF, xs);
    ShiftedIs(c, 0xFFFF);
  }

  ghost predicate Halves(next: int -> int, c: int, i: nat) {
    next(-Odd(c, i + 1)) == -Odd(c, i) != -Odd(c, i + 1)
  }

  lemma {:induction false} CutChain(next: int -> int, c: int, k: nat, xs: seq<int>) returns (zs: seq<int>)
    requires k > 0 && Run(next, xs, -Odd(c, 1)) && forall i: nat :: 0 < i ==> Halves(next, c, i)
    ensures Run(next, zs, -Odd(c, k)) && Last(zs) == Last(xs)
    decreases k
  {
    zs := xs;
    if k > 1 {
      zs := CutChain(next, c, k - 1, xs);
      assert Halves(next, c, k - 1);
      RunLonger(next, zs, -Odd(c, k), -Odd(c, k - 1));
      zs := [-Odd(c, k)] + zs;
    }
  }

  lemma CutLink(a: int, c: int, i: nat)
    requires a == 2 * c + 2 && c >= 3 && i > 0
    ensures Halves(Next(a), c, i)
  {
    ShiftedIs(c, i - 1);
    CutOdd(a, Shifted(c, i));
  }

  lemma CutOdd(a: int, e: int)
    requires a >= 4 && e >= a - 2
    ensures Next(a)(-(2 * e + 1)) == -(e + 1)
  {
    var y := 2 * e + 1;
    MulLe(2, y, y);
    assert Two(1) == 2 * Two(0);
    NotAPower(y, 1, 2 * y);
    NextAbove(y, a);
    OddStep(y, e, a);
  }

  lemma CutLast(a: int, c: int) returns (xs: seq<int>)
    requires a == Two(0xFFFF) && a == 2 * c + 2 && c >= 3
    ensures Run(Next(a), xs, -(2 * c + 1)) && IsRoot(-Last(xs) - 1, a)
  {
    LastAbove(a);
    var ys;
    ys, xs := RunAbove(a - 1, a);
  }

  lemma LastAbove(a: int)
    requires a == Two(0xFFFF) && a >= 4
    ensures Above(a - 1, a)
  {
    assert Two(0x1_0000) == 2 * Two(0xFFFF);
    MulLe(3, a - 1, a - 1);
  }

  // ---- the routine ----

  // mw_mp_sqrt, for every a for which its loop ends; xs are the iterates
  method Sqrt(a: MpInt, b: MpInt, ghost xs: seq<int>) returns (res: MpErr)
    requires a.Valid() && b.Valid() && Apart(a, b) && (a.Value() >= 2 ==> Run(Next(a.Value()), xs, a.Value()))
    modifies b, b.dp
    ensures b.Valid()
    ensures res == if old(a.Value()) < 0 || (old(a.Value()) >= 2 && Last(xs) == 0) then Range else Okay
    ensures res == Range ==> b.Value() == old(b.Value())
    ensures res == Okay ==> b.Value() == if old(a.Value()) < 2 then old(a.Value()) else Last(xs) - 1
  {
    if a.sign {
      return Range;
    }
    var c0 := CmpMagDigit(a, 0);
    var c1 := CmpMagDigit(a, 1);
    if c0 == 0 || c1 == 0 {
      Copy(a, b);
      return Okay;
    }
    res := SqrtLarger(a, b, xs);
  }

  method SqrtLarger(a: MpInt, b: MpInt, ghost xs: seq<int>) returns (res: MpErr)
    requires a.Valid() && b.Valid() && Apart(a, b) && Run(Next(a.Value()), xs, a.Value())
    modifies b, b.dp
    ensures b.Valid() && res == if Last(xs) == 0 then Range else Okay
    ensures b.Value() == if res == Okay then Last(xs) - 1 else old(b.Value())
  {
    var x;
    res, x := NewtonLoop(a, xs);
    if res == Okay {
      var last := SubDigit(x, 1, x);
      Exch(x, b);
    }
  }

  // the loop of mw_mp_sqrt
  method NewtonLoop(a: MpInt, ghost xs: seq<int>) returns (res: MpErr, x: MpInt)
    requires a.Valid() && Run(Next(a.Value()), xs, a.Value())
    ensures fresh(x) && fresh(x.dp) && x.Valid() && res == if Last(xs) == 0 then Range else Okay
    ensures res == Okay ==> x.Value() == Last(xs)
  {
    ghost var i, v := 0, a.Value();
    var t := new MpInt.Size(a.used);
    x := new MpInt.Copy(a);
    var done := false;
    res := Okay;
    while !done
      invariant Three(a, x, t) && fresh(x) && fresh(x.dp) && fresh(t) && fresh(t.dp)
      invariant 0 <= i < |xs| && x.Value() == xs[i] && res == Okay && (done ==> i == |xs| - 1 && xs[i] != 0)
      decreases !done, |xs| - i
    {
      NextIterate(xs, v, i);
      res, done := NewtonTurn(a, x, t);
      if res != Okay {
        return;
      }
      if !done {
        i := i + 1;
      }
    }
  }

  // what is known of the turn at xs[i]
  lemma NextIterate(xs: seq<int>, v: int, i: nat)
    requires Run(Next(v), xs, v) && i < |xs|
    ensures xs[i] != 0 ==> xs[i] - Step(xs[i], v) == if i < |xs| - 1 then xs[i + 1] else xs[i]
    ensures i < |xs| - 1 ==> xs[i] != xs[i + 1]
  {
    if xs[i] != 0 {
      NextIs(v, xs[i]);
    }
  }

  // one turn of the loop; it is the last when the quotient is zero
  method NewtonTurn(a: MpInt, x: MpInt, t: MpInt) returns (res: MpErr, done: bool)
    requires Three(a, x, t)
    modifies x, x.dp, t, t.dp
    ensures Three(a, x, t) && res == if old(x.Value()) == 0 then Range else Okay
    ensures res == Okay ==> t.Value() == Step(old(x.Value()), a.Value()) && done == (t.Value() == 0)
    ensures res == Okay ==> x.Value() == old(x.Value()) - t.Value()
    ensures x.dp == old(x.dp) || fresh(x.dp)
    ensures t.dp == old(t.dp) || fresh(t.dp)
  {
    res := NewtonDelta(a, x, t);
    if res != Okay {
      return res, false;
    }
    var z := CmpZero(t);
    if z == 0 {
      return Okay, true;
    }
    StepBack(x, t);
    done := false;
  }

  // x := x - t
  method StepBack(x: MpInt, t: MpInt)
    requires x.Valid() && t.Valid() && x.dp != t.dp
    modifies x, x.dp
    ensures x.Valid() && x.Value() == old(x.Value()) - t.Value() && (x.dp == old(x.dp) || fresh(x.dp))
  {
    var res := Sub(x, t, x);
  }

  lemma NextIs(a: int, x: int)
    requires x != 0
    ensures Next(a)(x) == x - Step(x, a)
  {}

  // t := (x * x - a) / 2x
  method NewtonDelta(a: MpInt, x: MpInt, t: MpInt) returns (res: MpErr)
    requires Three(a, x, t)
    modifies x, x.dp, t, t.dp
    ensures Three(a, x, t) && res == if old(x.Value()) == 0 then Range else Okay
    ensures res == Okay ==> x.Value() == old(x.Value()) && t.Value() == Step(x.Value(), a.Value())
    ensures x.dp == old(x.dp) || fresh(x.dp)
    ensures t.dp == old(t.dp) || fresh(t.dp)
  {
    NewtonSquare(a, x, t);
    res := DivideByTwice(t, x);
  }

  // t := x * x - a
  method NewtonSquare(a: MpInt, x: MpInt, t: MpInt)
    requires Three(a, x, t)
    modifies t, t.dp
    ensures Three(a, x, t) && t.Value() == Excess(x.Value(), a.Value()) && (t.dp == old(t.dp) || fresh(t.dp))
  {
    Copy(x, t);
    Sqr(t, t);
    var res := Sub(t, a, t);
  }

  // t := t / 2x, with x doubled in place meanwhile
  method DivideByTwice(t: MpInt, x: MpInt) returns (res: MpErr)
    requires t.Valid() && x.Valid() && t != x && t.dp != x.dp
    modifies x, x.dp, t, t.dp
    ensures t.Valid() && x.Valid() && t.dp != x.dp && res == if old(x.Value()) == 0 then Range else Okay
    ensures res == Okay ==> x.Value() == old(x.Value())
    ensures res == Okay ==> t.Value() == Quotient(old(t.Value()), 2 * old(x.Value()))
    ensures x.dp == old(x.dp) || fresh(x.dp)
    ensures t.dp == old(t.dp) || fresh(t.dp)
  {
    ghost var w := x.Value();
    Mul2(x);
    res := DivideBy(t, x);
    if res == Okay {
      HalveBack(x, w);
    }
  }

  method HalveBack(x: MpInt, ghost w: int)
    requires x.Valid() && x.Value() == 2 * w
    modifies x, x.dp
    ensures x.Valid() && x.Value() == w && x.dp == old(x.dp)
  {
    Div2(x);
  }
}
