/**
  The extended binary greatest common divisor of src/mpi/mpi.c and the modular
  inverse. A row (u, a, b) keeps a * xc + b * yc = u for the fixed pair xc, yc.
 */
module MpXgcd {
  import opened Radix
  import opened Numbers
  import opened MpInts
  import opened MpShift
  import opened MpSigned
  import opened MpDiv
  import opened MpQuotient
  import opened MpGcd

  // a * n by repeated addition
  ghost function Repeated(a: int, n: nat): int {
    if n == 0 then 0 else Repeated(a, n - 1) + a
  }

  lemma {:induction false} RepeatedIs(a: int, n: nat)
    ensures Repeated(a, n) == a * n
  {
    if n > 0 {
      RepeatedIs(a, n - 1);
      Distribute(n - 1, 1, a);
    }
  }

  lemma {:induction false} RepeatedSum(a: int, b: int, n: nat)
    ensures Repeated(a + b, n) == Repeated(a, n) + Repeated(b, n)
    ensures Repeated(a - b, n) == Repeated(a, n) - Repeated(b, n)
  {
    if n > 0 {
      RepeatedSum(a, b, n - 1);
    }
  }

  lemma RepeatedSwap(x: nat, y: nat)
    ensures Repeated(x, y) == Repeated(y, x)
  {
    RepeatedIs(x, y);
    RepeatedIs(y, x);
  }

  lemma RepeatedParity(a: int, n: nat)
    ensures Repeated(a, n) % 2 == if a % 2 == 1 && n % 2 == 1 then 1 else 0
  {
    RepeatedIs(a, n);
    ParityProduct(a, n);
  }

  ghost predicate Combines(a: int, b: int, x: nat, y: nat, u: int) {
    Repeated(a, x) + Repeated(b, y) == u
  }

  lemma CombinesIs(a: int, b: int, x: nat, y: nat, u: int)
    ensures Combines(a, b, x, y, u) <==> a * x + b * y == u
  {
    RepeatedIs(a, x);
    RepeatedIs(b, y);
  }

  lemma CombinesMinus(a: int, b: int, c: int, d: int, x: nat, y: nat, u: int, v: int)
    requires Combines(a, b, x, y, u) && Combines(c, d, x, y, v)
    ensures Combines(a - c, b - d, x, y, u - v)
  {
    RepeatedSum(a, c, x);
    RepeatedSum(b, d, y);
  }

  lemma CombinesHalf(a: int, b: int, x: nat, y: nat, u: int)
    requires Combines(2 * a, 2 * b, x, y, u)
    ensures Combines(a, b, x, y, u / 2)
  {
    RepeatedSum(a, a, x);
    RepeatedSum(b, b, y);
  }

  // When u is even, either both coefficients are, or adding the other pair makes them so.
  lemma CrossCombination(a: int, b: int, x: nat, y: nat, u: int)
    requires Combines(a, b, x, y, u) && u % 2 == 0 && (x % 2 == 1 || y % 2 == 1)
    ensures a % 2 == 1 || b % 2 == 1 ==> (a + y) % 2 == 0 && (b - x) % 2 == 0
    ensures Combines(a + y, b - x, x, y, u)
  {
    RepeatedParity(a, x);
    RepeatedParity(b, y);
    RepeatedSum(a, y, x);
    RepeatedSum(b, x, y);
    RepeatedSwap(x, y);
  }

  // the two ways of halving a pair of coefficients
  function HalvedA(a: int, b: int, y: int): int {
    if a % 2 == 0 && b % 2 == 0 then a / 2 else (a + y) / 2
  }

  function HalvedB(a: int, b: int, x: int): int {
    if a % 2 == 0 && b % 2 == 0 then b / 2 else (b - x) / 2
  }

  lemma HalveCombination(a: int, b: int, x: nat, y: nat, u: int)
    requires Combines(a, b, x, y, u) && u % 2 == 0 && (x % 2 == 1 || y % 2 == 1)
    ensures a % 2 == 1 || b % 2 == 1 ==> (a + y) % 2 == 0 && (b - x) % 2 == 0
    ensures Combines(HalvedA(a, b, y), HalvedB(a, b, x), x, y, u / 2)
  {
    CrossCombination(a, b, x, y, u);
    CombinesHalf(HalvedA(a, b, y), HalvedB(a, b, x), x, y, u);
  }

  // five numbers of one row and the fixed pair, all in different buffers
  ghost predicate RowObjects(u: MpInt, a: MpInt, b: MpInt, xc: MpInt, yc: MpInt)
    reads u, a, b, xc, yc, u.dp, a.dp, b.dp, xc.dp, yc.dp
  {
    && PairObjects(a, b, xc, yc) && u.Valid() && u != a && u != b && u != xc && u != yc
    && u.dp != a.dp && u.dp != b.dp && u.dp != xc.dp && u.dp != yc.dp
  }

  ghost predicate Row(u: MpInt, a: MpInt, b: MpInt, xc: MpInt, yc: MpInt)
    reads u, a, b, xc, yc, u.dp, a.dp, b.dp, xc.dp, yc.dp
  {
    && RowObjects(u, a, b, xc, yc)
    && Combines(a.Value(), b.Value(), xc.Mag(), yc.Mag(), u.Value())
  }

  ghost predicate PairObjects(a: MpInt, b: MpInt, xc: MpInt, yc: MpInt)
    reads a, b, xc, yc, a.dp, b.dp, xc.dp, yc.dp
  {
    && a.Valid() && b.Valid() && Natural(xc) && Natural(yc)
    && a != b && a != xc && a != yc && b != xc && b != yc
    && a.dp != b.dp && a.dp != xc.dp && a.dp != yc.dp && b.dp != xc.dp && b.dp != yc.dp
  }

  // halve the coefficients of a row whose u is being halved
  method HalvePair(a: MpInt, b: MpInt, xc: MpInt, yc: MpInt, ghost u: int)
    requires PairObjects(a, b, xc, yc) && u % 2 == 0 && (xc.Mag() % 2 == 1 || yc.Mag() % 2 == 1)
    requires Combines(a.Value(), b.Value(), xc.Mag(), yc.Mag(), u)
    modifies a, a.dp, b, b.dp
    ensures PairObjects(a, b, xc, yc) && Combines(a.Value(), b.Value(), xc.Mag(), yc.Mag(), u / 2)
    ensures a.dp == old(a.dp) || fresh(a.dp)
    ensures b.dp == old(b.dp) || fresh(b.dp)
  {
    HalveCombination(a.Value(), b.Value(), xc.Mag(), yc.Mag(), u);
    HalveEither(a, b, xc, yc);
  }

  method HalveEither(a: MpInt, b: MpInt, xc: MpInt, yc: MpInt)
    requires PairObjects(a, b, xc, yc)
    requires a.Value() % 2 != 0 || b.Value() % 2 != 0 ==>
      (a.Value() + yc.Value()) % 2 == 0 && (b.Value() - xc.Value()) % 2 == 0
    modifies a, a.dp, b, b.dp
    ensures PairObjects(a, b, xc, yc)
    ensures a.Value() == old(HalvedA(a.Value(), b.Value(), yc.Value()))
    ensures b.Value() == old(HalvedB(a.Value(), b.Value(), xc.Value()))
    ensures a.dp == old(a.dp) || fresh(a.dp)
    ensures b.dp == old(b.dp) || fresh(b.dp)
  {
    var oa := IsOdd(a);
    var ob := IsOdd(b);
    if !oa && !ob {
      HalveBoth(a, b);
    } else {
      CrossHalve(a, b, xc, yc);
    }
  }

  method HalveBoth(a: MpInt, b: MpInt)
    requires a.Valid() && b.Valid() && a != b && a.dp != b.dp && a.Value() % 2 == 0 && b.Value() % 2 == 0
    modifies a, a.dp, b, b.dp
    ensures a.Valid() && b.Valid() && a.dp == old(a.dp) && b.dp == old(b.dp)
    ensures a.Value() == old(a.Value()) / 2 && b.Value() == old(b.Value()) / 2
  {
    Div2(a);
    Div2(b);
  }

  method CrossHalve(a: MpInt, b: MpInt, xc: MpInt, yc: MpInt)
    requires PairObjects(a, b, xc, yc)
    requires (a.Value() + yc.Value()) % 2 == 0 && (b.Value() - xc.Value()) % 2 == 0
    modifies a, a.dp, b, b.dp
    ensures PairObjects(a, b, xc, yc)
    ensures a.Value() == old(a.Value() + yc.Value()) / 2 && b.Value() == old(b.Value() - xc.Value()) / 2
    ensures a.dp == old(a.dp) || fresh(a.dp)
    ensures b.dp == old(b.dp) || fresh(b.dp)
  {
    AddHalve(a, yc);
    SubHalve(b, xc);
  }

  method AddHalve(a: MpInt, y: MpInt)
    requires a.Valid() && y.Valid() && a != y && a.dp != y.dp && (a.Value() + y.Value()) % 2 == 0
    modifies a, a.dp
    ensures a.Valid() && a.Value() == old(a.Value() + y.Value()) / 2 && (a.dp == old(a.dp) || fresh(a.dp))
  {
    var res := Add(a, y, a);
    Div2(a);
  }

  method SubHalve(b: MpInt, x: MpInt)
    requires b.Valid() && x.Valid() && b != x && b.dp != x.dp && (b.Value() - x.Value()) % 2 == 0
    modifies b, b.dp
    ensures b.Valid() && b.Value() == old(b.Value() - x.Value()) / 2 && (b.dp == old(b.dp) || fresh(b.dp))
  {
    var res := Sub(b, x, b);
    Div2(b);
  }

  // one turn of the halving loops
  method HalveStep(u: MpInt, a: MpInt, b: MpInt, xc: MpInt, yc: MpInt, ghost v: int)
    requires Row(u, a, b, xc, yc) && u.Value() > 0 && u.Value() % 2 == 0 && v % 2 == 1
    requires xc.Mag() % 2 == 1 || yc.Mag() % 2 == 1
    modifies u, u.dp, a, a.dp, b, b.dp
    ensures Row(u, a, b, xc, yc) && 0 < u.Value() < old(u.Value())
    ensures SameDivisors(old(u.Value()), v, u.Value(), v)
    ensures u.dp == old(u.dp)
    ensures a.dp == old(a.dp) || fresh(a.dp)
    ensures b.dp == old(b.dp) || fresh(b.dp)
  {
    HalveDivisors(u.Value() / 2, v);
    ghost var n := u.Value();
    Div2(u);
    HalvePair(a, b, xc, yc, n);
  }

  // halve a row until u is odd; v is the odd partner that u is compared with
  method HalveRow(u: MpInt, a: MpInt, b: MpInt, xc: MpInt, yc: MpInt, ghost v: int)
    requires Row(u, a, b, xc, yc) && u.Value() > 0 && (u.Value() % 2 == 0 ==> v % 2 == 1)
    requires xc.Mag() % 2 == 1 || yc.Mag() % 2 == 1
    modifies u, u.dp, a, a.dp, b, b.dp
    ensures Row(u, a, b, xc, yc) && 0 < u.Value() <= old(u.Value()) && u.Value() % 2 == 1
    ensures SameDivisors(old(u.Value()), v, u.Value(), v)
    ensures u.dp == old(u.dp)
    ensures a.dp == old(a.dp) || fresh(a.dp)
    ensures b.dp == old(b.dp) || fresh(b.dp)
  {
    var odd := IsOdd(u);
    while !odd
      invariant Row(u, a, b, xc, yc) && 0 < u.Value() <= old(u.Value())
      invariant SameDivisors(old(u.Value()), v, u.Value(), v) && (!odd ==> v % 2 == 1)
      invariant odd == (u.Value() % 2 == 1)
      invariant u.dp == old(u.dp)
      invariant a.dp == old(a.dp) || fresh(a.dp)
      invariant b.dp == old(b.dp) || fresh(b.dp)
      decreases u.Value()
    {
      HalveStep(u, a, b, xc, yc, v);
      odd := IsOdd(u);
    }
  }

  method SubPair(a: MpInt, b: MpInt, c: MpInt, d: MpInt)
    requires a.Valid() && b.Valid() && c.Valid() && d.Valid() && a != b && a != c && a != d && b != c && b != d
    requires a.dp != b.dp && a.dp != c.dp && a.dp != d.dp && b.dp != c.dp && b.dp != d.dp
    modifies a, a.dp, b, b.dp
    ensures a.Valid() && b.Valid() && a.dp != b.dp
    ensures a.Value() == old(a.Value()) - c.Value() && b.Value() == old(b.Value()) - d.Value()
    ensures a.dp == old(a.dp) || fresh(a.dp)
    ensures b.dp == old(b.dp) || fresh(b.dp)
  {
    var res := Sub(a, c, a);
    res := Sub(b, d, b);
  }

  // two rows in different buffers
  // u halved n times
  ghost function Halvings(u: nat, n: nat): nat {
    if n == 0 then u else Halvings(u, n - 1) / 2
  }

  // Halving until the number is odd comes to an end exactly for numbers other than zero, so
  // mw_mp_xgcd does not end for a = 0.
  lemma HalvingEnds(u: nat)
    ensures (exists n :: Halvings(u, n) % 2 == 1) <==> u > 0
  {
    if u == 0 {
      forall n ensures Halvings(u, n) == 0 { ZeroHalved(n); }
    } else {
      var n := OddHalving(u);
    }
  }

  lemma {:induction false} ZeroHalved(n: nat)
    ensures Halvings(0, n) == 0
  {
    if n > 0 {
      ZeroHalved(n - 1);
    }
  }

  lemma OddHalving(u: nat) returns (n: nat)
    requires u > 0
    ensures Halvings(u, n) % 2 == 1
  {
    n := 0;
    while Halvings(u, n) % 2 == 0
      invariant Halvings(u, n) > 0
      decreases Halvings(u, n)
    {
      n := n + 1;
    }
  }

  ghost predicate RowsApart(u: MpInt, a: MpInt, b: MpInt, v: MpInt, c: MpInt, d: MpInt)
    reads u, a, b, v, c, d
  {
    && u != v && u != c && u != d && a != v && a != c && a != d && b != v && b != c && b != d
    && u.dp != v.dp && u.dp != c.dp && u.dp != d.dp && a.dp != v.dp && a.dp != c.dp && a.dp != d.dp
    && b.dp != v.dp && b.dp != c.dp && b.dp != d.dp
  }

  ghost predicate TwoRows(u: MpInt, a: MpInt, b: MpInt, v: MpInt, c: MpInt, d: MpInt, xc: MpInt, yc: MpInt)
    reads u, a, b, v, c, d, xc, yc, u.dp, a.dp, b.dp, v.dp, c.dp, d.dp, xc.dp, yc.dp
  {
    && Row(u, a, b, xc, yc) && Row(v, c, d, xc, yc) && RowsApart(u, a, b, v, c, d)
    && (xc.Mag() % 2 == 1 || yc.Mag() % 2 == 1)
  }

  // subtract the second row from the first
  method SubRow(u: MpInt, a: MpInt, b: MpInt, v: MpInt, c: MpInt, d: MpInt, xc: MpInt, yc: MpInt)
    requires TwoRows(u, a, b, v, c, d, xc, yc)
    modifies u, u.dp, a, a.dp, b, b.dp
    ensures true == TwoRows(u, a, b, v, c, d, xc, yc)   // proved as a whole
    ensures u.Value() == old(u.Value()) - v.Value() && v.Value() == old(v.Value())
    ensures u.dp == old(u.dp) || fresh(u.dp)
    ensures a.dp == old(a.dp) || fresh(a.dp)
    ensures b.dp == old(b.dp) || fresh(b.dp)
  {
    CombinesMinus(a.Value(), b.Value(), c.Value(), d.Value(), xc.Mag(), yc.Mag(), u.Value(), v.Value());
    SubThree(u, a, b, v, c, d, xc, yc);
  }

  method SubThree(u: MpInt, a: MpInt, b: MpInt, v: MpInt, c: MpInt, d: MpInt, xc: MpInt, yc: MpInt)
    requires RowObjects(u, a, b, xc, yc) && RowObjects(v, c, d, xc, yc) && RowsApart(u, a, b, v, c, d)
    modifies u, u.dp, a, a.dp, b, b.dp
    ensures RowObjects(u, a, b, xc, yc) && RowsApart(u, a, b, v, c, d)
    ensures u.Value() == old(u.Value()) - v.Value()
    ensures a.Value() == old(a.Value()) - c.Value() && b.Value() == old(b.Value()) - d.Value()
    ensures u.dp == old(u.dp) || fresh(u.dp)
    ensures a.dp == old(a.dp) || fresh(a.dp)
    ensures b.dp == old(b.dp) || fresh(b.dp)
  {
    var res := Sub(u, v, u);
    SubPair(a, b, c, d);
  }

  // ---- the main loop ----

  ghost predicate XgcdState(u: int, v: int, x: int, y: int) {
    u >= 0 && v > 0 && (u % 2 == 1 || v % 2 == 1) && SameDivisors(x, y, u, v)
  }

  lemma XgcdStep(u: int, v: int, u2: int, v2: int, x: int, y: int)
    requires XgcdState(u, v, x, y) && u > 0
    requires SameDivisors(u, v, u2, v2)
    requires 0 < u2 <= u && 0 < v2 <= v && u2 % 2 == 1 && v2 % 2 == 1
    ensures u2 >= v2 ==> XgcdState(u2 - v2, v2, x, y)
    ensures u2 < v2 ==> XgcdState(u2, v2 - u2, x, y)
  {
    SubtractDivisors(u2, v2);
    assert SameDivisors(x, y, u2, v2);
  }

  method HalveRows(u: MpInt, a: MpInt, b: MpInt, v: MpInt, c: MpInt, d: MpInt, xc: MpInt, yc: MpInt)
    requires TwoRows(u, a, b, v, c, d, xc, yc)
    requires u.Value() > 0 && v.Value() > 0 && (u.Value() % 2 == 1 || v.Value() % 2 == 1)
    modifies u, u.dp, a, a.dp, b, b.dp, v, v.dp, c, c.dp, d, d.dp
    ensures true == TwoRows(u, a, b, v, c, d, xc, yc)   // proved as a whole
    ensures 0 < u.Value() <= old(u.Value()) && u.Value() % 2 == 1
    ensures 0 < v.Value() <= old(v.Value()) && v.Value() % 2 == 1
    ensures SameDivisors(old(u.Value()), old(v.Value()), u.Value(), v.Value())
    ensures u.dp == old(u.dp) && v.dp == old(v.dp)
    ensures a.dp == old(a.dp) || fresh(a.dp)
    ensures b.dp == old(b.dp) || fresh(b.dp)
    ensures c.dp == old(c.dp) || fresh(c.dp)
    ensures d.dp == old(d.dp) || fresh(d.dp)
  {
    ghost var u0, v0 := u.Value(), v.Value();
    HalveRow(u, a, b, xc, yc, v.Value());
    ghost var u2 := u.Value();
    HalveRow(v, c, d, xc, yc, u.Value());
    SameBoth(u0, v0, u2, v.Value());
  }

  lemma SameBoth(u: int, v: int, u2: int, v2: int)
    requires SameDivisors(u, v, u2, v) && SameDivisors(v, u2, v2, u2)
    ensures SameDivisors(u, v, u2, v2)
  {}

  // subtract the first row from the second
  method SubSecond(u: MpInt, a: MpInt, b: MpInt, v: MpInt, c: MpInt, d: MpInt, xc: MpInt, yc: MpInt)
    requires TwoRows(u, a, b, v, c, d, xc, yc)
    modifies v, v.dp, c, c.dp, d, d.dp
    ensures TwoRows(u, a, b, v, c, d, xc, yc)
    ensures v.Value() == old(v.Value()) - u.Value() && u.Value() == old(u.Value())
    ensures v.dp == old(v.dp) || fresh(v.dp)
    ensures c.dp == old(c.dp) || fresh(c.dp)
    ensures d.dp == old(d.dp) || fresh(d.dp)
  {
    SubRow(v, c, d, u, a, b, xc, yc);
  }

  // subtract the smaller row from the larger one
  method SubLarger(u: MpInt, a: MpInt, b: MpInt, v: MpInt, c: MpInt, d: MpInt, xc: MpInt, yc: MpInt)
    requires TwoRows(u, a, b, v, c, d, xc, yc)
    modifies u, u.dp, a, a.dp, b, b.dp, v, v.dp, c, c.dp, d, d.dp
    ensures true == TwoRows(u, a, b, v, c, d, xc, yc)   // proved as a whole
    ensures u.Value() == if old(u.Value()) >= old(v.Value()) then old(u.Value()) - old(v.Value()) else old(u.Value())
    ensures v.Value() == if old(u.Value()) >= old(v.Value()) then old(v.Value()) else old(v.Value()) - old(u.Value())
    ensures u.dp == old(u.dp) || fresh(u.dp)
    ensures a.dp == old(a.dp) || fresh(a.dp)
    ensures b.dp == old(b.dp) || fresh(b.dp)
    ensures v.dp == old(v.dp) || fresh(v.dp)
    ensures c.dp == old(c.dp) || fresh(c.dp)
    ensures d.dp == old(d.dp) || fresh(d.dp)
  {
    var cmp := Cmp(u, v);
    if cmp >= 0 {
      SubRow(u, a, b, v, c, d, xc, yc);
    } else {
      SubSecond(u, a, b, v, c, d, xc, yc);
    }
  }

  // one turn of the main loop
  method XgcdTurn(u: MpInt, a: MpInt, b: MpInt, v: MpInt, c: MpInt, d: MpInt, xc: MpInt, yc: MpInt, ghost x: int, ghost y: int)
    requires TwoRows(u, a, b, v, c, d, xc, yc) && XgcdState(u.Value(), v.Value(), x, y) && u.Value() > 0
    modifies u, u.dp, a, a.dp, b, b.dp, v, v.dp, c, c.dp, d, d.dp
    ensures true == TwoRows(u, a, b, v, c, d, xc, yc)   // proved as a whole
    ensures XgcdState(u.Value(), v.Value(), x, y)
    ensures u.Valid() && u.Value() + v.Value() < old(u.Value() + v.Value())
    ensures u.dp == old(u.dp) || fresh(u.dp)
    ensures a.dp == old(a.dp) || fresh(a.dp)
    ensures b.dp == old(b.dp) || fresh(b.dp)
    ensures v.dp == old(v.dp) || fresh(v.dp)
    ensures c.dp == old(c.dp) || fresh(c.dp)
    ensures d.dp == old(d.dp) || fresh(d.dp)
  {
    ghost var u0, v0 := u.Value(), v.Value();
    HalveRows(u, a, b, v, c, d, xc, yc);
    XgcdStep(u0, v0, u.Value(), v.Value(), x, y);
    SubLarger(u, a, b, v, c, d, xc, yc);
  }

  // one turn, and the test that ends the loop
  method XgcdRound(u: MpInt, a: MpInt, b: MpInt, v: MpInt, c: MpInt, d: MpInt, xc: MpInt, yc: MpInt, ghost x: int, ghost y: int)
    returns (more: bool)
    requires TwoRows(u, a, b, v, c, d, xc, yc) && XgcdState(u.Value(), v.Value(), x, y) && u.Value() > 0
    modifies u, u.dp, a, a.dp, b, b.dp, v, v.dp, c, c.dp, d, d.dp
    ensures TwoRows(u, a, b, v, c, d, xc, yc)
    ensures XgcdState(u.Value(), v.Value(), x, y)
    ensures more == (u.Value() > 0) && u.Value() + v.Value() < old(u.Value() + v.Value())
    ensures u.dp == old(u.dp) || fresh(u.dp)
    ensures a.dp == old(a.dp) || fresh(a.dp)
    ensures b.dp == old(b.dp) || fresh(b.dp)
    ensures v.dp == old(v.dp) || fresh(v.dp)
    ensures c.dp == old(c.dp) || fresh(c.dp)
    ensures d.dp == old(d.dp) || fresh(d.dp)
  {
    XgcdTurn(u, a, b, v, c, d, xc, yc, x, y);
    var z := CmpZero(u);
    more := z != 0;
  }

  method XgcdLoop(u: MpInt, a: MpInt, b: MpInt, v: MpInt, c: MpInt, d: MpInt, xc: MpInt, yc: MpInt, ghost x: int, ghost y: int)
    requires TwoRows(u, a, b, v, c, d, xc, yc) && XgcdState(u.Value(), v.Value(), x, y) && u.Value() > 0
    modifies u, u.dp, a, a.dp, b, b.dp, v, v.dp, c, c.dp, d, d.dp
    ensures Row(v, c, d, xc, yc) && IsGcd(v.Value(), x, y)
    ensures v.dp == old(v.dp) || fresh(v.dp)
    ensures c.dp == old(c.dp) || fresh(c.dp)
    ensures d.dp == old(d.dp) || fresh(d.dp)
  {
    var more := true;
    while more
      invariant TwoRows(u, a, b, v, c, d, xc, yc)
      invariant XgcdState(u.Value(), v.Value(), x, y) && more == (u.Value() > 0)
      invariant u.dp == old(u.dp) || fresh(u.dp)
      invariant a.dp == old(a.dp) || fresh(a.dp)
      invariant b.dp == old(b.dp) || fresh(b.dp)
      invariant v.dp == old(v.dp) || fresh(v.dp)
      invariant c.dp == old(c.dp) || fresh(c.dp)
      invariant d.dp == old(d.dp) || fresh(d.dp)
      decreases u.Value() + v.Value()
    {
      more := XgcdRound(u, a, b, v, c, d, xc, yc, x, y);
    }
    GcdFromDivisors(v.Value(), x, y, u.Value());
  }

  method StartRow(xc: MpInt, yc: MpInt, a0: Digit, b0: Digit) returns (u: MpInt, a: MpInt, b: MpInt)
    requires Natural(xc) && Natural(yc)
    ensures PairObjects(a, b, xc, yc) && a.Value() == a0 as int && b.Value() == b0 as int
    ensures u.Valid() && u != a && u != b && u.dp != a.dp && u.dp != b.dp
    ensures fresh(u) && fresh(a) && fresh(b) && fresh(u.dp) && fresh(a.dp) && fresh(b.dp)
  {
    u := new MpInt.Size(DEFPREC);
    a := new MpInt.Size(DEFPREC);
    b := new MpInt.Size(DEFPREC);
    Set(a, a0);
    Set(b, b0);
  }

  // u, A and B at the start: u is a copy of t, which is xc or yc
  method FirstRow(t: MpInt, xc: MpInt, yc: MpInt, a0: Digit, b0: Digit) returns (u: MpInt, a: MpInt, b: MpInt)
    requires Natural(xc) && Natural(yc) && xc != yc && xc.dp != yc.dp && Natural(t)
    requires Combines(a0, b0, xc.Mag(), yc.Mag(), t.Mag())
    ensures Row(u, a, b, xc, yc)
    ensures u.Mag() == t.Mag() && !u.sign
    ensures fresh(u) && fresh(a) && fresh(b) && fresh(u.dp) && fresh(a.dp) && fresh(b.dp)
  {
    u, a, b := StartRow(xc, yc, a0, b0);
    Copy(t, u);
  }

  // both rows
  method FirstRows(xc: MpInt, yc: MpInt) returns (u: MpInt, a: MpInt, b: MpInt, v: MpInt, c: MpInt, d: MpInt)
    requires Natural(xc) && Natural(yc) && xc != yc && xc.dp != yc.dp && (xc.Mag() % 2 == 1 || yc.Mag() % 2 == 1)
    ensures TwoRows(u, a, b, v, c, d, xc, yc)
    ensures u.Value() == xc.Mag() && v.Value() == yc.Mag()
    ensures fresh(u) && fresh(a) && fresh(b) && fresh(u.dp) && fresh(a.dp) && fresh(b.dp)
    ensures fresh(v) && fresh(c) && fresh(d) && fresh(v.dp) && fresh(c.dp) && fresh(d.dp)
  {
    CombinesIs(1, 0, xc.Mag(), yc.Mag(), xc.Mag());
    CombinesIs(0, 1, xc.Mag(), yc.Mag(), yc.Mag());
    u, a, b := FirstRow(xc, xc, yc, 1, 0);
    v, c, d := FirstRow(yc, xc, yc, 0, 1);
  }

  // both rows and the main loop
  method XgcdOdd(xc: MpInt, yc: MpInt) returns (v: MpInt, c: MpInt, d: MpInt)
    requires Natural(xc) && Natural(yc) && xc != yc && xc.dp != yc.dp && xc.Mag() > 0 && yc.Mag() > 0
    requires xc.Mag() % 2 == 1 || yc.Mag() % 2 == 1
    ensures Row(v, c, d, xc, yc) && IsGcd(v.Value(), xc.Mag(), yc.Mag())
    ensures fresh(v) && fresh(c) && fresh(d) && fresh(v.dp) && fresh(c.dp) && fresh(d.dp)
  {
    var u, a, b;
    u, a, b, v, c, d := FirstRows(xc, yc);
    XgcdLoop(u, a, b, v, c, d, xc, yc, xc.Mag(), yc.Mag());
  }

  // Halve both numbers while both are even, doubling gx.
  method SharedTwos(xc: MpInt, yc: MpInt, gx: MpInt) returns (ghost k: nat)
    requires Natural(xc) && Natural(yc) && Natural(gx) && xc.Mag() > 0 && yc.Mag() > 0 && gx.Mag() == 1
    requires xc != yc && xc != gx && yc != gx && xc.dp != yc.dp && xc.dp != gx.dp && yc.dp != gx.dp
    modifies xc, xc.dp, yc, yc.dp, gx, gx.dp
    ensures Natural(xc) && Natural(yc) && Natural(gx) && xc.Mag() > 0 && yc.Mag() > 0 && gx.Mag() == Two(k)
    ensures HasTwos(old(xc.Mag()), xc.Mag(), k) && HasTwos(old(yc.Mag()), yc.Mag(), k)
    ensures xc.Mag() % 2 == 1 || yc.Mag() % 2 == 1
    ensures xc.dp == old(xc.dp) && yc.dp == old(yc.dp) && (gx.dp == old(gx.dp) || fresh(gx.dp))
  {
    ghost var x, y := xc.Mag(), yc.Mag();
    k := 0;
    var more := BothEven(xc, yc);
    while more
      invariant Natural(xc) && Natural(yc) && Natural(gx) && xc.Mag() > 0 && yc.Mag() > 0 && gx.Mag() == Two(k)
      invariant HasTwos(x, xc.Mag(), k) && HasTwos(y, yc.Mag(), k)
      invariant more == (xc.Mag() % 2 == 0 && yc.Mag() % 2 == 0)
      invariant xc.dp == old(xc.dp) && yc.dp == old(yc.dp) && (gx.dp == old(gx.dp) || fresh(gx.dp))
      decreases xc.Mag()
    {
      OneMoreTwo(x, xc.Mag(), k);
      OneMoreTwo(y, yc.Mag(), k);
      more := ShareTwo(xc, yc, gx);
      k := k + 1;
    }
  }

  method BothEven(x: MpInt, y: MpInt) returns (even: bool)
    requires Natural(x) && Natural(y)
    ensures even == (x.Mag() % 2 == 0 && y.Mag() % 2 == 0)
  {
    var ox := IsOdd(x);
    var oy := IsOdd(y);
    even := !ox && !oy;
  }

  // one turn, and the test for the next
  method ShareTwo(xc: MpInt, yc: MpInt, gx: MpInt) returns (more: bool)
    requires Natural(xc) && Natural(yc) && Natural(gx) && xc.Mag() > 0 && yc.Mag() > 0
    requires xc != yc && xc != gx && yc != gx && xc.dp != yc.dp && xc.dp != gx.dp && yc.dp != gx.dp
    requires xc.Mag() % 2 == 0 && yc.Mag() % 2 == 0
    modifies xc, xc.dp, yc, yc.dp, gx, gx.dp
    ensures Natural(xc) && Natural(yc) && Natural(gx) && gx.Mag() == 2 * old(gx.Mag())
    ensures 0 < xc.Mag() == old(xc.Mag()) / 2 && 0 < yc.Mag() == old(yc.Mag()) / 2
    ensures more == (xc.Mag() % 2 == 0 && yc.Mag() % 2 == 0)
    ensures xc.dp == old(xc.dp) && yc.dp == old(yc.dp) && (gx.dp == old(gx.dp) || fresh(gx.dp))
  {
    HalveEven(xc, yc);
    Mul2(gx);
    more := BothEven(xc, yc);
  }

  // xc, yc and gx after the first loop
  method XgcdCopies(a: MpInt, b: MpInt) returns (xc: MpInt, yc: MpInt, gx: MpInt, ghost k: nat)
    requires a.Valid() && b.Valid() && a.Value() != 0 && b.Value() != 0
    ensures Natural(xc) && Natural(yc) && Natural(gx) && xc != yc && xc.dp != yc.dp && xc.Mag() > 0 && yc.Mag() > 0
    ensures xc.Mag() % 2 == 1 || yc.Mag() % 2 == 1
    ensures HasTwos(a.Mag(), xc.Mag(), k) && HasTwos(b.Mag(), yc.Mag(), k) && gx.Mag() == Two(k)
    ensures fresh(xc) && fresh(yc) && fresh(gx) && fresh(xc.dp) && fresh(yc.dp) && fresh(gx.dp)
  {
    xc := CopyAbs(a);
    yc := CopyAbs(b);
    gx := new MpInt.Size(DEFPREC);
    Set(gx, 1);
    k := SharedTwos(xc, yc, gx);
  }

  // the working values of mw_mp_xgcd: gx, v, C and D
  method XgcdParts(a: MpInt, b: MpInt) returns (gx: MpInt, v: MpInt, c: MpInt, d: MpInt, ghost gv: int)
    requires a.Valid() && b.Valid() && a.Value() != 0 && b.Value() != 0
    ensures gx.Valid() && v.Valid() && c.Valid() && d.Valid() && c != d && c.dp != d.dp
    ensures fresh(gx) && fresh(v) && fresh(c) && fresh(d)
    ensures fresh(gx.dp) && fresh(v.dp) && fresh(c.dp) && fresh(d.dp)
    ensures gx.dp != v.dp && gv == gx.Value() * v.Value()
    ensures Bezout(a.Mag(), b.Mag(), c.Value(), d.Value(), gv)
  {
    var xc, yc;
    ghost var k;
    xc, yc, gx, k := XgcdCopies(a, b);
    v, c, d := XgcdOdd(xc, yc);
    gv := gx.Value() * v.Value();
    ScaledBezout(Two(k), c.Value(), d.Value(), xc.Mag(), yc.Mag(), v.Value());
    GcdScale(k, v.Value(), xc.Mag(), yc.Mag());
  }

  // g is the greatest common divisor and x, y are its coefficients
  ghost predicate Bezout(a: int, b: int, x: int, y: int, g: int) {
    IsGcd(g, a, b) && a * x + b * y == g
  }

  // The documented a * x + b * y = g holds exactly when no negative input has a
  // coefficient other than zero: always for two positive inputs, never for two negative
  // ones.
  lemma XgcdSigns(a: int, b: int, x: int, y: int, g: int)
    requires a != 0 && b != 0 && Bezout(Abs(a), Abs(b), x, y, g)
    ensures a * x + b * y == g <==> (a > 0 || x == 0) && (b > 0 || y == 0)
    ensures a > 0 && b > 0 ==> a * x + b * y == g
    ensures a < 0 && b < 0 ==> a * x + b * y != g
  {
    SignedTerm(a, x);
    SignedTerm(b, y);
  }

  lemma SignedTerm(a: int, x: int)
    requires a != 0
    ensures a * x == (if a > 0 then 1 else -1) * (Abs(a) * x)
    ensures Abs(a) * x == 0 <==> x == 0
  {
    if a < 0 {
      assert a * x == -(Abs(a) * x);
    }
  }

  // Whatever the coefficients are, they fail for -3 and 5.
  lemma XgcdNegative(x: int, y: int, g: int)
    requires Bezout(3, 5, x, y, g)
    ensures -3 * x + 5 * y != g
  {
    XgcdSigns(-3, 5, x, y, g);
    if x == 0 {
      var k: int :| Multiple(k, g) == 3;
      MulSwap(k, 5, y);
      assert false;
    }
  }

  lemma ScaledBezout(t: nat, c: int, d: int, x: nat, y: nat, v: int)
    requires Combines(c, d, x, y, v)
    ensures (t * x) * c + (t * y) * d == t * v
  {
    CombinesIs(c, d, x, y, v);
    MulAssoc(t, x, c);
    MulAssoc(t, y, d);
    Distribute(x * c, y * d, t);
  }

  // an output may replace an input
  ghost predicate Output(x: MpInt?)
    reads x, if x == null then {} else {x.dp}
  {
    x != null ==> x.Valid()
  }

  // mw_mp_xgcd. The coefficients are those of the absolute values.
  method Xgcd(a: MpInt, b: MpInt, g: MpInt?, x: MpInt?, y: MpInt?)
    returns (res: MpErr, ghost gv: int, ghost xv: int, ghost yv: int)
    requires a.Valid() && b.Valid() && a.Value() != 0
    requires Output(g) && Output(x) && Output(y) && Different(g, x) && Different(g, y) && Different(x, y)
    modifies Owned(g), Owned(x), Owned(y)
    ensures res == if old(b.Value()) == 0 then Range else Okay
    ensures Kept(g) && Kept(x) && Kept(y)
    ensures res == Okay ==> Bezout(old(a.Mag()), old(b.Mag()), xv, yv, gv)
    ensures res == Okay ==> Holds(g, gv) && Holds(x, xv) && Holds(y, yv)
  {
    gv, xv, yv := 0, 0, 0;
    var z := CmpZero(b);
    if z == 0 {
      return Range, gv, xv, yv;
    }
    gv, xv, yv := XgcdNonzero(a, b, g, x, y);
    res := Okay;
  }

  // mw_mp_xgcd for two nonzero numbers
  method XgcdNonzero(a: MpInt, b: MpInt, g: MpInt?, x: MpInt?, y: MpInt?) returns (ghost gv: int, ghost xv: int, ghost yv: int)
    requires a.Valid() && b.Valid() && a.Value() != 0 && b.Value() != 0
    requires Output(g) && Output(x) && Output(y) && Different(g, x) && Different(g, y) && Different(x, y)
    modifies Owned(g), Owned(x), Owned(y)
    ensures Kept(g) && Kept(x) && Kept(y)
    ensures Bezout(old(a.Mag()), old(b.Mag()), xv, yv, gv)
    ensures Holds(g, gv) && Holds(x, xv) && Holds(y, yv)
  {
    var gx, v, c, d;
    gx, v, c, d, gv := XgcdParts(a, b);
    xv, yv := c.Value(), d.Value();
    XgcdOut(gx, v, c, d, g, x, y, gv);
  }

  // an output shares nothing with two working values
  ghost predicate AwayFrom(x: MpInt?, u: MpInt, v: MpInt)
    reads x, u, v
  {
    x != null ==> x != u && x != v && x.dp != u.dp && x.dp != v.dp
  }

  // the assignments to the outputs of mw_mp_xgcd
  method XgcdOut(gx: MpInt, v: MpInt, c: MpInt, d: MpInt, g: MpInt?, x: MpInt?, y: MpInt?, ghost gv: int)
    requires gx.Valid() && v.Valid() && c.Valid() && d.Valid()
    requires Output(g) && Output(x) && Output(y) && Different(g, x) && Different(g, y) && Different(x, y)
    requires AwayFrom(g, gx, v) && AwayFrom(x, gx, v) && AwayFrom(y, gx, v)
    requires AwayFrom(x, c, d) && AwayFrom(y, c, d)
    requires gx.dp != v.dp && gv == gx.Value() * v.Value()
    modifies Owned(g), Owned(x), Owned(y)
    ensures Kept(g) && Kept(x) && Kept(y)
    ensures Holds(g, gv) && Holds(x, old(c.Value())) && Holds(y, old(d.Value()))
  {
    CoefficientsOut(c, d, x, y);
    ProductOut(gx, v, g, gv);
  }

  method CoefficientsOut(c: MpInt, d: MpInt, x: MpInt?, y: MpInt?)
    requires c.Valid() && d.Valid() && Output(x) && Output(y) && Different(x, y)
    requires AwayFrom(x, c, d) && AwayFrom(y, c, d)
    modifies Owned(x), Owned(y)
    ensures Kept(x) && Kept(y) && Holds(x, old(c.Value())) && Holds(y, old(d.Value()))
  {
    CopyOut(c, x);
    CopyOut(d, y);
  }

  method ProductOut(gx: MpInt, v: MpInt, g: MpInt?, ghost gv: int)
    requires gx.Valid() && v.Valid() && Output(g) && AwayFrom(g, gx, v)
    requires gx.dp != v.dp && gv == gx.Value() * v.Value()
    modifies Owned(g)
    ensures Holds(g, gv) && Kept(g)
  {
    if g != null {
      var res := Mul(gx, v, g);
    }
  }

  method CopyOut(c: MpInt, x: MpInt?)
    requires c.Valid() && Output(x) && (x != null ==> x != c && x.dp != c.dp)
    modifies Owned(x)
    ensures Holds(x, old(c.Value())) && Kept(x)
  {
    if x != null {
      Copy(c, x);
    }
  }

  // ---- modular inverse ----

  // MP_RANGE for zero and for a negative modulus, MP_UNDEF when there is no inverse
  ghost function InvmodResult(a: int, m: int): MpErr {
    if a == 0 || m == 0 then Range
    else if !IsGcd(1, Abs(a), Abs(m)) then Undef
    else if m < 0 then Range else Okay
  }

  // mw_mp_invmod. The coefficient x of a goes through mw_mp_mod, and then the sign of a is
  // written over it: for m = 1 that makes a negative zero of it when a is negative.
  method Invmod(a: MpInt, m: MpInt, c: MpInt) returns (res: MpErr, ghost x: int, ghost y: int)
    requires a.Valid() && m.Valid() && c.Valid() && Apart(a, m) && Apart(c, a) && Apart(c, m)
    modifies c, c.dp
    ensures c.Trimmed() && (c.dp == old(c.dp) || fresh(c.dp))
    ensures res == InvmodResult(old(a.Value()), old(m.Value()))
    ensures res == Okay ==> old(a.Mag()) * x + old(m.Value()) * y == 1
    ensures res == Okay ==> c.Mag() == Abs(ModValue(x, old(m.Value()), c == m)) && c.sign == old(a.sign)
    ensures res == Okay && old(m.Value()) == 1 ==> c.Mag() == 0 && c.Valid() == !old(a.sign)
  {
    x, y := 0, 0;
    var za := CmpZero(a);
    var zm := CmpZero(m);
    if za == 0 || zm == 0 {
      return Range, x, y;
    }
    res, x, y := InvmodNonzero(a, m, c);
  }

  // mw_mp_invmod for two nonzero numbers
  method InvmodNonzero(a: MpInt, m: MpInt, c: MpInt) returns (res: MpErr, ghost x: int, ghost y: int)
    requires a.Valid() && m.Valid() && c.Valid() && Apart(c, m) && a.Value() != 0 && m.Value() != 0
    modifies c, c.dp
    ensures c.Trimmed() && (c.dp == old(c.dp) || fresh(c.dp))
    ensures res == InvmodResult(old(a.Value()), old(m.Value()))
    ensures res == Okay ==> old(a.Mag()) * x + old(m.Value()) * y == 1
    ensures res == Okay ==> c.Mag() == Abs(ModValue(x, old(m.Value()), c == m)) && c.sign == old(a.sign)
    ensures res == Okay && old(m.Value()) == 1 ==> c.Mag() == 0
  {
    var xo: MpInt;
    ghost var g: int;
    res, xo, g, x, y := InvmodCoefficient(a, m);
    BezoutOne(a.Mag(), m.Mag(), x, y, g);
    if res != Okay {
      return;
    }
    CombinesIs(x, y, a.Mag(), m.Mag(), 1);
    res := InvmodReduce(xo, m, c, a.sign);
  }

  // the last step of mw_mp_invmod: c := x mod m, with the sign sa
  method InvmodReduce(x: MpInt, m: MpInt, c: MpInt, sa: bool) returns (res: MpErr)
    requires x.Valid() && m.Valid() && c.Valid() && Apart(c, m) && x != m && x != c && x.dp != m.dp && x.dp != c.dp
    requires m.Value() != 0
    modifies c, c.dp
    ensures c.Trimmed() && (c.dp == old(c.dp) || fresh(c.dp))
    ensures res == if old(m.sign) then Range else Okay
    ensures res == Okay ==> c.Mag() == Abs(ModValue(old(x.Value()), old(m.Value()), c == m)) && c.sign == sa
    ensures res == Okay && old(m.Value()) == 1 ==> c.Mag() == 0
  {
    ghost var m0, x0, over := m.Value(), x.Value(), c == m;
    ghost var q, r;
    res, q, r := Mod(x, m, c);
    if m0 > 0 {
      ModValueIs(x0, m0, q, r, over);
    }
    c.sign := sa;
  }

  // c is less than m in size, and inverse to a
  ghost predicate Inverse(a: int, c: int, m: int) {
    Abs(c) < m && Cong(a * c, 1, m)
  }

  // the call of mw_mp_xgcd in mw_mp_invmod, and the test of its result
  method InvmodCoefficient(a: MpInt, m: MpInt) returns (res: MpErr, x: MpInt, ghost gv: int, ghost xv: int, ghost yv: int)
    requires a.Valid() && m.Valid() && a.Value() != 0 && m.Value() != 0
    ensures fresh(x) && fresh(x.dp) && x.Valid() && x.Value() == xv
    ensures Bezout(a.Mag(), m.Mag(), xv, yv, gv)
    ensures res == if gv == 1 then Okay else Undef
  {
    var g;
    g, x, gv, xv, yv := XgcdTwo(a, m);
    var one := CmpMagDigit(g, 1);
    res := if one != 0 then Undef else Okay;
  }

  method XgcdTwo(a: MpInt, m: MpInt) returns (g: MpInt, x: MpInt, ghost gv: int, ghost xv: int, ghost yv: int)
    requires a.Valid() && m.Valid() && a.Value() != 0 && m.Value() != 0
    ensures fresh(x) && fresh(x.dp) && x.Valid() && fresh(g) && g.Valid()
    ensures g.Value() == gv > 0 && x.Value() == xv
    ensures Bezout(a.Mag(), m.Mag(), xv, yv, gv)
  {
    g := new MpInt.Size(DEFPREC);
    x := new MpInt.Size(DEFPREC);
    var res: MpErr;
    res, gv, xv, yv := Xgcd(a, m, g, x, null);
  }

  lemma BezoutOne(a: nat, b: nat, x: int, y: int, g: int)
    requires Bezout(a, b, x, y, g)
    ensures IsGcd(1, a, b) == (g == 1) && Combines(x, y, a, b, g) && g > 0
  {
    CombinesIs(x, y, a, b, g);
    if IsGcd(1, a, b) {
      GcdUnique(1, g, a, b);
    }
  }

  // With an output of its own the result is an inverse of a, for either sign of a, exactly
  // when a modulus that was cut down makes no difference.
  lemma InverseExact(a: nat, m: int, x: int, y: int)
    requires m > 0 && a * x + m * y == 1
    ensures var c := ModValue(x, m, false);
      && 0 <= c < m
      && (Inverse(a, c, m) <==> Abs(x) % m < DivisorUsed(x, m))
      && (Inverse(-(a as int), -c, m) <==> Inverse(a, c, m))
  {
    var c := ModValue(x, m, false);
    ModExact(x, m, false);
    ModValueRange(x, m);
    InverseWhen(a, c, x, m, y);
    InverseNegated(a, c, m);
  }

  // With the output over the modulus the same condition holds unless the remainder of x is
  // negative, which is doubled then. That is an inverse for the modulus 3 alone, and for no
  // modulus that was cut down.
  lemma InverseOver(a: nat, m: int, x: int, y: int)
    requires m > 0 && a * x + m * y == 1
    ensures var d, c := DivisorUsed(x, m), Abs(ModValue(x, m, true));
      && (Inverse(a, c, m) <==>
            if x < 0 && Abs(x) % d != 0 then m == 3 && Abs(x) % 3 == 1 else Abs(x) % m < d)
      && (Inverse(-(a as int), -(c as int), m) <==> Inverse(a, c, m))
  {
    var d, c := DivisorUsed(x, m), Abs(ModValue(x, m, true));
    InverseNegated(a, c, m);
    if x >= 0 || Abs(x) % d == 0 {
      InverseExact(a, m, x, y);
    } else if d == m {
      DoubledUncut(a, m, Abs(x), y);
    } else {
      CutEven(m);
      DoubledCut(a, Abs(x) % d, m, m / 2);
    }
  }

  lemma DoubledUncut(a: nat, m: int, x: nat, y: int)
    requires m > 0 && a * -(x as int) + m * y == 1 && x % m != 0
    ensures Inverse(a, 2 * (x % m), m) <==> m == 3 && x % 3 == 1
  {
    var r := x % m;
    NegativeMod(x, m);
    if 2 * r < m {
      InverseWhen(a, 2 * r, -(x as int), m, y);
    }
    if 3 * r == m {
      var q := DivMod(x, m);
      UnitFactor(r, a, q, y);
    }
  }

  // r is a factor of both terms of the combination
  lemma UnitFactor(r: nat, a: int, q: int, y: int)
    requires a * -((3 * r) * q + r) + (3 * r) * y == 1
    ensures r == 1
  {
    var t := 3 * y - a * (3 * q + 1);
    assert r * t == 1;
    if t <= 0 {
      MulLe(t, 0, r);
    } else if r > 1 {
      MulLe(1, t, r);
    }
  }

  // only an even number is cut down
  lemma CutEven(m: nat)
    ensures Divisor(m) != m ==> m % 2 == 0
  {}

  // an even number is no inverse modulo an even one
  lemma DoubledCut(a: int, r: int, m: int, h: int)
    requires m == 2 * h
    ensures !Inverse(a, 2 * r, m)
  {
    forall k: int ensures Multiple(k, m) != a * (2 * r) - 1 {
      assert k * (2 * h) == 2 * (k * h) && a * (2 * r) == 2 * (a * r);
    }
  }

  lemma InverseWhen(a: int, c: int, x: int, m: int, y: int)
    requires 0 <= c < m && a * x + m * y == 1
    ensures Inverse(a, c, m) <==> c == x % m
  {
    CongIf(a * x, 1, m, -y);
    if c == x % m {
      CongMod(x, m);
      CongSelf(a, m);
      CongMul(a, a, c, x, m);
      CongTrans(a * c, a * x, 1, m);
    }
    if Inverse(a, c, m) {
      SameInverse(a, c, x, m);
      CongRemainder(c, x, m);
    }
  }

  lemma InverseNegated(a: int, c: int, m: int)
    ensures Inverse(-a, -c, m) <==> Inverse(a, c, m)
  {
    assert -a * -c == a * c;
  }

  // two inverses are congruent
  lemma SameInverse(a: int, c: int, x: int, m: int)
    requires Cong(a * c, 1, m) && Cong(a * x, 1, m)
    ensures Cong(c, x, m)
  {
    CongSelf(x, m);
    CongSelf(c, m);
    CongMul(a * c, 1, x, x, m);
    CongMul(a * x, 1, c, c, m);
    assert (a * c) * x == (a * x) * c;
    CongFlip((a * c) * x, x, m);
    CongTrans(x, (a * c) * x, c, m);
  }

  lemma CongFlip(a: int, b: int, m: int)
    requires Cong(a, b, m)
    ensures Cong(b, a, m)
  {
    CongSelf(b, m);
    CongTrans(a, b, b, m);
  }
}
