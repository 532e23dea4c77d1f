/**
  The binary greatest common divisor of src/mpi/mpi.c.
 */
module MpGcd {
  import opened Radix
  import opened Numbers
  import opened MpInts
  import opened MpShift
  import opened MpSigned
  import opened MpDiv
  import opened MpQuotient

  // ---- mw_mp_gcd ----

  // n is m with k more factors of two
  ghost predicate HasTwos(n: nat, m: nat, k: nat) {
    n == Two(k) * m
  }

  lemma OneMoreTwo(n: nat, m: nat, k: nat)
    requires HasTwos(n, m, k) && m % 2 == 0
    ensures HasTwos(n, m / 2, k + 1)
  {
    assert m == 2 * (m / 2) && Two(k + 1) == 2 * Two(k);
    MulSwap(Two(k), 2, m / 2);
    MulAssoc(2, Two(k), m / 2);
  }

  // Halve both numbers while both are even.
  method CommonTwos(u: MpInt, v: MpInt) returns (k: nat)
    requires Natural(u) && Natural(v) && u != v && u.dp != v.dp && u.Mag() > 0 && v.Mag() > 0
    modifies u, u.dp, v, v.dp
    ensures Natural(u) && Natural(v) && u.Mag() > 0 && v.Mag() > 0 && u.dp == old(u.dp) && v.dp == old(v.dp)
    ensures HasTwos(old(u.Mag()), u.Mag(), k) && HasTwos(old(v.Mag()), v.Mag(), k)
    ensures u.Mag() % 2 == 1 || v.Mag() % 2 == 1
  {
    k := 0;
    var ou := IsOdd(u);
    var ov := IsOdd(v);
    while !ou && !ov
      invariant Natural(u) && Natural(v) && u.Mag() > 0 && v.Mag() > 0 && u.dp == old(u.dp) && v.dp == old(v.dp)
      invariant HasTwos(old(u.Mag()), u.Mag(), k) && HasTwos(old(v.Mag()), v.Mag(), k)
      invariant ou == (u.Mag() % 2 == 1) && ov == (v.Mag() % 2 == 1)
      decreases u.Mag()
    {
      ghost var x, y := u.Mag(), v.Mag();
      OneMoreTwo(old(u.Mag()), x, k);
      OneMoreTwo(old(v.Mag()), y, k);
      HalveEven(u, v);
      k := k + 1;
      ou := IsOdd(u);
      ov := IsOdd(v);
    }
  }

  method HalveEven(u: MpInt, v: MpInt)
    requires Natural(u) && Natural(v) && u != v && u.dp != v.dp && u.Mag() > 0 && v.Mag() > 0
    requires u.Mag() % 2 == 0 && v.Mag() % 2 == 0
    modifies u, u.dp, v, v.dp
    ensures Natural(u) && Natural(v) && u.dp == old(u.dp) && v.dp == old(v.dp)
    ensures 0 < u.Mag() == old(u.Mag()) / 2 && 0 < v.Mag() == old(v.Mag()) / 2
  {
    Div2(u);
    Div2(v);
  }

  // Strip the factors of two from t; against an odd partner no divisor is lost.
  method StripTwos(t: MpInt, ghost v: int)
    requires t.Valid() && t.Mag() > 0 && v % 2 == 1
    modifies t, t.dp
    ensures t.Valid() && 0 < t.Mag() <= old(t.Mag()) && t.Mag() % 2 == 1 && t.dp == old(t.dp)
    ensures t.sign == old(t.sign) && SameDivisors(old(t.Mag()), v, t.Mag(), v)
  {
    var odd := IsOdd(t);
    while !odd
      invariant t.Valid() && 0 < t.Mag() <= old(t.Mag()) && t.dp == old(t.dp) && t.sign == old(t.sign)
      invariant SameDivisors(old(t.Mag()), v, t.Mag(), v)
      invariant odd == (t.Mag() % 2 == 1)
      decreases t.Mag()
    {
      HalveDivisors(t.Mag() / 2, v);
      Div2(t);
      odd := IsOdd(t);
    }
  }

  // Between turns t holds the number that replaces u (when positive) or v (when
  // negative), and its partner is odd.
  ghost predicate SteinState(u: int, v: int, t: int, a: int, b: int) {
    && t != 0 && u > 0 && v > 0
    && (t > 0 ==> v % 2 == 1 && SameDivisors(a, b, t, v))
    && (t < 0 ==> u % 2 == 1 && SameDivisors(a, b, u, -t))
  }

  function Larger(u: int, v: int, t: int): int {
    if t > 0 then t + v else u - t
  }

  // one turn of the main loop
  method SteinTurn(u: MpInt, v: MpInt, t: MpInt, ghost a: int, ghost b: int)
    requires Three(u, v, t) && SteinState(u.Value(), v.Value(), t.Value(), a, b)
    modifies u, u.dp, v, v.dp, t, t.dp
    ensures Three(u, v, t) && u.Value() > 0 && v.Value() > 0 && t.Value() == u.Value() - v.Value()
    ensures u.Value() % 2 == 1 && v.Value() % 2 == 1 && SameDivisors(a, b, u.Value(), v.Value())
    ensures u.Value() + v.Value() <= old(Larger(u.Value(), v.Value(), t.Value()))
    ensures u.dp == old(u.dp) || fresh(u.dp)
    ensures v.dp == old(v.dp) || fresh(v.dp)
    ensures t.dp == old(t.dp) || fresh(t.dp)
  {
    StripTwos(t, if t.sign then u.Value() else v.Value());
    Replace(u, v, t);
    var res := Sub(u, v, t);
  }

  // t goes back to u, or its negation to v
  method Replace(u: MpInt, v: MpInt, t: MpInt)
    requires Three(u, v, t) && t.Value() != 0
    modifies u, u.dp, v, v.dp
    ensures Three(u, v, t)
    ensures u.Value() == if t.Value() > 0 then t.Value() else old(u.Value())
    ensures v.Value() == if t.Value() > 0 then old(v.Value()) else -t.Value()
    ensures u.dp == old(u.dp) || fresh(u.dp)
    ensures v.dp == old(v.dp) || fresh(v.dp)
  {
    var z := CmpZero(t);
    if z > 0 {
      Copy(t, u);
    } else {
      Copy(t, v);
      v.sign := !t.sign;
    }
  }

  lemma NextTurn(u: int, v: int, a: int, b: int)
    requires u > 0 && v > 0 && u != v && u % 2 == 1 && v % 2 == 1 && SameDivisors(a, b, u, v)
    ensures SteinState(u, v, u - v, a, b) && Larger(u, v, u - v) < u + v
  {
    SubtractDivisors(u, v);
  }

  // the main loop
  method SteinLoop(u: MpInt, v: MpInt, t: MpInt, ghost a: int, ghost b: int)
    requires Three(u, v, t) && SteinState(u.Value(), v.Value(), t.Value(), a, b)
    modifies u, u.dp, v, v.dp, t, t.dp
    ensures Natural(u) && v.Valid() && IsGcd(u.Value(), a, b) && u.Value() % 2 == 1
    ensures u.dp != v.dp && (u.dp == old(u.dp) || fresh(u.dp)) && (v.dp == old(v.dp) || fresh(v.dp))
  {
    var done := false;
    while !done
      invariant Three(u, v, t)
      invariant !done ==> SteinState(u.Value(), v.Value(), t.Value(), a, b)
      invariant done ==> u.Value() == v.Value() > 0 && u.Value() % 2 == 1 && SameDivisors(a, b, u.Value(), u.Value())
      invariant u.dp == old(u.dp) || fresh(u.dp)
      invariant v.dp == old(v.dp) || fresh(v.dp)
      invariant t.dp == old(t.dp) || fresh(t.dp)
      decreases !done, Larger(u.Value(), v.Value(), t.Value())
    {
      SteinTurn(u, v, t, a, b);
      var c := CmpMagDigit(t, 0);
      if c == 0 {
        done := true;
      } else {
        NextTurn(u.Value(), v.Value(), a, b);
      }
    }
    GcdFromDivisors(u.Value(), a, b, u.Value());
  }

  // the working copies of mw_mp_gcd and both its loops; k is a gsize counter
  method GcdParts(a: MpInt, b: MpInt) returns (u: MpInt, v: MpInt, k: nat)
    requires a.Valid() && b.Valid() && a.Mag() > 0 && b.Mag() > 0
    ensures fresh(u) && fresh(v) && fresh(u.dp) && fresh(v.dp) && u != v && u.dp != v.dp
    ensures Natural(u) && v.Valid() && u.Value() % 2 == 1
    ensures IsGcd(Two(k) * u.Value(), a.Mag(), b.Mag())
  {
    var t := new MpInt.Size(DEFPREC);
    u, v, k := GcdCopies(a, b);
    ghost var x, y := u.Mag(), v.Mag();
    SteinFrom(u, v, t);
    GcdShared(k, u.Value(), x, y, a.Mag(), b.Mag());
  }

  // without their common power of two
  method GcdCopies(a: MpInt, b: MpInt) returns (u: MpInt, v: MpInt, k: nat)
    requires a.Valid() && b.Valid() && a.Mag() > 0 && b.Mag() > 0
    ensures fresh(u) && fresh(v) && fresh(u.dp) && fresh(v.dp) && u != v && u.dp != v.dp
    ensures Natural(u) && Natural(v) && u.Mag() > 0 && v.Mag() > 0 && (u.Mag() % 2 == 1 || v.Mag() % 2 == 1)
    ensures HasTwos(a.Mag(), u.Mag(), k) && HasTwos(b.Mag(), v.Mag(), k)
  {
    u := CopyAbs(a);
    v := CopyAbs(b);
    k := CommonTwos(u, v);
  }

  lemma GcdShared(k: nat, g: int, x: nat, y: nat, a: nat, b: nat)
    requires IsGcd(g, x, y) && HasTwos(a, x, k) && HasTwos(b, y, k)
    ensures IsGcd(Two(k) * g, a, b)
  {
    GcdScale(k, g, x, y);
  }

  method CopyAbs(a: MpInt) returns (u: MpInt)
    requires a.Valid()
    ensures fresh(u) && fresh(u.dp) && Natural(u) && u.Mag() == a.Mag()
  {
    u := new MpInt.Copy(a);
    u.sign := false;
  }

  method SteinFrom(u: MpInt, v: MpInt, t: MpInt)
    requires Three(u, v, t) && Natural(u) && Natural(v) && u.Mag() > 0 && v.Mag() > 0
    requires u.Mag() % 2 == 1 || v.Mag() % 2 == 1
    modifies u, u.dp, v, v.dp, t, t.dp
    ensures Natural(u) && v.Valid() && IsGcd(u.Value(), old(u.Value()), old(v.Value())) && u.Value() % 2 == 1
    ensures u.dp != v.dp && (u.dp == old(u.dp) || fresh(u.dp)) && (v.dp == old(v.dp) || fresh(v.dp))
  {
    ghost var x, y := u.Value(), v.Value();
    StartStein(u, v, t);
    SteinLoop(u, v, t, x, y);
  }

  // t := -v when u is odd, and u otherwise
  method StartStein(u: MpInt, v: MpInt, t: MpInt)
    requires Three(u, v, t) && Natural(u) && Natural(v) && u.Mag() > 0 && v.Mag() > 0
    requires u.Mag() % 2 == 1 || v.Mag() % 2 == 1
    modifies t, t.dp
    ensures Three(u, v, t) && SteinState(u.Value(), v.Value(), t.Value(), u.Value(), v.Value())
    ensures t.dp == old(t.dp) || fresh(t.dp)
  {
    var odd := IsOdd(u);
    if odd {
      Copy(v, t);
      t.sign := !v.sign;
    } else {
      Copy(u, t);
    }
  }

  // mw_mp_gcd. The common power of two is rebuilt from a 16-bit count.
  method Gcd(a: MpInt, b: MpInt, c: MpInt) returns (res: MpErr, ghost g: int, ghost k: nat)
    requires a.Valid() && b.Valid() && c.Valid() && Apart(a, b) && Apart(a, c) && Apart(b, c)
    modifies c, c.dp
    ensures c.Valid() && (c.dp == old(c.dp) || fresh(c.dp))
    ensures res == if old(a.Value()) == 0 && old(b.Value()) == 0 then Range else Okay
    ensures res == Range ==> c.Value() == old(c.Value())
    ensures res == Okay && old(a.Value()) == 0 ==> c.Value() == old(b.Mag())
    ensures res == Okay && old(b.Value()) == 0 ==> c.Value() == old(a.Mag())
    ensures old(a.Value()) != 0 && old(b.Value()) != 0 ==> g % 2 == 1 && IsGcd(Two(k) * g, old(a.Mag()), old(b.Mag()))
    ensures old(a.Value()) != 0 && old(b.Value()) != 0 ==> c.Value() == Two(k % 0x1_0000) * g
  {
    g, k := 1, 0;
    var za := CmpZero(a);
    var zb := CmpZero(b);
    if za == 0 && zb == 0 {
      return Range, g, k;
    }
    if za == 0 {
      AbsValue(b, c);
      return Okay, g, k;
    } else if zb == 0 {
      AbsValue(a, c);
      return Okay, g, k;
    }
    res, g, k := GcdNonzero(a, b, c);
  }

  method GcdNonzero(a: MpInt, b: MpInt, c: MpInt) returns (res: MpErr, ghost g: int, ghost k: nat)
    requires a.Valid() && b.Valid() && c.Valid() && a.Mag() > 0 && b.Mag() > 0
    modifies c, c.dp
    ensures res == Okay && c.Valid() && (c.dp == old(c.dp) || fresh(c.dp))
    ensures g % 2 == 1 && IsGcd(Two(k) * g, old(a.Mag()), old(b.Mag())) && c.Value() == Two(k % 0x1_0000) * g
  {
    var u, v, count := GcdParts(a, b);
    g, k := u.Value(), count;
    TwoExpt(v, count % 0x1_0000);
    res := Mul(u, v, c);
    MulComm(g, Two(k % 0x1_0000));
  }

  // It is the greatest common divisor exactly when the common power of two is below
  // 2^65536.
  lemma GcdExact(g: int, k: nat, a: int, b: int)
    requires g % 2 == 1 && IsGcd(Two(k) * g, a, b)
    ensures IsGcd(Two(k % 0x1_0000) * g, a, b) <==> k < 0x1_0000
  {
    if IsGcd(Two(k % 0x1_0000) * g, a, b) {
      GcdUnique(Two(k) * g, Two(k % 0x1_0000) * g, a, b);
      MulCancel(Two(k), Two(k % 0x1_0000), g);
      TwoInjective(k, k % 0x1_0000);
    }
  }
}
