/**
  The division of magnitudes in src/mpi/mpi.c: one quotient digit with its back-off
  loop, the loop over the digits, and s_mw_mp_div itself.
 */
module MpLongDiv {
  import opened Radix
  import opened MpInts
  import opened MpShift
  import opened MpArith
  import opened MpDiv

  // ---- one quotient digit ----

  // The guess, the product, the back-off loop and the subtraction of s_mw_mp_div.
  // The back-off loop turns at most twice exactly when the partial remainder and the
  // divisor differ in length or in their top digits.
  method QuotientDigit(rem: MpInt, b: MpInt, t: MpInt) returns (q: Digit, ghost turns: nat)
    requires rem.Trimmed() && Normalised(b) && 0 < b.Mag() <= rem.Mag() < RADIX * b.Mag()
    requires t.dp.Length > 0 && rem != b && rem != t && b != t
    requires rem.dp != b.dp && rem.dp != t.dp && b.dp != t.dp
    modifies rem, rem.dp, t, t.dp
    ensures q == old(rem.Mag()) / b.Mag() && (turns <= 2 <==> !old(SameTop(rem, b)))
    ensures old(SameTop(rem, b)) ==> turns == RADIX - 2
    ensures rem.Trimmed() && rem.Mag() == old(rem.Mag()) % b.Mag()
    ensures rem.dp == old(rem.dp) && t.dp.Length > 0 && (t.dp == old(t.dp) || fresh(t.dp))
  {
    ghost var r, m := rem.Mag(), b.Mag();
    var guess := TryGuess(rem, b, t);
    q, turns := BackOff(rem, b, t, guess);
    JustRight(r, m, q);
    var res := MagSub(rem, t);
  }

  method TryGuess(rem: MpInt, b: MpInt, t: MpInt) returns (q: Digit)
    requires rem.Trimmed() && Normalised(b) && 0 < b.Mag() <= rem.Mag() < RADIX * b.Mag()
    requires t.dp.Length > 0 && rem != t && b != t && rem.dp != t.dp && b.dp != t.dp
    modifies t, t.dp
    ensures t.Trimmed() && t.Mag() == q * b.Mag() && (t.dp == old(t.dp) || fresh(t.dp))
    ensures rem.Mag() / b.Mag() <= q
    ensures q <= rem.Mag() / b.Mag() + 2 <==> !SameTop(rem, b)
    ensures SameTop(rem, b) ==> q == RADIX - 1 && rem.Mag() / b.Mag() == 1
  {
    q := Guess(rem, b);
    QuotientPositive(rem.Mag(), b.Mag());
    TimesDivisor(b, t, q);
  }

  // t := q * b
  method TimesDivisor(b: MpInt, t: MpInt, q: Digit)
    requires Normalised(b) && b.Mag() > 0 && q >= 1 && t.dp.Length > 0 && b != t && b.dp != t.dp
    modifies t, t.dp
    ensures t.Trimmed() && t.Mag() == q * b.Mag() && (t.dp == old(t.dp) || fresh(t.dp))
  {
    ghost var s, n := b.dp[..], b.used;
    Copy(b, t);
    RoomForDigit(s, n, q, t.dp.Length);
    assert t.dp[n - 1] == s[n - 1] by {
      assert t.dp[..n][n - 1] == s[n - 1];
    }
    MulDigit(t, q);
    MulComm(b.Mag(), q);
  }

  // each turn takes the divisor once from the product; there are as many turns as the
  // guess was too large
  method BackOff(rem: MpInt, b: MpInt, t: MpInt, guess: Digit) returns (q: Digit, ghost turns: nat)
    requires rem.Trimmed() && b.Trimmed() && t.Trimmed() && b.Mag() > 0
    requires rem != t && b != t && rem.dp != t.dp && b.dp != t.dp
    requires t.Mag() == guess * b.Mag() && rem.Mag() / b.Mag() <= guess
    modifies t, t.dp
    ensures t.Trimmed() && t.Mag() == q * b.Mag() <= rem.Mag() && t.dp == old(t.dp)
    ensures q == rem.Mag() / b.Mag() && turns == guess - q
  {
    ghost var r, m := rem.Mag(), b.Mag();
    q, turns := guess, 0;
    var c := CmpMag(t, rem);
    while c > 0
      invariant t.Trimmed() && t.dp == old(t.dp)
      invariant t.Mag() == q * m && r / m <= q <= guess && turns == guess - q
      invariant c == if t.Mag() < r then -1 else if t.Mag() > r then 1 else 0
      decreases q
    {
      TooBig(r, m, q);
      q, turns := q - 1, turns + 1;
      var res := MagSub(t, b);
      c := CmpMag(t, rem);
    }
    JustRight(r, m, q);
  }

  lemma QuotientPositive(r: nat, m: nat)
    requires 0 < m <= r
    ensures r / m >= 1
  {
    DivAtLeast(r, m, 1);
  }

  // a normalised divisor passes the test of MulDigit, or needs no room
  lemma RoomForDigit(s: seq<Digit>, n: nat, q: Digit, alloc: nat)
    requires 1 <= n <= |s| && ZeroFrom(s, n) && s[n - 1] >= 0x8000 && q >= 1
    ensures HasRoom(s[n - 1], q, Val(s), n, alloc)
  {
    if q >= 2 {
      MulLe(2, q, s[n - 1]);
    } else {
      MagBounds(s, n);
    }
  }

  lemma TooBig(r: nat, m: nat, q: nat)
    requires m > 0 && q * m > r
    ensures q >= 1 && r / m <= q - 1 && (q - 1) * m == q * m - m >= 0
  {
    var t := DivMod(r, m);
    if t >= q { MulLe(q, t, m); }
    Distribute(q, -1, m);
    MulPos(q - 1, m);
  }

  lemma JustRight(r: nat, m: nat, q: nat)
    requires m > 0 && q * m <= r && r / m <= q
    ensures q == r / m && r - q * m == r % m
  {
    var t := DivMod(r, m);
    if t < q { MulLe(t + 1, q, m); Distribute(t, 1, m); }
  }

  // ---- the loop ----

  // the number spelled by the digits i..n of s
  ghost function Upper(s: seq<Digit>, i: nat, n: nat): nat
    requires i <= n <= |s|
    decreases n - i
  {
    if i == n then 0 else s[i] + RADIX * Upper(s, i + 1, n)
  }

  lemma {:induction false} UpperWhole(s: seq<Digit>, i: nat, n: nat)
    requires i <= n <= |s|
    ensures V(s, n) == V(s, i) + Scale(Upper(s, i, n), i)
    decreases n - i
  {
    if i < n {
      UpperWhole(s, i + 1, n);
      ScaleAdd(s[i], RADIX * Upper(s, i + 1, n), i);
      ScaleUp(Upper(s, i + 1, n), i);
    }
  }

  // bring one digit of a into the partial remainder, and a zero into the quotient
  method BringDown(digit: Digit, rem: MpInt, quot: MpInt)
    requires rem.Trimmed() && quot.Shape() && rem != quot && rem.dp != quot.dp
    modifies rem, rem.dp, quot, quot.dp
    ensures rem.Trimmed() && rem.Mag() == RADIX * old(rem.Mag()) + digit
    ensures quot.Shape() && quot.Mag() == RADIX * old(quot.Mag()) && quot.dp[0] == 0
    ensures rem.dp == old(rem.dp) || fresh(rem.dp)
    ensures quot.dp == old(quot.dp) || fresh(quot.dp)
    ensures rem.dp != quot.dp && quot.sign == old(quot.sign)
  {
    assert Scale(rem.Mag(), 1) == RADIX * Scale(rem.Mag(), 0);
    Lshd(rem, 1);
    assert Scale(quot.Mag(), 1) == RADIX * Scale(quot.Mag(), 0);
    Lshd(quot, 1);
    SetLow(rem, digit);
    Clamp(rem);
  }

  // DIGIT(x, 0) = d, where a zero was
  method SetLow(x: MpInt, d: Digit)
    requires x.Shape() && x.dp[0] == 0
    modifies x.dp
    ensures x.Shape() && x.Mag() == old(x.Mag()) + d
  {
    ghost var s := x.dp[..];
    x.dp[0] := d;
    ghost var t := x.dp[..];
    assert V(s, 1) == V(s, 0) + Scale(s[0], 0);
    assert V(t, 1) == V(t, 0) + Scale(t[0], 0);
    VDiff(s, t, 1, |s|);
  }

  ghost predicate AllApart(rem: MpInt, quot: MpInt, t: MpInt, ad: array<Digit>, b: MpInt)
    reads rem, quot, t, b
  {
    rem != quot && rem != t && rem != b && quot != t && quot != b && t != b
    && rem.dp != quot.dp && rem.dp != t.dp && rem.dp != b.dp && quot.dp != t.dp && quot.dp != b.dp && t.dp != b.dp
    && ad != rem.dp && ad != quot.dp && ad != t.dp && ad != b.dp
  }

  // what is known of the digits u that have been brought down
  ghost predicate Accounted(u: nat, q: nat, m: nat, r: nat) {
    u == q * m + r
  }

  lemma MoreDigits(u: nat, q: nat, m: nat, r: nat, d: nat)
    requires Accounted(u, q, m, r)
    ensures Accounted(d + RADIX * u, RADIX * q, m, RADIX * r + d)
  {
    MulAssoc(RADIX, q, m);
  }

  // find a partial substring of a that is at least b, starting below digit ix0
  method FindPartial(ad: array<Digit>, n: nat, ix0: int, b: MpInt, rem: MpInt, quot: MpInt, t: MpInt) returns (ix: int)
    requires -1 <= ix0 < n <= ad.Length && Normalised(b) && b.Mag() > 0
    requires AllApart(rem, quot, t, ad, b)
    requires rem.Trimmed() && rem.Mag() < b.Mag() && quot.Shape()
    requires Accounted(Upper(ad[..], ix0 + 1, n), quot.Mag(), b.Mag(), rem.Mag())
    modifies rem, rem.dp, quot, quot.dp
    ensures -1 <= ix <= ix0 && (ix0 >= 0 ==> ix < ix0)
    ensures AllApart(rem, quot, t, ad, b)
    ensures rem.Trimmed() && rem.Mag() < RADIX * b.Mag() && quot.Shape()
    ensures Accounted(Upper(ad[..], ix + 1, n), quot.Mag(), b.Mag(), rem.Mag())
    ensures if rem.Mag() < b.Mag() then ix == -1 else quot.dp[0] == 0
    ensures rem.dp == old(rem.dp) || fresh(rem.dp)
    ensures quot.dp == old(quot.dp) || fresh(quot.dp)
    ensures quot.sign == old(quot.sign)
  {
    ix := ix0;
    ghost var m := b.Mag();
    var c := CmpMag(rem, b);
    while c < 0 && ix >= 0
      invariant -1 <= ix <= ix0 && (c >= 0 ==> ix < ix0)
      invariant AllApart(rem, quot, t, ad, b)
      invariant rem.Trimmed() && rem.Mag() < RADIX * m && quot.Shape()
      invariant Accounted(Upper(ad[..], ix + 1, n), quot.Mag(), m, rem.Mag())
      invariant rem.Mag() >= m ==> quot.dp[0] == 0
      invariant c == if rem.Mag() < m then -1 else if rem.Mag() > m then 1 else 0
      invariant rem.dp == old(rem.dp) || fresh(rem.dp)
      invariant quot.dp == old(quot.dp) || fresh(quot.dp)
      invariant quot.sign == old(quot.sign)
    {
      ghost var q, r := quot.Mag(), rem.Mag();
      MoreDigits(Upper(ad[..], ix + 1, n), q, m, r, ad[ix]);
      BringDown(ad[ix], rem, quot);
      assert Upper(ad[..], ix, n) == ad[ix] + RADIX * Upper(ad[..], ix + 1, n);
      ix := ix - 1;
      c := CmpMag(rem, b);
    }
  }

  // the while loop of s_mw_mp_div
  method DivLoop(ad: array<Digit>, n: nat, b: MpInt, rem: MpInt, quot: MpInt, t: MpInt)
    requires 1 <= n <= ad.Length && Normalised(b) && b.Mag() > 0
    requires AllApart(rem, quot, t, ad, b) && t.dp.Length > 0
    requires rem.Trimmed() && rem.Mag() == 0 && quot.Shape() && quot.Mag() == 0
    modifies rem, rem.dp, quot, quot.dp, t, t.dp
    ensures rem.Trimmed() && quot.Shape() && quot.sign == old(quot.sign)
    ensures IsQuotient(V(ad[..], n), b.Mag(), quot.Mag(), rem.Mag())
    ensures AllApart(rem, quot, t, ad, b)
    ensures fresh(rem.dp) || rem.dp == old(rem.dp)
    ensures fresh(quot.dp) || quot.dp == old(quot.dp)
  {
    ghost var m := b.Mag();
    var ix := n - 1;
    while ix >= 0
      invariant -1 <= ix < n
      invariant AllApart(rem, quot, t, ad, b) && t.dp.Length > 0
      invariant rem.Trimmed() && rem.Mag() < m && quot.Shape() && quot.sign == old(quot.sign)
      invariant Accounted(Upper(ad[..], ix + 1, n), quot.Mag(), m, rem.Mag())
      invariant rem.dp == old(rem.dp) || fresh(rem.dp)
      invariant quot.dp == old(quot.dp) || fresh(quot.dp)
      invariant t.dp == old(t.dp) || fresh(t.dp)
      decreases ix
    {
      ix := NextDigit(ad, n, ix, b, rem, quot, t);
    }
    UpperWhole(ad[..], 0, n);
  }

  // one turn of the loop: find the next partial remainder and divide it
  method NextDigit(ad: array<Digit>, n: nat, ix0: int, b: MpInt, rem: MpInt, quot: MpInt, t: MpInt) returns (ix: int)
    requires 0 <= ix0 < n <= ad.Length && Normalised(b) && b.Mag() > 0
    requires AllApart(rem, quot, t, ad, b) && t.dp.Length > 0
    requires rem.Trimmed() && rem.Mag() < b.Mag() && quot.Shape()
    requires Accounted(Upper(ad[..], ix0 + 1, n), quot.Mag(), b.Mag(), rem.Mag())
    modifies rem, rem.dp, quot, quot.dp, t, t.dp
    ensures -1 <= ix < ix0
    ensures AllApart(rem, quot, t, ad, b) && t.dp.Length > 0
    ensures rem.Trimmed() && rem.Mag() < b.Mag() && quot.Shape() && quot.sign == old(quot.sign)
    ensures Accounted(Upper(ad[..], ix + 1, n), quot.Mag(), b.Mag(), rem.Mag())
    ensures rem.dp == old(rem.dp) || fresh(rem.dp)
    ensures quot.dp == old(quot.dp) || fresh(quot.dp)
    ensures t.dp == old(t.dp) || fresh(t.dp)
  {
    ix := FindPartial(ad, n, ix0, b, rem, quot, t);
    var c := CmpMag(rem, b);
    if c >= 0 {
      TakeDigit(Upper(ad[..], ix + 1, n), b, rem, quot, t);
    }
  }

  // its quotient digit joins the quotient of the digits u
  method TakeDigit(ghost u: nat, b: MpInt, rem: MpInt, quot: MpInt, t: MpInt)
    requires rem.Trimmed() && Normalised(b) && 0 < b.Mag() <= rem.Mag() < RADIX * b.Mag()
    requires quot.Shape() && quot.dp[0] == 0 && t.dp.Length > 0
    requires rem != b && rem != t && b != t && quot != rem && quot != t && rem.dp != b.dp && rem.dp != t.dp && b.dp != t.dp
    requires quot.dp != rem.dp && quot.dp != t.dp && quot.dp != b.dp
    requires Accounted(u, quot.Mag(), b.Mag(), rem.Mag())
    modifies rem, rem.dp, quot.dp, t, t.dp
    ensures rem.Trimmed() && rem.Mag() < b.Mag() && quot.Shape() && t.dp.Length > 0
    ensures Accounted(u, quot.Mag(), b.Mag(), rem.Mag())
    ensures rem.dp == old(rem.dp) && (t.dp == old(t.dp) || fresh(t.dp))
  {
    AddQuotient(u, quot.Mag(), b.Mag(), rem.Mag());
    var q, turns := QuotientDigit(rem, b, t);
    SetLow(quot, q);
  }

  // the remainder's own quotient joins the quotient
  lemma AddQuotient(u: nat, q: nat, m: nat, r: nat)
    requires m > 0 && Accounted(u, q, m, r)
    ensures Accounted(u, q + r / m, m, r % m) && r % m < m
  {
    var p := DivMod(r, m);
    MulComm(m, p);
    Distribute(q, p, m);
  }

  // q and r are the quotient and the remainder of x by d
  ghost predicate IsQuotient(x: nat, d: nat, q: nat, r: nat) {
    x == q * d + r && r < d
  }

  lemma QuotientIs(x: nat, d: nat)
    requires d > 0
    ensures IsQuotient(x, d, x / d, x % d)
  {
    var q := DivMod(x, d);
  }

  method MagDiv(a: MpInt, b: MpInt) returns (res: MpErr)
    requires a.Trimmed() && b.Valid() && a != b && a.dp != b.dp
    modifies a, a.dp, b, b.dp
    ensures a.Trimmed() && b.Trimmed() && a.dp != b.dp
    ensures a.dp == old(a.dp) || fresh(a.dp)
    ensures b.dp == old(b.dp) || fresh(b.dp)
    ensures res == if old(b.Mag()) == 0 then Range else Okay
    ensures res == Range ==> a.Mag() == old(a.Mag()) && b.Mag() == 0
    ensures res == Okay ==> IsQuotient(old(a.Mag()), Divisor(old(b.Mag())), a.Mag(), b.Mag())
  {
    var z := CmpZero(b);
    if z == 0 {
      return Range;
    }
    var ix := IsPow2(b);
    if ix >= 0 {
      DivisorOfPower(ix);
      DivPower(a, b, ix % 0x1_0000);
      return Okay;
    }
    DivNormalised(a, b);
    res := Okay;
  }

  // the shortcut for powers of two
  method DivPower(a: MpInt, b: MpInt, d: Digit)
    requires a.Trimmed() && b.Valid() && a != b && a.dp != b.dp
    modifies a, a.dp, b, b.dp
    ensures a.Trimmed() && b.Trimmed() && a.dp == old(a.dp) && a.dp != b.dp && (b.dp == old(b.dp) || fresh(b.dp))
    ensures IsQuotient(old(a.Mag()), Two(d), a.Mag(), b.Mag())
  {
    QuotientIs(a.Mag(), Two(d));
    Copy(a, b);
    Div2d(a, d);
    Mod2d(b, d);
  }

  // the part of s_mw_mp_div after the shortcut
  method DivNormalised(a: MpInt, b: MpInt)
    requires a.Trimmed() && b.Trimmed() && b.Mag() > 0 && a != b && a.dp != b.dp
    modifies a, a.dp, b, b.dp
    ensures a.Trimmed() && b.Trimmed() && a.dp != b.dp && fresh(a.dp) && fresh(b.dp)
    ensures IsQuotient(old(a.Mag()), old(b.Mag()), a.Mag(), b.Mag())
  {
    var quot, rem := DivideFresh(a, b);
    Exch(quot, a);
    Exch(rem, b);
  }

  // the working space of s_mw_mp_div
  method DivideFresh(a: MpInt, b: MpInt) returns (quot: MpInt, rem: MpInt)
    requires a.Trimmed() && b.Trimmed() && b.Mag() > 0 && a != b && a.dp != b.dp
    modifies a, a.dp, b, b.dp
    ensures quot.Trimmed() && rem.Trimmed() && quot != rem && quot.dp != rem.dp
    ensures fresh(quot) && fresh(rem) && fresh(quot.dp) && fresh(rem.dp)
    ensures IsQuotient(old(a.Mag()), old(b.Mag()), quot.Mag(), rem.Mag())
  {
    quot := new MpInt.Size(a.used);
    var t := new MpInt.Size(a.used);
    rem := new MpInt.Size(a.used);
    DivideInto(a, b, quot, rem, t);
  }

  method DivideInto(a: MpInt, b: MpInt, quot: MpInt, rem: MpInt, t: MpInt)
    requires a.Trimmed() && b.Trimmed() && b.Mag() > 0 && t.dp.Length > 0
    requires a != b && a != rem && a != quot && a != t && AllApart(rem, quot, t, a.dp, b)
    requires rem.Trimmed() && rem.Mag() == 0 && quot.Shape() && quot.Mag() == 0
    modifies a, a.dp, b, b.dp, quot, quot.dp, rem, rem.dp, t, t.dp
    ensures quot.Trimmed() && rem.Trimmed() && quot.dp != rem.dp
    ensures IsQuotient(old(a.Mag()), old(b.Mag()), quot.Mag(), rem.Mag())
    ensures rem.dp == old(rem.dp) || fresh(rem.dp)
    ensures quot.dp == old(quot.dp) || fresh(quot.dp)
  {
    ghost var x, y := a.Mag(), b.Mag();
    var d := Norm(a, b);
    DivPositive(y, d);
    DivideScaled(a, b, quot, rem, t);
    Denormalise(quot, rem, d, x, y);
  }

  // the last lines: the remainder is shifted back
  method Denormalise(quot: MpInt, rem: MpInt, d: Digit, ghost x: nat, ghost y: nat)
    requires rem.Trimmed() && quot.Shape() && quot != rem && quot.dp != rem.dp && y > 0
    requires IsQuotient(x * Two(d), y * Two(d), quot.Mag(), rem.Mag())
    modifies quot`used, quot`sign, rem`used, rem`sign, rem.dp
    ensures quot.Trimmed() && rem.Trimmed() && IsQuotient(x, y, quot.Mag(), rem.Mag())
  {
    Denormalised(x, y, Two(d), quot.Mag(), rem.Mag(), x * Two(d), y * Two(d));
    if d != 0 {
      Div2d(rem, d);
    }
    Clamp(quot);
    Clamp(rem);
  }

  // the loop, over all digits of the dividend
  method DivideScaled(a: MpInt, b: MpInt, quot: MpInt, rem: MpInt, t: MpInt)
    requires a.Trimmed() && Normalised(b) && b.Mag() > 0 && t.dp.Length > 0
    requires a != b && a != rem && a != quot && a != t && AllApart(rem, quot, t, a.dp, b)
    requires rem.Trimmed() && rem.Mag() == 0 && quot.Shape() && quot.Mag() == 0
    modifies rem, rem.dp, quot, quot.dp, t, t.dp
    ensures rem.Trimmed() && quot.Shape() && AllApart(rem, quot, t, a.dp, b)
    ensures IsQuotient(a.Mag(), b.Mag(), quot.Mag(), rem.Mag())
    ensures fresh(rem.dp) || rem.dp == old(rem.dp)
    ensures fresh(quot.dp) || quot.dp == old(quot.dp)
  {
    VZero(a.dp[..], a.used, a.dp.Length);
    DivLoop(a.dp, a.used, b, rem, quot, t);
  }

  lemma DivPositive(y: nat, d: nat)
    requires y > 0
    ensures y * Two(d) > 0
  {
    MulLe(1, y, Two(d));
  }

  lemma Denormalised(x: nat, y: nat, e: nat, q: nat, r: nat, xe: nat, ye: nat)
    requires y > 0 && e > 0 && xe == x * e && ye == y * e && IsQuotient(xe, ye, q, r)
    ensures IsQuotient(x, y, q, r / e)
    ensures e == 1 ==> r / e == r
  {
    MulAssoc(q, y, e);
    Distribute(x, -(q * y), e);
    var k := x - q * y;
    assert r == k * e;
    if k < 0 { MulLe(k, -1, e); }
    if k >= y { MulLe(y, k, e); }
    DivUnique(r, e, k, 0);
  }
}
