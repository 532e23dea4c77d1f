/**
  Signed addition, subtraction, multiplication and squaring of src/mpi/mpi.c. Any
  of the three arguments may be the same object.
 */
module MpSigned {
  import opened Radix
  import opened MpInts
  import opened MpArith
  import opened MpMul

  // |c| := |big| - |small|, where c may be either of them; c takes big's sign.
  // The branches of mw_mp_add and mw_mp_sub that subtract.
  method SubMagnitudes(big: MpInt, small: MpInt, c: MpInt) returns (res: MpErr)
    requires big.Valid() && small.Valid() && c.Valid() && big.Mag() > small.Mag()
    requires Apart(big, small) && Apart(big, c) && Apart(small, c)
    modifies c, c.dp
    ensures res == Okay && c.Valid() && c.Mag() == old(big.Mag()) - old(small.Mag()) && c.sign == old(big.sign)
    ensures c.dp == old(c.dp) || fresh(c.dp)
  {
    if c == small {
      var tmp := new MpInt.Copy(big);
      res := MagSub(tmp, small);
      if res != Okay {
        return;
      }
      Exch(tmp, c);
    } else {
      if c != big {
        Copy(big, c);
      }
      res := MagSub(c, small);
      if res != Okay {
        return;
      }
    }
  }

  // |c| := |a| + |b|, where c may be either of them. The branches of mw_mp_add and
  // mw_mp_sub that add.
  method SumMagnitudes(a: MpInt, b: MpInt, c: MpInt)
    requires a.Valid() && b.Valid() && c.Valid()
    requires Apart(a, b) && Apart(a, c) && Apart(b, c)
    modifies c, c.dp
    ensures c.Trimmed() && c.Mag() == old(a.Mag()) + old(b.Mag())
    ensures c.sign == old(if c == b then b.sign else a.sign)
    ensures c.dp == old(c.dp) || fresh(c.dp)
  {
    if c == b {
      MagAdd(c, a);
    } else {
      if c != a {
        Copy(a, c);
      }
      MagAdd(c, b);
    }
  }

  // mw_mp_add
  method Add(a: MpInt, b: MpInt, c: MpInt) returns (res: MpErr)
    requires a.Valid() && b.Valid() && c.Valid()
    requires Apart(a, b) && Apart(a, c) && Apart(b, c)
    modifies c, c.dp
    ensures res == Okay && c.Valid() && c.Value() == old(a.Value()) + old(b.Value())
    ensures c.dp == old(c.dp) || fresh(c.dp)
  {
    if a.sign == b.sign {
      SumMagnitudes(a, b, c);
    } else {
      var cmp := CmpMag(a, b);
      if cmp > 0 {
        res := SubMagnitudes(a, b, c);
        if res != Okay {
          return;
        }
      } else if cmp == 0 {
        Zero(c);
        return Okay;
      } else {
        res := SubMagnitudes(b, a, c);
        if res != Okay {
          return;
        }
      }
    }
    TrimZero(c);
    res := Okay;
  }

  // the last lines of mw_mp_add and mw_mp_sub: zero is never negative
  method TrimZero(c: MpInt)
    requires c.Trimmed()
    modifies c`sign
    ensures c.Valid() && c.sign == (old(c.sign) && c.Mag() > 0)
  {
    MagBounds(c.dp[..], c.used);
    if c.used == 1 && c.dp[0] == 0 {
      c.sign := false;
    }
  }

  // a sign written over a number that may have become zero
  method SetSign(c: MpInt, sign: bool)
    requires c.Trimmed()
    modifies c`sign
    ensures c.Valid() && c.sign == (sign && c.Mag() > 0)
    ensures c.Value() == SignedValue(sign, c.Mag()) && c.Mag() == old(c.Mag())
  {
    c.sign := sign;
    TrimZero(c);
  }

  // mw_mp_sub
  method Sub(a: MpInt, b: MpInt, c: MpInt) returns (res: MpErr)
    requires a.Valid() && b.Valid() && c.Valid()
    requires Apart(a, b) && Apart(a, c) && Apart(b, c)
    modifies c, c.dp
    ensures res == Okay && c.Valid() && c.Value() == old(a.Value()) - old(b.Value())
    ensures c.dp == old(c.dp) || fresh(c.dp)
  {
    if a.sign != b.sign {
      SumMagnitudes(b, a, c);
      if c != a {
        c.sign := a.sign;
      }
    } else {
      var cmp := CmpMag(a, b);
      if cmp > 0 {
        res := SubMagnitudes(a, b, c);
        if res != Okay {
          return;
        }
      } else if cmp == 0 {
        Zero(c);
        return Okay;
      } else {
        res := SubMagnitudes(b, a, c);
        if res != Okay {
          return;
        }
        c.sign := !b.sign;
      }
    }
    TrimZero(c);
    res := Okay;
  }

  // mw_mp_abs
  method AbsValue(a: MpInt, b: MpInt)
    requires a.Valid() && b.Valid() && Apart(a, b)
    modifies b, b.dp
    ensures b.Valid() && b.Value() == old(a.Mag()) && b.Mag() == old(a.Mag())
    ensures b.dp == old(b.dp) || fresh(b.dp)
  {
    Copy(a, b);
    b.sign := false;
  }

  // mw_mp_neg
  method Neg(a: MpInt, b: MpInt)
    requires a.Valid() && b.Valid() && Apart(a, b)
    modifies b, b.dp
    ensures b.Valid() && b.Value() == -old(a.Value())
    ensures b.dp == old(b.dp) || fresh(b.dp)
  {
    Copy(a, b);
    var cmp := CmpMagDigit(b, 0);
    b.sign := if cmp == 0 then false else !b.sign;
  }

  // mw_mp_mul
  method Mul(a: MpInt, b: MpInt, c: MpInt) returns (res: MpErr)
    requires a.Valid() && b.Valid() && c.Valid()
    requires Apart(a, b) && Apart(a, c) && Apart(b, c)
    modifies c, c.dp
    ensures res == Okay && c.Valid() && c.Value() == old(a.Value()) * old(b.Value())
    ensures c.dp == old(c.dp) || fresh(c.dp)
  {
    ghost var sa, sb, m, n := a.sign, b.sign, a.Mag(), b.Mag();
    var sgn := a.sign != b.sign;
    MulMagnitudes(a, b, c);
    var cmp := CmpMagDigit(c, 0);
    c.sign := if !sgn || cmp == 0 then false else sgn;
    ProductSign(sa, sb, m, n);
    res := Okay;
  }

  lemma ProductSign(sa: bool, sb: bool, m: nat, n: nat)
    ensures SignedValue(sa, m) * SignedValue(sb, n) == if sa == sb then m * n else -(m * n)
    ensures m * n >= 0
  {
    SignedProduct(SignedValue(sa, m), SignedValue(sb, n), m, n);
  }

  method MulMagnitudes(a: MpInt, b: MpInt, c: MpInt)
    requires a.Valid() && b.Valid() && c.Valid()
    requires Apart(a, b) && Apart(a, c) && Apart(b, c)
    modifies c, c.dp
    ensures c.Valid() && c.Mag() == old(a.Mag()) * old(b.Mag()) && !c.sign
    ensures c.dp == old(c.dp) || fresh(c.dp)
  {
    if c == b {
      MagMul(c, a);
    } else {
      Copy(a, c);
      MagMul(c, b);
    }
  }

  lemma SignedProduct(x: int, y: int, m: nat, n: nat)
    requires (x == m || x + m == 0) && (y == n || y + n == 0)
    ensures x == m && y == n ==> x * y == m * n
    ensures x + m == 0 && y + n == 0 ==> x * y == m * n
    ensures x == m && y + n == 0 ==> x * y + m * n == 0
    ensures x + m == 0 && y == n ==> x * y + m * n == 0
    ensures m * n >= 0
  {}

  // mw_mp_sqr
  method Sqr(a: MpInt, b: MpInt)
    requires a.Valid() && b.Valid() && Apart(a, b)
    modifies b, b.dp
    ensures b.Valid() && b.Value() == old(a.Value()) * old(a.Value())
    ensures b.dp == old(b.dp) || fresh(b.dp)
  {
    ghost var x, m := a.Value(), a.Mag();
    Copy(a, b);
    MagSqr(b);
    b.sign := false;
    SignedProduct(x, x, m, m);
  }

  // mw_mp_add_d
  method AddDigit(a: MpInt, d: Digit, b: MpInt) returns (res: MpErr)
    requires a.Valid() && b.Valid() && Apart(a, b)
    modifies b, b.dp
    ensures res == Okay && b.Valid() && b.Value() == old(a.Value()) + d
    ensures b.dp == old(b.dp) || fresh(b.dp)
  {
    Copy(a, b);
    res := Okay;
    if !b.sign {
      MagAddDigit(b, d);
    } else {
      var cmp := CmpMagDigit(b, d);
      if cmp >= 0 {
        res := MagSubDigit(b, d);
      } else {
        b.sign := false;
        SmallDigit(b, d);
      }
    }
  }

  lemma OneDigit(s: seq<Digit>, n: nat, d: Digit)
    requires 1 <= n <= |s| && ZeroFrom(s, n) && (n > 1 ==> s[n - 1] != 0) && Val(s) < d
    ensures n == 1 && Val(s) == s[0]
  {
    MagBounds(s, n);
    if n > 1 {
      PowMono(1, n - 1);
    }
  }

  // DIGIT(b, 0) = d - DIGIT(b, 0), for |b| < d
  method SmallDigit(b: MpInt, d: Digit)
    requires b.Trimmed() && b.Mag() < d
    modifies b.dp
    ensures b.Trimmed() && b.Mag() == d - old(b.Mag())
  {
    OneDigit(b.dp[..], b.used, d);
    b.dp[0] := d - b.dp[0];
    MagBounds(b.dp[..], b.used);
  }

  // mw_mp_sub_d
  method SubDigit(a: MpInt, d: Digit, b: MpInt) returns (res: MpErr)
    requires a.Valid() && b.Valid() && Apart(a, b)
    modifies b, b.dp
    ensures res == Okay && b.Valid() && b.Value() == old(a.Value()) - d
    ensures b.dp == old(b.dp) || fresh(b.dp)
  {
    Copy(a, b);
    res := Okay;
    if b.sign {
      MagAddDigit(b, d);
    } else {
      var cmp := CmpMagDigit(b, d);
      if cmp >= 0 {
        res := MagSubDigit(b, d);
        if res != Okay {
          return;
        }
      } else {
        Neg(b, b);
        SmallDigit(b, d);
        b.sign := true;
      }
    }
    TrimZero(b);
  }
}
