/**
  Signed division and reduction of src/mpi/mpi.c. Outputs may replace inputs, and an
  output that is not wanted is null.
 */
module MpQuotient {
  import opened Radix
  import opened MpInts
  import opened MpSigned
  import opened MpDiv
  import opened MpLongDiv
  import opened Numbers

  function Abs(x: int): nat {
    if x < 0 then -x else x
  }

  // q and r are the quotient and the remainder of x by d, rounding toward zero
  ghost predicate IsTruncated(x: int, d: int, q: int, r: int) {
    x == q * d + r && Abs(r) < Abs(d) && (r != 0 ==> (r < 0) == (x < 0))
  }

  ghost function Truncated(x: int, d: int): int
    requires d != 0
  {
    if (x < 0) == (d < 0) then Abs(x) / Abs(d) else -(Abs(x) / Abs(d))
  }

  ghost function Remainder(x: int, d: int): int
    requires d != 0
  {
    if x < 0 then -(Abs(x) % Abs(d)) else Abs(x) % Abs(d)
  }

  lemma TruncatedIs(x: int, d: int)
    requires d != 0
    ensures IsTruncated(x, d, Truncated(x, d), Remainder(x, d))
  {
    var q := DivMod(Abs(x), Abs(d));
    MulComm(Abs(d), q);
    SignedProducts(q, Abs(d));
  }

  lemma TruncatedUnique(x: int, d: int, q: int, r: int, q2: int, r2: int)
    requires d != 0 && IsTruncated(x, d, q, r) && IsTruncated(x, d, q2, r2)
    ensures q == q2 && r == r2
  {
    Distribute(q, -q2, d);
    SmallMultiple(q - q2, d, r2 - r);
  }

  lemma SmallMultiple(k: int, d: int, e: int)
    requires k * d == e && Abs(e) < Abs(d)
    ensures k == 0 && e == 0
  {
    if k > 0 {
      if d > 0 { MulLe(1, k, d); } else { MulLe(1, k, -d); }
    } else if k < 0 {
      if d > 0 { MulLe(1, -k, d); } else { MulLe(1, -k, -d); }
    }
  }

  // What mw_mp_div divides by: a huge power of two is cut down, but only when the
  // dividend is larger than it.
  ghost function DivisorUsed(x: int, y: int): int
    requires y != 0
    ensures DivisorUsed(x, y) != 0 && (DivisorUsed(x, y) < 0) == (y < 0)
    ensures Abs(y) < Two(0x1_0000) ==> DivisorUsed(x, y) == y
  {
    var d := if Abs(x) > Abs(y) then Divisor(Abs(y)) else Abs(y);
    if y < 0 then -d else d
  }

  // The quotient and the remainder are those by y exactly when the divisor was not
  // cut down.
  lemma DivisorUsedExact(x: int, y: int, q: int, r: int)
    requires y != 0 && IsTruncated(x, DivisorUsed(x, y), q, r)
    ensures IsTruncated(x, y, q, r) <==> DivisorUsed(x, y) == y
  {
    var d := DivisorUsed(x, y);
    if d != y && IsTruncated(x, y, q, r) {
      if q != 0 {
        MulCancel(d, y, q);
      }
    }
  }

  ghost function Owned(x: MpInt?): set<object>
    reads x
  {
    if x == null then {} else {x as object, x.dp as object}
  }

  // an output that is wanted may be any number, even an input
  ghost predicate Out(x: MpInt?, a: MpInt, b: MpInt)
    reads x, a, b, if x == null then {} else {x.dp}
  {
    x != null ==> x.Valid() && Apart(x, a) && Apart(x, b)
  }

  ghost predicate Different(q: MpInt?, r: MpInt?)
    reads q, r
  {
    q != null && r != null ==> q != r && q.dp != r.dp
  }

  ghost predicate Holds(x: MpInt?, v: int)
    reads x, if x == null then {} else {x.dp}
  {
    x != null ==> x.Valid() && x.Value() == v
  }

  twostate predicate Kept(x: MpInt?)
    reads x
  {
    x != null ==> x.dp == old(x.dp) || fresh(x.dp)
  }

  // mw_mp_div
  method Div(a: MpInt, b: MpInt, q: MpInt?, r: MpInt?) returns (res: MpErr, ghost qv: int, ghost rv: int)
    requires a.Valid() && b.Valid() && Apart(a, b) && Out(q, a, b) && Out(r, a, b) && Different(q, r)
    modifies Owned(q), Owned(r)
    ensures res == if old(b.Value()) == 0 then Range else Okay
    ensures Kept(q) && Kept(r)
    ensures old(b.Value()) != 0 ==> IsTruncated(old(a.Value()), DivisorUsed(old(a.Value()), old(b.Value())), qv, rv)
    ensures Holds(q, if old(b.Value()) != 0 then qv else old(if q == null then 0 else q.Value()))
    ensures Holds(r, if old(b.Value()) != 0 then rv else old(if r == null then 0 else r.Value()))
  {
    var z := CmpZero(b);
    if z == 0 {
      return Range, 0, 0;
    }
    res, qv, rv := DivNonzero(a, b, q, r);
  }

  // mw_mp_div for a nonzero divisor
  method DivNonzero(a: MpInt, b: MpInt, q: MpInt?, r: MpInt?) returns (res: MpErr, ghost qv: int, ghost rv: int)
    requires a.Valid() && b.Valid() && Apart(a, b) && Out(q, a, b) && Out(r, a, b) && Different(q, r)
    requires b.Value() != 0
    modifies Owned(q), Owned(r)
    ensures res == Okay && Kept(q) && Kept(r)
    ensures IsTruncated(old(a.Value()), DivisorUsed(old(a.Value()), old(b.Value())), qv, rv)
    ensures Holds(q, qv) && Holds(r, rv)
  {
    var cmp := CmpMag(a, b);
    if cmp < 0 {
      qv, rv := DivSmaller(a, b, q, r);
      res := Okay;
    } else if cmp == 0 {
      qv, rv := DivEqual(a, b, q, r);
      res := Okay;
    } else {
      res, qv, rv := DivLarger(a, b, q, r);
    }
  }

  // a result goes to its output, if it is needed
  method Deliver(tmp: MpInt, x: MpInt?)
    requires tmp.Valid() && tmp != x
    modifies tmp, if x == null then {} else {x}
    ensures Holds(x, old(tmp.Value())) && (x != null ==> x.dp == old(tmp.dp))
  {
    if x != null {
      Exch(tmp, x);
    }
  }

  // the branch of mw_mp_div for |a| < |b|
  method DivSmaller(a: MpInt, b: MpInt, q: MpInt?, r: MpInt?) returns (ghost qv: int, ghost rv: int)
    requires a.Valid() && b.Valid() && Out(q, a, b) && Out(r, a, b) && Different(q, r)
    requires a.Mag() < b.Mag()
    modifies Owned(q), Owned(r)
    ensures Kept(q) && Kept(r)
    ensures IsTruncated(old(a.Value()), DivisorUsed(old(a.Value()), old(b.Value())), qv, rv)
    ensures Holds(q, qv) && Holds(r, rv)
  {
    qv, rv := 0, a.Value();
    if r != null {
      Copy(a, r);
    }
    if q != null {
      Zero(q);
    }
  }

  // the branch for |a| = |b|
  method DivEqual(a: MpInt, b: MpInt, q: MpInt?, r: MpInt?) returns (ghost qv: int, ghost rv: int)
    requires a.Valid() && b.Valid() && Out(q, a, b) && Out(r, a, b) && Different(q, r)
    requires a.Mag() == b.Mag() > 0
    modifies Owned(q), Owned(r)
    ensures Kept(q) && Kept(r)
    ensures IsTruncated(old(a.Value()), DivisorUsed(old(a.Value()), old(b.Value())), qv, rv)
    ensures Holds(q, qv) && Holds(r, rv)
  {
    qv, rv := if a.sign != b.sign then -1 else 1, 0;
    if q != null {
      var qneg := a.sign != b.sign;
      Set(q, 1);
      if qneg {
        q.sign := true;
      }
    }
    if r != null {
      Zero(r);
    }
  }

  // the branch that has to divide
  method DivLarger(a: MpInt, b: MpInt, q: MpInt?, r: MpInt?) returns (res: MpErr, ghost qv: int, ghost rv: int)
    requires a.Valid() && b.Valid() && Out(q, a, b) && Out(r, a, b) && Different(q, r)
    requires a.Mag() > b.Mag() > 0
    modifies Owned(q), Owned(r)
    ensures res == Okay && Kept(q) && Kept(r)
    ensures IsTruncated(old(a.Value()), DivisorUsed(old(a.Value()), old(b.Value())), qv, rv)
    ensures Holds(q, qv) && Holds(r, rv)
  {
    var qtmp, rtmp;
    res, qtmp, rtmp, qv, rv := DivTemps(a, b);
    Deliver(qtmp, q);
    Deliver(rtmp, r);
  }

  // the division itself, with the results still in temporaries
  method DivTemps(a: MpInt, b: MpInt) returns (res: MpErr, qtmp: MpInt, rtmp: MpInt, ghost qv: int, ghost rv: int)
    requires a.Valid() && b.Valid() && a.Mag() > b.Mag() > 0
    ensures res == Okay && qtmp.Valid() && rtmp.Valid()
    ensures fresh(qtmp) && fresh(qtmp.dp) && fresh(rtmp) && fresh(rtmp.dp) && qtmp != rtmp && qtmp.dp != rtmp.dp
    ensures IsTruncated(a.Value(), DivisorUsed(a.Value(), b.Value()), qv, rv)
    ensures qtmp.Value() == qv && rtmp.Value() == rv
  {
    ghost var x, y := a.Mag(), b.Mag();
    res, qtmp, rtmp := DivCopies(a, b);
    SetSigns(qtmp, rtmp, a.sign, b.sign, x, y);
    qv, rv := qtmp.Value(), rtmp.Value();
  }

  method DivCopies(a: MpInt, b: MpInt) returns (res: MpErr, qtmp: MpInt, rtmp: MpInt)
    requires a.Valid() && b.Valid() && a.Mag() > b.Mag() > 0
    ensures res == Okay && qtmp.Trimmed() && rtmp.Trimmed()
    ensures fresh(qtmp) && fresh(qtmp.dp) && fresh(rtmp) && fresh(rtmp.dp) && qtmp != rtmp && qtmp.dp != rtmp.dp
    ensures IsQuotient(a.Mag(), Divisor(b.Mag()), qtmp.Mag(), rtmp.Mag())
  {
    qtmp := new MpInt.Copy(a);
    rtmp := new MpInt.Copy(b);
    res := MagDiv(qtmp, rtmp);
  }

  // the signs of the dividend and of the divisor go into the results
  method SetSigns(qtmp: MpInt, rtmp: MpInt, s: bool, t: bool, ghost x: nat, ghost y: nat)
    requires qtmp.Trimmed() && rtmp.Trimmed() && qtmp != rtmp && qtmp.dp != rtmp.dp
    requires x > y > 0 && IsQuotient(x, Divisor(y), qtmp.Mag(), rtmp.Mag())
    modifies qtmp`sign, rtmp`sign
    ensures qtmp.Valid() && rtmp.Valid()
    ensures IsTruncated(SignedValue(s, x), DivisorUsed(SignedValue(s, x), SignedValue(t, y)), qtmp.Value(), rtmp.Value())
  {
    SignedQuotient(s, x, t, y, qtmp.Mag(), rtmp.Mag());
    SetSign(rtmp, s);
    SetSign(qtmp, s != t);
  }

  lemma SignedQuotient(s: bool, x: nat, t: bool, y: nat, m: nat, n: nat)
    requires x > y > 0 && IsQuotient(x, Divisor(y), m, n)
    ensures IsTruncated(SignedValue(s, x), DivisorUsed(SignedValue(s, x), SignedValue(t, y)),
                        SignedValue(s != t, m), SignedValue(s, n))
  {
    SignedProducts(m, Divisor(y));
  }

  lemma SignedProducts(m: int, d: int)
    ensures (-m) * d == -(m * d) && m * (-d) == -(m * d) && (-m) * (-d) == m * d
  {}

  ghost predicate Natural(x: MpInt)
    reads x, x.dp
  {
    x.Valid() && !x.sign
  }

  // what mw_mp_div makes of v / d
  ghost function Quotient(v: int, d: int): int
    requires d != 0
  {
    Truncated(v, DivisorUsed(v, d))
  }

  // mw_mp_div with the quotient placed over the dividend
  method DivideBy(t: MpInt, d: MpInt) returns (res: MpErr)
    requires t.Valid() && d.Valid() && t != d && t.dp != d.dp
    modifies t, t.dp
    ensures t.Valid() && res == if d.Value() == 0 then Range else Okay
    ensures res == Okay ==> t.Value() == Quotient(old(t.Value()), d.Value())
    ensures t.dp == old(t.dp) || fresh(t.dp)
  {
    ghost var v, q, r := t.Value(), 0, 0;
    res, q, r := Div(t, d, t, null);
    if res == Okay {
      TruncatedValue(v, DivisorUsed(v, d.Value()), q, r);
    }
  }

  lemma TruncatedValue(v: int, d: int, q: int, r: int)
    requires d != 0 && IsTruncated(v, d, q, r)
    ensures q == Truncated(v, d)
  {
    TruncatedIs(v, d);
    TruncatedUnique(v, d, q, r, Truncated(v, d), Remainder(v, d));
  }

  // q is x / m, rounded down
  ghost predicate IsFloor(q: int, x: int, m: int) {
    q * m <= x < (q + 1) * m
  }

  lemma FloorBounds(x: nat, m: int, q: int, r: int)
    requires m > 0 && IsTruncated(x, m, q, r)
    ensures q >= 0 && IsFloor(q, x, m)
  {
    Distribute(q, 1, m);
    if q < 0 { MulLe(q, -1, m); }
  }

  // ---- reduction ----

  // What mw_mp_mod computes from the remainder. When the output replaces the modulus,
  // a negative remainder is added to itself instead of to the modulus.
  function Reduced(r: int, m: int, overModulus: bool): int {
    if r >= 0 then r else if overModulus then 2 * r else r + m
  }

  // the same for a modulus that may be cut down
  ghost function ModValue(x: int, m: int, overModulus: bool): int
    requires m > 0
  {
    Reduced(Remainder(x, DivisorUsed(x, m)), m, overModulus)
  }

  method AddModulus(c: MpInt, m: MpInt)
    requires c.Valid() && m.Valid() && Apart(c, m) && c.Value() < 0
    modifies c, c.dp
    ensures c.Valid() && (c.dp == old(c.dp) || fresh(c.dp))
    ensures c.Value() == old(c.Value()) + old(m.Value())
  {
    var res := Add(c, m, c);
  }

  // the branch of mw_mp_mod for |a| < m
  method ModSmaller(a: MpInt, m: MpInt, c: MpInt)
    requires a.Valid() && m.Valid() && c.Valid() && Apart(a, m) && Apart(c, a) && Apart(c, m) && a.Mag() < m.Mag()
    modifies c, c.dp
    ensures c.Valid() && (c.dp == old(c.dp) || fresh(c.dp))
    ensures c.Value() == Reduced(old(a.Value()), old(m.Value()), c == m)
  {
    Copy(a, c);
    var z := CmpZero(a);
    if z < 0 {
      AddModulus(c, m);
    }
  }

  // mw_mp_mod
  method Mod(a: MpInt, m: MpInt, c: MpInt) returns (res: MpErr, ghost qv: int, ghost rv: int)
    requires a.Valid() && m.Valid() && c.Valid() && Apart(a, m) && Apart(c, a) && Apart(c, m)
    modifies c, c.dp
    ensures c.Valid() && (c.dp == old(c.dp) || fresh(c.dp))
    ensures res == if old(m.Value()) < 0 || (old(m.Value()) == 0 && old(a.Value()) != 0) then Range else Okay
    ensures res == Range ==> c.Value() == old(c.Value())
    ensures old(m.Value()) == 0 && res == Okay ==> c.Value() == 0
    ensures old(m.Value()) > 0 ==> IsTruncated(old(a.Value()), DivisorUsed(old(a.Value()), old(m.Value())), qv, rv)
    ensures old(m.Value()) > 0 ==> c.Value() == Reduced(rv, old(m.Value()), c == m)
  {
    qv, rv := 0, a.Value();
    if m.sign {
      return Range, qv, rv;
    }
    var mag := CmpMag(a, m);
    if mag > 0 {
      res, qv, rv := ModLarger(a, m, c);
    } else if mag < 0 {
      ModSmaller(a, m, c);
      res := Okay;
    } else {
      qv, rv := if a.sign then -1 else 1, 0;
      Zero(c);
      res := Okay;
    }
  }

  // the branch of mw_mp_mod for |a| > m
  method ModLarger(a: MpInt, m: MpInt, c: MpInt) returns (res: MpErr, ghost qv: int, ghost rv: int)
    requires a.Valid() && m.Valid() && c.Valid() && Apart(a, m) && Apart(c, a) && Apart(c, m)
    requires m.Value() >= 0
    modifies c, c.dp
    ensures c.Valid() && (c.dp == old(c.dp) || fresh(c.dp))
    ensures res == if old(m.Value()) == 0 then Range else Okay
    ensures res == Range ==> c.Value() == old(c.Value())
    ensures res == Okay ==> IsTruncated(old(a.Value()), DivisorUsed(old(a.Value()), old(m.Value())), qv, rv)
    ensures res == Okay ==> c.Value() == Reduced(rv, old(m.Value()), c == m)
  {
    res, qv, rv := Div(a, m, null, c);
    if res != Okay {
      return;
    }
    if c.sign {
      AddModulus(c, m);
    }
  }

  lemma ModValueIs(x: int, m: int, q: int, r: int, overModulus: bool)
    requires m > 0 && IsTruncated(x, DivisorUsed(x, m), q, r)
    ensures Reduced(r, m, overModulus) == ModValue(x, m, overModulus)
  {
    var d := DivisorUsed(x, m);
    TruncatedIs(x, d);
    TruncatedUnique(x, d, q, r, Truncated(x, d), Remainder(x, d));
  }

  // It is x mod m exactly when a divisor that was cut down makes no difference, and no
  // negative remainder met an output placed over the modulus.
  lemma ModExact(x: int, m: int, overModulus: bool)
    requires m > 0
    ensures var d := DivisorUsed(x, m);
      ModValue(x, m, overModulus) == x % m <==> Abs(x) % m < d && !(overModulus && x < 0 && Abs(x) % d != 0)
  {
    var d := DivisorUsed(x, m);
    var c := 1;
    if d != m {
      c := DivisorDivides(m);
    }
    SmallerModulus(Abs(x), d, m, c);
    if x < 0 {
      NegativeMod(Abs(x), m);
    }
  }

  // a remainder by a divisor of the modulus is that by the modulus when it is small
  lemma SmallerModulus(x: nat, d: nat, m: nat, c: nat)
    requires d > 0 && m > 0 && m == c * d
    ensures x % m == x % d <==> x % m < d
    ensures x % d == 0 && x % m < d ==> x % m == 0
    ensures x % m == 0 ==> x % d == 0
  {
    RemainderTwice(x, d, m, c);
    if x % m < d {
      DivUnique(x % m, d, 0, x % m);
    }
  }

  lemma RemainderTwice(x: nat, d: nat, m: nat, c: nat)
    requires d > 0 && m > 0 && m == c * d
    ensures x % d == x % m % d
  {
    var e := x % m;
    var q := DivMod(x, m);
    var p := DivMod(e, d);
    Recombine(q, c, d, p, e % d);
    MulComm(m, q);
    MulComm(d, p);
    DivUnique(x, d, q * c + p, e % d);
  }

  lemma Recombine(q: int, c: int, d: int, p: int, f: int)
    ensures q * (c * d) + (p * d + f) == (q * c + p) * d + f
  {
    MulAssoc(q, c, d);
    Distribute(q * c, p, d);
  }

  lemma NegativeMod(x: int, m: int)
    requires x >= 0 && m > 0
    ensures -x % m == if x % m == 0 then 0 else m - x % m
  {
    var q: int := DivMod(x, m);
    MulComm(m, q);
    if x % m == 0 {
      DivUnique(-x, m, -q, 0);
    } else {
      Distribute(-q, -1, m);
      DivUnique(-x, m, -q - 1, m - x % m);
    }
  }

  // mw_mp_mod with the remainder placed over the dividend
  method ModInPlace(a: MpInt, m: MpInt) returns (res: MpErr)
    requires a.Valid() && Natural(m) && a != m && a.dp != m.dp && m.Mag() > 0
    modifies a, a.dp
    ensures res == Okay && Natural(a) && a.Mag() == ModValue(old(a.Value()), m.Mag(), false)
    ensures a.dp == old(a.dp) || fresh(a.dp)
  {
    ghost var x, y, q, r := a.Value(), m.Value(), 0, 0;
    res, q, r := Mod(a, m, a);
    ModValueIs(x, y, q, r, false);
    ModValueRange(x, y);
  }

  lemma ModValueRange(x: int, m: int)
    requires m > 0
    ensures 0 <= ModValue(x, m, false) < m
  {
    TruncatedIs(x, DivisorUsed(x, m));
  }

  lemma ReducedCong(x: int, m: int, q: int, r: int)
    requires m > 0 && IsTruncated(x, m, q, r)
    ensures 0 <= Reduced(r, m, false) < m && Cong(Reduced(r, m, false), x, m)
  {
    if r >= 0 {
      CongIf(x, r, m, q);
    } else {
      Distribute(q, -1, m);
      CongIf(x, r + m, m, q - 1);
    }
  }
}
