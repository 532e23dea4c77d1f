/**
  The integers of src/mpi/mpi.c: a sign, a growable digit buffer and the count
  of digits in use, with the storage, comparison and shift helpers.
 */
module MpInts {
  import opened Radix

  datatype MpErr = Okay | Range | Undef

  const DEFPREC: nat := 32

  function SignedValue(sign: bool, m: nat): int {
    if sign then -(m as int) else m
  }

  class MpInt {
    var sign: bool           // true for MP_NEG
    var used: nat
    var dp: array<Digit>     // its Length is the alloc field of the C struct

    // what every routine relies on, even between padding and clamping
    ghost predicate Shape()
      reads this, dp
    {
      1 <= used <= dp.Length && ZeroFrom(dp[..], used)
    }

    ghost predicate Trimmed()
      reads this, dp
    {
      Shape() && (used > 1 ==> dp[used - 1] != 0)
    }

    ghost predicate Valid()
      reads this, dp
    {
      Trimmed() && (sign ==> Mag() > 0)
    }

    ghost function Mag(): nat
      reads this, dp
    {
      Val(dp[..])
    }

    ghost function Value(): int
      reads this, dp
    {
      SignedValue(sign, Mag())
    }

    // mw_mp_init_size
    constructor Size(prec: nat)
      requires prec > 0
      ensures Valid() && Mag() == 0 && !sign && used == 1 && dp.Length == prec
      ensures fresh(dp) && ZeroFrom(dp[..], 0)
    {
      sign := false;
      used := 1;
      dp := new Digit[prec](_ => 0);
      new;
      VZero(dp[..], 0, dp.Length);
    }

    // mw_mp_init_copy
    constructor Copy(from: MpInt)
      requires from.Trimmed()
      ensures Trimmed() && Mag() == from.Mag() && sign == from.sign && used == from.used
      ensures dp.Length == from.used && dp[..] == from.dp[..used] && fresh(dp)
    {
      sign := from.sign;
      used := from.used;
      var src, n := from.dp, from.used;
      dp := new Digit[from.used](i requires 0 <= i < n && n <= src.Length reads src => src[i]);
      new;
      ValEq(dp[..], from.dp[..], used);
    }
  }

  // Two numbers never share a digit buffer unless they are the same object.
  ghost predicate Apart(a: MpInt, b: MpInt)
    reads a, b
  {
    a == b || a.dp != b.dp
  }

  // three numbers of their own
  ghost predicate Three(u: MpInt, v: MpInt, t: MpInt)
    reads u, v, t, u.dp, v.dp, t.dp
  {
    u.Valid() && v.Valid() && t.Valid() && u != v && u != t && v != t && u.dp != v.dp && u.dp != t.dp && v.dp != t.dp
  }

  // The size facts that a clamped number gives.
  lemma MagBounds(s: seq<Digit>, n: nat)
    requires 1 <= n <= |s| && ZeroFrom(s, n) && (n > 1 ==> s[n - 1] != 0)
    ensures Val(s) == V(s, n) < Pow(n)
    ensures n > 1 ==> Pow(n - 1) <= Val(s)
    ensures Val(s) == 0 <==> n == 1 && s[0] == 0
    ensures n == 1 ==> Val(s) == s[0]
  {
    VZero(s, n, |s|);
    VBound(s, n);
    if n > 1 {
      VTop(s, n);
      ScaleMono(1, s[n - 1], n - 1);
      ScalePow(1, n - 1);
    } else {
      assert V(s, 1) == V(s, 0) + Scale(s[0], 0) == s[0];
    }
  }

  // more digits, larger number
  lemma LongerIsLarger(s: seq<Digit>, m: nat, t: seq<Digit>, n: nat)
    requires 1 <= m <= |s| && ZeroFrom(s, m) && (m > 1 ==> s[m - 1] != 0)
    requires 1 <= n <= |t| && ZeroFrom(t, n) && (n > 1 ==> t[n - 1] != 0)
    requires m < n
    ensures Val(s) < Val(t)
  {
    MagBounds(s, m);
    MagBounds(t, n);
    PowMono(m, n - 1);
  }

  // ---- storage ----

  // s_mw_mp_grow
  method Grow(mp: MpInt, min: nat)
    requires mp.Shape()
    modifies mp`dp
    ensures mp.Shape() && mp.Mag() == old(mp.Mag()) && mp.dp.Length >= min
    ensures forall i :: 0 <= i < mp.used ==> mp.dp[i] == old(mp.dp[i])
    ensures if min <= old(mp.dp.Length) then mp.dp == old(mp.dp)
            else fresh(mp.dp) && mp.dp.Length == (min + DEFPREC - 1) / DEFPREC * DEFPREC
  {
    if min > mp.dp.Length {
      var size := (min + (DEFPREC - 1)) / DEFPREC * DEFPREC;
      var src, n := mp.dp, mp.used;
      var tmp := new Digit[size](i requires 0 <= i && n <= src.Length reads src => if i < n then src[i] else 0);
      ValEq(src[..], tmp[..], n);
      mp.dp := tmp;
    }
  }

  // s_mw_mp_pad
  method Pad(mp: MpInt, min: nat)
    requires mp.Shape()
    modifies mp`used, mp`dp
    ensures mp.Shape() && mp.Mag() == old(mp.Mag())
    ensures mp.used == if min > old(mp.used) then min else old(mp.used)
    ensures forall i :: 0 <= i < old(mp.used) ==> mp.dp[i] == old(mp.dp[i])
    ensures ZeroFrom(mp.dp[..], old(mp.used))
    ensures mp.dp == old(mp.dp) || fresh(mp.dp)
  {
    if min > mp.used {
      if min > mp.dp.Length {
        Grow(mp, min);
      }
      mp.used := min;
    }
  }

  // s_mw_mp_clamp
  method Clamp(mp: MpInt)
    requires mp.Shape()
    modifies mp`used, mp`sign
    ensures mp.Trimmed() && mp.Mag() == old(mp.Mag()) && mp.used <= old(mp.used)
    ensures mp.sign == (old(mp.sign) && mp.Mag() > 0)
    ensures old(mp.Trimmed()) ==> mp.used == old(mp.used)
  {
    var du := mp.used;
    while du > 1 && mp.dp[du - 1] == 0
      invariant 1 <= du <= mp.used && ZeroFrom(mp.dp[..], du)
      invariant du < mp.used ==> mp.dp[mp.used - 1] == 0
    {
      du := du - 1;
    }
    MagBounds(mp.dp[..], du);
    if du == 1 && mp.dp[0] == 0 {
      mp.sign := false;
    }
    mp.used := du;
  }

  // s_mw_mp_exch
  method Exch(a: MpInt, b: MpInt)
    modifies a, b
    ensures a.sign == old(b.sign) && a.used == old(b.used) && a.dp == old(b.dp)
    ensures b.sign == old(a.sign) && b.used == old(a.used) && b.dp == old(a.dp)
    ensures a.Mag() == old(b.Mag()) && b.Mag() == old(a.Mag())
    ensures a.Trimmed() == old(b.Trimmed()) && b.Trimmed() == old(a.Trimmed())
  {
    var sign, used, dp := a.sign, a.used, a.dp;
    a.sign, a.used, a.dp := b.sign, b.used, b.dp;
    b.sign, b.used, b.dp := sign, used, dp;
  }

  // mw_mp_copy
  method Copy(from: MpInt, to: MpInt)
    requires from.Trimmed() && to.dp.Length > 0 && Apart(from, to)
    modifies to, to.dp
    ensures to.Trimmed() && to.Mag() == old(from.Mag())
    ensures to.sign == old(from.sign) && to.used == old(from.used)
    ensures to.dp == old(to.dp) || fresh(to.dp)
    ensures from != to ==> to.dp[..to.used] == from.dp[..from.used]
    ensures from == to ==> to.dp == old(to.dp) && to.dp[..] == old(to.dp[..])
  {
    if from == to {
      return;
    }
    ghost var s := from.dp[..];
    var src, n := from.dp, from.used;
    if to.dp.Length >= n {
      var dst := to.dp;
      forall i | 0 <= i < dst.Length {
        dst[i] := if i < n then src[i] else 0;
      }
    } else {
      to.dp := new Digit[n](i requires 0 <= i < n && n <= src.Length reads src => src[i]);
    }
    to.used := n;
    to.sign := from.sign;
    ValEq(to.dp[..], s, n);
  }

  // mw_mp_zero
  method Zero(mp: MpInt)
    requires mp.dp.Length > 0
    modifies mp, mp.dp
    ensures mp.Valid() && mp.Mag() == 0 && !mp.sign && mp.dp == old(mp.dp) && mp.used == 1
  {
    var dp := mp.dp;
    forall i | 0 <= i < dp.Length {
      dp[i] := 0;
    }
    mp.used := 1;
    mp.sign := false;
    VZero(mp.dp[..], 0, mp.dp.Length);
  }

  // mw_mp_set
  method Set(mp: MpInt, d: Digit)
    requires mp.dp.Length > 0
    modifies mp, mp.dp
    ensures mp.Valid() && mp.Mag() == d && !mp.sign && mp.dp == old(mp.dp) && mp.used == 1
  {
    Zero(mp);
    mp.dp[0] := d;
    MagBounds(mp.dp[..], 1);
  }

  // ---- comparison ----

  // s_mw_mp_cmp
  method CmpMag(a: MpInt, b: MpInt) returns (c: int)
    requires a.Trimmed() && b.Trimmed()
    ensures c == if a.Mag() < b.Mag() then -1 else if a.Mag() > b.Mag() then 1 else 0
  {
    ghost var s, t := a.dp[..], b.dp[..];
    if a.used > b.used {
      LongerIsLarger(t, b.used, s, a.used);
      return 1;
    } else if a.used < b.used {
      LongerIsLarger(s, a.used, t, b.used);
      return -1;
    }
    var n := a.used;
    MagBounds(s, n);
    MagBounds(t, n);
    var ix := n - 1;
    while ix >= 0
      invariant -1 <= ix < n
      invariant forall i :: ix < i < n ==> s[i] == t[i]
    {
      if a.dp[ix] != b.dp[ix] {
        VDiff(s, t, ix + 1, n);
        if a.dp[ix] > b.dp[ix] {
          FirstDifference(t, s, ix);
          return 1;
        } else {
          FirstDifference(s, t, ix);
          return -1;
        }
      }
      ix := ix - 1;
    }
    VEq(s, t, n);
    return 0;
  }

  lemma FirstDifference(s: seq<Digit>, t: seq<Digit>, ix: nat)
    requires ix < |s| && ix < |t| && s[ix] < t[ix]
    ensures V(s, ix + 1) < V(t, ix + 1)
  {
    VTop(s, ix + 1);
    VTop(t, ix + 1);
    ScaleMono(s[ix] + 1, t[ix], ix);
  }

  // s_mw_mp_cmw_mp_d
  method CmpMagDigit(a: MpInt, d: Digit) returns (c: int)
    requires a.Trimmed()
    ensures c == if a.Mag() < d then -1 else if a.Mag() > d then 1 else 0
  {
    MagBounds(a.dp[..], a.used);
    if a.used > 1 {
      PowMono(1, a.used - 1);
      return 1;
    }
    c := if a.dp[0] < d then -1 else if a.dp[0] > d then 1 else 0;
  }

  // mw_mp_cmw_mp_z
  method CmpZero(a: MpInt) returns (c: int)
    requires a.Valid()
    ensures c == if a.Value() < 0 then -1 else if a.Value() > 0 then 1 else 0
  {
    MagBounds(a.dp[..], a.used);
    if a.sign {
      return -1;
    } else if a.used == 1 && a.dp[0] == 0 {
      return 0;
    } else {
      return 1;
    }
  }

  // mw_mp_cmp
  method Cmp(a: MpInt, b: MpInt) returns (c: int)
    requires a.Valid() && b.Valid()
    ensures c == if a.Value() < b.Value() then -1 else if a.Value() > b.Value() then 1 else 0
  {
    if a.sign == b.sign {
      var mag := CmpMag(a, b);
      if mag == 0 {
        return 0;
      }
      c := if !a.sign then mag else -mag;
    } else if !a.sign {
      return 1;
    } else {
      return -1;
    }
  }

  // mw_mp_isodd
  method IsOdd(a: MpInt) returns (odd: bool)
    requires a.Shape()
    ensures odd == (a.Mag() % 2 == 1) == (a.Value() % 2 != 0)
  {
    odd := a.dp[0] % 2 == 1;
    LowDigit(a.dp[..], a.dp.Length);
    SameParity(a.sign, a.Mag(), a.dp[0], (a.Mag() - a.dp[0]) / RADIX);
  }

  lemma SameParity(sign: bool, m: nat, low: nat, q: int)
    requires m == low + RADIX * q
    ensures m % 2 == low % 2 && (SignedValue(sign, m) % 2 != 0) == (m % 2 == 1)
  {
    assert m == low + 2 * (0x8000 * q);
  }

  lemma {:induction false} LowDigit(s: seq<Digit>, n: nat)
    requires 0 < n <= |s|
    ensures V(s, n) % RADIX == s[0]
    ensures V(s, n) == s[0] + RADIX * ((V(s, n) - s[0]) / RADIX)
  {
    if n == 1 {
      assert V(s, 1) == V(s, 0) + Scale(s[0], 0) == s[0];
    } else {
      LowDigit(s, n - 1);
      assert V(s, n) == s[0] + RADIX * ((V(s, n - 1) - s[0]) / RADIX + Scale(s[n - 1], n - 2));
    }
  }
}
