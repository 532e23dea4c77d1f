/**
  Little-endian digit strings over the radix 2^16 (src/mpi/mpi-types.h).
  V(s, n) is the number spelled by the first n digits of s.
 */
module Radix {

  const RADIX: int := 0x1_0000
  const DIGIT_BIT: int := 16

  type Digit = d: int | 0 <= d < 0x1_0000
  // guint32: an assignment to a Word that could wrap does not verify
  type Word = w: int | 0 <= w < 0x1_0000_0000

  // RADIX^n
  function Pow(n: nat): (p: nat)
    ensures p >= 1
  {
    if n == 0 then 1 else RADIX * Pow(n - 1)
  }

  // 2^n
  function Two(n: nat): (p: nat)
    ensures p >= 1
  {
    if n == 0 then 1 else 2 * Two(n - 1)
  }

  // x * RADIX^n, spelled so that unfolding it stays linear
  function Scale(x: int, n: nat): (y: int)
    ensures x >= 0 ==> y >= x
    ensures x == 0 ==> y == 0
    ensures x < 0 ==> y < 0
  {
    if n == 0 then x else RADIX * Scale(x, n - 1)
  }

  ghost function V(s: seq<Digit>, n: nat): (v: nat)
    requires n <= |s|
  {
    if n == 0 then 0 else V(s, n - 1) + Scale(s[n - 1], n - 1)
  }

  ghost function Val(s: seq<Digit>): nat {
    V(s, |s|)
  }

  ghost predicate ZeroFrom(s: seq<Digit>, n: nat) {
    forall i :: n <= i < |s| ==> s[i] == 0
  }

  ghost predicate SameFrom(s: seq<Digit>, t: seq<Digit>, n: nat) {
    |s| == |t| && forall i :: n <= i < |s| ==> s[i] == t[i]
  }

  // ---- powers ----

  lemma {:induction false} PowAdd(m: nat, n: nat)
    ensures Pow(m + n) == Pow(m) * Pow(n)
  {
    if m > 0 {
      PowAdd(m - 1, n);
      calc {
        Pow(m + n);
        RADIX * Pow(m - 1 + n);
        RADIX * (Pow(m - 1) * Pow(n));
        Pow(m) * Pow(n);
      }
    }
  }

  lemma PowMono(m: nat, n: nat)
    requires m <= n
    ensures Pow(m) <= Pow(n)
    ensures m < n ==> RADIX * Pow(m) <= Pow(n)
  {
    if m < n {
      PowMono(m, n - 1);
    }
  }

  lemma {:induction false} TwoAdd(m: nat, n: nat)
    ensures Two(m + n) == Two(m) * Two(n)
  {
    if m > 0 {
      TwoAdd(m - 1, n);
    }
  }

  lemma TwoMono(m: nat, n: nat)
    requires m <= n
    ensures Two(m) <= Two(n)
    ensures m < n ==> 2 * Two(m) <= Two(n)
  {
    if m < n {
      TwoMono(m, n - 1);
    }
  }

  lemma TwoSixteen()
    ensures Two(16) == RADIX
  {
    assert Two(4) == 16;
    TwoAdd(4, 4);
    TwoAdd(8, 8);
  }

  lemma {:induction false} PowIsTwo(n: nat)
    ensures Pow(n) == Two(DIGIT_BIT * n)
  {
    if n > 0 {
      PowIsTwo(n - 1);
      TwoSixteen();
      TwoAdd(16, DIGIT_BIT * (n - 1));
    }
  }

  // ---- scaling ----

  lemma {:induction false} ScalePow(x: int, n: nat)
    ensures Scale(x, n) == x * Pow(n)
  {
    if n > 0 {
      ScalePow(x, n - 1);
      assert RADIX * (x * Pow(n - 1)) == x * (RADIX * Pow(n - 1));
    }
  }

  lemma {:induction false} ScaleAdd(x: int, y: int, n: nat)
    ensures Scale(x + y, n) == Scale(x, n) + Scale(y, n)
  {
    if n > 0 {
      ScaleAdd(x, y, n - 1);
    }
  }

  lemma {:induction false} ScaleUp(x: int, n: nat)
    ensures Scale(RADIX * x, n) == Scale(x, n + 1)
  {
    if n > 0 {
      ScaleUp(x, n - 1);
    }
  }

  lemma ScaleMono(x: int, y: int, n: nat)
    requires x <= y
    ensures Scale(x, n) <= Scale(y, n)
    ensures x < y ==> Scale(x, n) < Scale(y, n)
  {
    ScaleAdd(x, y - x, n);
  }

  lemma ScaleMul(k: int, x: int, z: int, n: nat)
    requires z == k * x
    ensures Scale(z, n) == k * Scale(x, n)
  {
    ScalePow(z, n);
    ScalePow(x, n);
    MulAssoc(k, x, Pow(n));
  }

  lemma {:induction false} ScaleScale(x: int, m: nat, n: nat)
    ensures Scale(Scale(x, m), n) == Scale(x, m + n)
  {
    if n > 0 {
      ScaleScale(x, m, n - 1);
    }
  }

  // a word split into its low digit and its carry
  lemma Carry(w: int, n: nat)
    ensures Scale(w % RADIX, n) + Scale(w / RADIX, n + 1) == Scale(w, n)
  {
    ScaleUp(w / RADIX, n);
    ScaleAdd(w % RADIX, RADIX * (w / RADIX), n);
  }

  // ---- values ----

  lemma {:induction false} VEq(s: seq<Digit>, t: seq<Digit>, n: nat)
    requires n <= |s| && n <= |t|
    requires forall i :: 0 <= i < n ==> s[i] == t[i]
    ensures V(s, n) == V(t, n)
  {
    if n > 0 {
      VEq(s, t, n - 1);
    }
  }

  lemma {:induction false} VBound(s: seq<Digit>, n: nat)
    requires n <= |s|
    ensures V(s, n) < Pow(n)
  {
    if n > 0 {
      VBound(s, n - 1);
      ScaleMono(s[n - 1], RADIX - 1, n - 1);
      ScaleAdd(RADIX - 1, 1, n - 1);
      ScalePow(1, n - 1);
      ScaleUp(1, n - 1);
      ScalePow(1, n);
    }
  }

  // equal upper digits contribute equally
  lemma {:induction false} VDiff(s: seq<Digit>, t: seq<Digit>, k: nat, n: nat)
    requires k <= n <= |s| && n <= |t|
    requires forall i :: k <= i < n ==> s[i] == t[i]
    ensures V(s, n) - V(s, k) == V(t, n) - V(t, k)
  {
    if k < n {
      VDiff(s, t, k, n - 1);
    }
  }

  lemma {:induction false} VZero(s: seq<Digit>, k: nat, n: nat)
    requires k <= n <= |s|
    requires forall i :: k <= i < n ==> s[i] == 0
    ensures V(s, n) == V(s, k)
  {
    if k < n {
      VZero(s, k, n - 1);
    }
  }

  // buffers that agree on n digits and hold zeros above spell the same number
  lemma ValEq(s: seq<Digit>, t: seq<Digit>, n: nat)
    requires n <= |s| && n <= |t| && ZeroFrom(s, n) && ZeroFrom(t, n)
    requires forall i :: 0 <= i < n ==> s[i] == t[i]
    ensures Val(s) == Val(t) == V(s, n)
  {
    VEq(s, t, n);
    VZero(s, n, |s|);
    VZero(t, n, |t|);
  }

  lemma VTop(s: seq<Digit>, n: nat)
    requires 0 < n <= |s|
    ensures Scale(s[n - 1], n - 1) <= V(s, n) < Scale(s[n - 1] as int + 1, n - 1)
  {
    VBound(s, n - 1);
    ScaleAdd(s[n - 1], 1, n - 1);
    ScalePow(1, n - 1);
  }

  lemma VMono(s: seq<Digit>, m: nat, n: nat)
    requires m <= n <= |s|
    ensures V(s, m) <= V(s, n)
  {
    if m < n {
      VMono(s, m, n - 1);
    }
  }

  lemma ScaleSum(v: int, x: int, m: nat, k: nat)
    ensures Scale(v + Scale(x, m), k) == Scale(v, k) + Scale(x, k + m)
  {
    ScaleAdd(v, Scale(x, m), k);
    ScaleScale(x, m, k);
  }

  // the digits above k, moved down by k, are the quotient by RADIX^k
  lemma {:induction false} VSplit(s: seq<Digit>, t: seq<Digit>, k: nat, n: nat)
    requires k + n <= |s| && n <= |t|
    requires forall i :: 0 <= i < n ==> s[k + i] == t[i]
    ensures V(s, k + n) == V(s, k) + Scale(V(t, n), k)
  {
    if n > 0 {
      VSplit(s, t, k, n - 1);
      ScaleSum(V(t, n - 1), t[n - 1], n - 1, k);
    }
  }

  // ---- small nonlinear facts ----

  lemma MulComm(a: int, b: int)
    ensures a * b == b * a
  {}

  lemma MulLe(a: int, b: int, c: int)
    requires a <= b && c >= 0
    ensures a * c <= b * c
  {}

  lemma MulSwap(a: int, b: int, c: int)
    ensures a * (b * c) == b * (a * c)
  {}

  lemma Distribute(a: int, b: int, k: int)
    ensures (a + b) * k == a * k + b * k
  {}

  lemma MulPos(a: int, b: int)
    requires a >= 0 && b >= 0
    ensures a * b >= 0
  {}

  lemma MulAssoc(a: int, b: int, c: int)
    ensures (a * b) * c == a * (b * c)
  {}

  lemma DivMod(x: nat, d: nat) returns (q: nat)
    requires d > 0
    ensures q == x / d && x == d * q + x % d && 0 <= x % d < d
  {
    q := x / d;
  }

  lemma DivUnique(x: int, d: int, q: int, r: int)
    requires d > 0 && x == q * d + r && 0 <= r < d
    ensures x / d == q && x % d == r
  {
    var q1, r1 := x / d, x % d;
    assert x == d * q1 + r1;
    if q1 < q {
      MulLe(q1 + 1, q, d);
      assert false;
    } else if q1 > q {
      MulLe(q + 1, q1, d);
      assert false;
    }
  }

  lemma MulCancel(a: int, b: int, c: int)
    requires c != 0 && a * c == b * c
    ensures a == b
  {}

  lemma MulLtCancel(a: int, b: int, c: int)
    requires c > 0 && a * c < b * c
    ensures a < b
  {
    if b <= a { MulLe(b, a, c); }
  }

  // a product of two digits fits a word
  function Times(d: Digit, x: Digit): (p: Word)
    ensures p <= 0xFFFE_0001
  {
    MulLe(d, 0xFFFF, x);
    MulPos(d, x);
    d as int * x as int
  }
}
