/**
  Bytes and the big-endian integers of src/common.c.
 */
module Bytes {
  type Byte = b: int | 0 <= b < 0x100
  type U16 = n: int | 0 <= n < 0x1_0000
  type U32 = n: int | 0 <= n < 0x1_0000_0000

  function PutU16(n: U16): (s: seq<Byte>)
    ensures |s| == 2
  {
    [n / 0x100, n % 0x100]
  }

  function GetU16(s: seq<Byte>): U16
    requires |s| >= 2
  {
    s[0] as int * 0x100 + s[1]
  }

  function PutU32(n: U32): (s: seq<Byte>)
    ensures |s| == 4 && (n < 0x8000_0000 <==> s[0] < 0x80)
  {
    [n / 0x100_0000, n / 0x1_0000 % 0x100, n / 0x100 % 0x100, n % 0x100]
  }

  function GetU32(s: seq<Byte>): U32
    requires |s| >= 4
  {
    s[0] as int * 0x100_0000 + s[1] as int * 0x1_0000 + s[2] as int * 0x100 + s[3]
  }

  lemma GetPutU16(n: U16, rest: seq<Byte>)
    ensures GetU16(PutU16(n) + rest) == n
  {}

  // the four bytes of a 32-bit number
  lemma Digits(n: U32)
    ensures n == n / 0x100_0000 * 0x100_0000 + n / 0x1_0000 % 0x100 * 0x1_0000 + n / 0x100 % 0x100 * 0x100 + n % 0x100
  {
    var a := n / 0x100;
    var b := a / 0x100;
    assert n == 0x100 * a + n % 0x100;
    assert a == 0x100 * b + a % 0x100;
    assert b == 0x100 * (b / 0x100) + b % 0x100;
    assert n / 0x1_0000 == b;
    assert n / 0x100_0000 == b / 0x100;
  }

  lemma GetPutU32(n: U32, rest: seq<Byte>)
    ensures GetU32(PutU32(n) + rest) == n
  {
    Digits(n);
    var s := PutU32(n) + rest;
    assert s[0] == n / 0x100_0000 && s[1] == n / 0x1_0000 % 0x100 && s[2] == n / 0x100 % 0x100 && s[3] == n % 0x100;
  }

  // ---- the number spelled by bytes ----

  // x * 256^n
  function ByteScale(x: int, n: nat): (y: int)
    ensures x >= 0 ==> y >= x
    ensures x == 0 ==> y == 0
  {
    if n == 0 then x else 0x100 * ByteScale(x, n - 1)
  }

  // the number spelled by big-endian bytes
  ghost function BigEndian(s: seq<Byte>): (v: nat) {
    if s == [] then 0 else ByteScale(s[0], |s| - 1) + BigEndian(s[1..])
  }

  lemma {:induction false} ByteScaleAdd(x: int, y: int, n: nat)
    ensures ByteScale(x + y, n) == ByteScale(x, n) + ByteScale(y, n)
    ensures x <= y ==> ByteScale(x, n) <= ByteScale(y, n)
  {
    if n > 0 {
      ByteScaleAdd(x, y, n - 1);
    }
  }

  lemma {:induction false} ByteScaleUp(x: int, n: nat)
    ensures ByteScale(0x100 * x, n) == ByteScale(x, n + 1)
  {
    if n > 0 {
      ByteScaleUp(x, n - 1);
    }
  }

  lemma {:induction false} BigEndianAppend(s: seq<Byte>, b: Byte)
    ensures BigEndian(s + [b]) == 0x100 * BigEndian(s) + b
  {
    if s == [] {
      assert [b][1..] == [];
    } else {
      assert (s + [b])[1..] == s[1..] + [b];
      BigEndianAppend(s[1..], b);
    }
  }

  lemma {:induction false} BigEndianBound(s: seq<Byte>)
    ensures BigEndian(s) < ByteScale(1, |s|)
    ensures |s| > 0 ==> ByteScale(s[0], |s| - 1) <= BigEndian(s) < ByteScale(s[0] as int + 1, |s| - 1)
  {
    if |s| > 0 {
      BigEndianBound(s[1..]);
      ByteScaleAdd(s[0], 1, |s| - 1);
      ByteScaleAdd(s[0] as int + 1, 0x100, |s| - 1);
      ByteScaleUp(1, |s| - 1);
    }
  }

  // strings of equal length that spell the same number are the same
  lemma {:induction false} BigEndianInjective(s: seq<Byte>, t: seq<Byte>)
    requires |s| == |t| && BigEndian(s) == BigEndian(t)
    ensures s == t
  {
    if |s| > 0 {
      BigEndianBound(s);
      BigEndianBound(t);
      if s[0] < t[0] {
        ByteScaleAdd(s[0] as int + 1, t[0], |s| - 1);
      } else if t[0] < s[0] {
        ByteScaleAdd(t[0] as int + 1, s[0], |s| - 1);
      }
      BigEndianInjective(s[1..], t[1..]);
    }
  }

  // the last n bytes of a number
  lemma {:induction false} BigEndianTail(s: seq<Byte>, n: nat)
    requires n <= |s|
    ensures BigEndian(s) == BigEndian(s[..|s| - n]) * ByteScale(1, n) + BigEndian(s[|s| - n..])
    decreases n
  {
    if n == 0 {
      assert s[..|s|] == s && s[|s|..] == [];
    } else {
      var but, b := s[..|s| - 1], s[|s| - 1];
      BigEndianTail(but, n - 1);
      BigEndianAppend(but, b);
      BigEndianAppend(but[|but| - (n - 1)..], b);
      assert s == but + [b] && s[|s| - n..] == but[|but| - (n - 1)..] + [b];
      assert s[..|s| - n] == but[..|but| - (n - 1)];
      TimesHigher(BigEndian(s[..|s| - n]), ByteScale(1, n - 1));
    }
  }

  lemma TimesHigher(x: int, y: int)
    ensures 0x100 * (x * y) == x * (0x100 * y)
  {}

  // what guint16_put and guint32_put write spells the number, highest byte first, and what
  // the getters read is the number that the bytes spell
  lemma U16BigEndian(n: U16)
    ensures BigEndian(PutU16(n)) == n
  {
    PairBigEndian(n / 0x100, n % 0x100);
  }

  lemma U32BigEndian(n: U32)
    ensures BigEndian(PutU32(n)) == n
  {
    var s := PutU32(n);
    Digits(n);
    QuadBigEndian(s[0], s[1], s[2], s[3]);
  }

  lemma GetU16BigEndian(s: seq<Byte>)
    requires |s| >= 2
    ensures GetU16(s) == BigEndian(s[..2])
  {
    PairBigEndian(s[0], s[1]);
    assert s[..2] == [s[0], s[1]];
  }

  lemma GetU32BigEndian(s: seq<Byte>)
    requires |s| >= 4
    ensures GetU32(s) == BigEndian(s[..4])
  {
    QuadBigEndian(s[0], s[1], s[2], s[3]);
    assert s[..4] == [s[0], s[1], s[2], s[3]];
  }

  lemma PairBigEndian(a: Byte, b: Byte)
    ensures BigEndian([a, b]) == a as int * 0x100 + b
  {
    BigEndianAppend([], a);
    BigEndianAppend([a], b);
    assert [] + [a] == [a] && [a] + [b] == [a, b];
  }

  lemma QuadBigEndian(a: Byte, b: Byte, c: Byte, d: Byte)
    ensures BigEndian([a, b, c, d]) == a as int * 0x100_0000 + b as int * 0x1_0000 + c as int * 0x100 + d
  {
    PairBigEndian(a, b);
    BigEndianAppend([a, b], c);
    BigEndianAppend([a, b, c], d);
    assert [a, b] + [c] == [a, b, c] && [a, b, c] + [d] == [a, b, c, d];
  }
}
