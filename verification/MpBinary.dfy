/**
  Reading and writing unsigned big-endian bytes (src/mpi/mpi.c), and the import and
  export of keys built on them (src/cipher.c).
 */
module MpBinary {
  import opened Bytes
  import opened Radix
  import opened MpInts
  import opened MpShift
  import opened MpArith
  import opened MpSigned
  import opened MpQuotient

  // ---- base 256 ----

  // the number spelled by the first n little-endian bytes
  ghost function LittleEndian(s: seq<Byte>, n: nat): (v: nat)
    requires n <= |s|
  {
    if n == 0 then 0 else LittleEndian(s, n - 1) + ByteScale(s[n - 1], n - 1)
  }

  // n is the least number of bytes that m needs
  ghost predicate IsBinSize(m: nat, n: nat) {
    n >= 1 && m < ByteScale(1, n) && (n > 1 ==> ByteScale(1, n - 1) <= m)
  }

  lemma {:induction false} ByteScaleDigits(x: int, k: nat)
    ensures ByteScale(x, 2 * k) == Scale(x, k)
  {
    if k > 0 {
      ByteScaleDigits(x, k - 1);
    }
  }

  lemma {:induction false} ByteScaleGrows(m: nat, n: nat)
    requires m <= n
    ensures ByteScale(1, m) <= ByteScale(1, n)
  {
    if m < n {
      ByteScaleGrows(m, n - 1);
    }
  }

  // a number split into its low byte and the rest
  lemma ByteCarry(d: int, n: nat)
    ensures ByteScale(d % 0x100, n) + ByteScale(d / 0x100, n + 1) == ByteScale(d, n)
  {
    ByteScaleUp(d / 0x100, n);
    ByteScaleAdd(d % 0x100, 0x100 * (d / 0x100), n);
  }

  lemma BinSizeUnique(x: nat, m: nat, n: nat)
    requires IsBinSize(x, m) && IsBinSize(x, n)
    ensures m == n
  {
    if m < n {
      ByteScaleGrows(m, n - 1);
    } else if n < m {
      ByteScaleGrows(n, m - 1);
    }
  }

  lemma TailMod(s: seq<Byte>, n: nat)
    requires n <= |s|
    ensures BigEndian(s[|s| - n..]) == BigEndian(s) % ByteScale(1, n)
  {
    BigEndianTail(s, n);
    BigEndianBound(s[|s| - n..]);
    DivUnique(BigEndian(s), ByteScale(1, n), BigEndian(s[..|s| - n]), BigEndian(s[|s| - n..]));
  }

  // A number has one minimal string.
  lemma MinimalUnique(s: seq<Byte>, t: seq<Byte>)
    requires BigEndian(s) == BigEndian(t) && IsBinSize(BigEndian(s), |s|) && IsBinSize(BigEndian(t), |t|)
    ensures s == t
  {
    BinSizeUnique(BigEndian(s), |s|, |t|);
    BigEndianInjective(s, t);
  }

  // a string is minimal when its first byte is not zero, or it is that byte alone
  lemma MinimalString(s: seq<Byte>)
    requires |s| > 0
    ensures IsBinSize(BigEndian(s), |s|) <==> (|s| > 1 ==> s[0] != 0)
  {
    BigEndianBound(s);
    if s[0] != 0 {
      ByteScaleAdd(1, s[0], |s| - 1);
    }
  }

  // ---- reading ----

  // mw_mp_read_unsigned_bin
  method ReadUnsignedBin(mp: MpInt, str: seq<Byte>)
    requires mp.dp.Length > 0 && |str| > 0
    modifies mp, mp.dp
    ensures Natural(mp) && mp.Value() == BigEndian(str) && (mp.dp == old(mp.dp) || fresh(mp.dp))
  {
    Zero(mp);
    for ix := 0 to |str|
      invariant Natural(mp) && mp.Mag() == BigEndian(str[..ix])
      invariant mp.dp == old(mp.dp) || fresh(mp.dp)
    {
      assert str[..ix + 1] == str[..ix] + [str[ix]];
      BigEndianAppend(str[..ix], str[ix]);
      AppendByte(mp, str[ix]);
    }
    assert str[..|str|] == str;
  }

  // one turn of the loop: shift left by CHAR_BIT and add a byte
  method AppendByte(mp: MpInt, b: Byte)
    requires Natural(mp)
    modifies mp, mp.dp
    ensures Natural(mp) && mp.Mag() == 0x100 * old(mp.Mag()) + b && (mp.dp == old(mp.dp) || fresh(mp.dp))
  {
    TwoEight();
    Mul2d(mp, 8);
    var res := AddDigit(mp, b, mp);
  }

  lemma TwoEight()
    ensures Two(8) == 0x100
  {
    assert Two(4) == 16;
    TwoAdd(4, 4);
  }

  // v >> (8 * n)
  function ShiftedRight(v: nat, n: nat): nat {
    if n == 0 then v else ShiftedRight(v, n - 1) / 0x100
  }

  lemma {:induction false} ShiftedOut(v: nat, n: nat)
    requires v < ByteScale(1, n)
    ensures ShiftedRight(v, n) == 0
  {
    ShiftedBelow(v, n, 0);
  }

  lemma {:induction false} ShiftedBelow(v: nat, n: nat, k: nat)
    requires v < ByteScale(1, n + k)
    ensures ShiftedRight(v, n) < ByteScale(1, k)
  {
    if n > 0 {
      ShiftedBelow(v, n - 1, k + 1);
    }
  }

  const SIZEOF_LONG: nat := 8

  // mw_mp_set_int: z is a long, and labs of the least one is itself as an unsigned long
  method SetInt(mp: MpInt, z: int)
    requires mp.dp.Length > 0 && -0x8000_0000_0000_0000 <= z < 0x8000_0000_0000_0000
    modifies mp, mp.dp
    ensures mp.Valid() && mp.Value() == z && (mp.dp == old(mp.dp) || fresh(mp.dp))
  {
    var v: nat := if z < 0 then -z else z;
    Zero(mp);
    if z == 0 {
      return;
    }
    LongFits();
    ShiftedOut(v, SIZEOF_LONG);
    var ix: int := SIZEOF_LONG - 1;
    while ix >= 0
      invariant -1 <= ix < SIZEOF_LONG && Natural(mp) && mp.Mag() == ShiftedRight(v, ix + 1)
      invariant mp.dp == old(mp.dp) || fresh(mp.dp)
    {
      AppendLow(mp, (ShiftedRight(v, ix) % 0x100) as Byte);
      ix := ix - 1;
    }
    if z < 0 {
      mp.sign := true;
    }
  }

  lemma LongFits()
    ensures ByteScale(1, SIZEOF_LONG) == 0x1_0000_0000_0000_0000
  {
    assert ByteScale(1, 4) == 0x1_0000_0000;
    assert ByteScale(1, 8) == 0x100 * (0x100 * (0x100 * (0x100 * ByteScale(1, 4))));
  }

  // the same step with s_mw_mp_add_d, which ignores the sign
  method AppendLow(mp: MpInt, b: Byte)
    requires Natural(mp)
    modifies mp, mp.dp
    ensures Natural(mp) && mp.Mag() == 0x100 * old(mp.Mag()) + b && (mp.dp == old(mp.dp) || fresh(mp.dp))
  {
    TwoEight();
    Mul2d(mp, 8);
    MagAddDigit(mp, b);
  }

  // ---- writing ----

  // mw_mp_unsigned_bin_size
  method UnsignedBinSize(mp: MpInt) returns (count: nat)
    requires mp.Trimmed()
    ensures IsBinSize(mp.Mag(), count)
  {
    var used := mp.used;
    ghost var s := mp.dp[..];
    MagBounds(s, used);
    if used == 1 && mp.dp[0] == 0 {
      return 1;
    }
    count := (used - 1) * 2;
    var top: int := mp.dp[used - 1];
    VTop(s, used);
    ByteScaleDigits(top, used - 1);
    ByteScaleDigits(top + 1, used - 1);
    while top != 0
      invariant 0 <= top < 0x1_0000 && count >= 2 * (used - 1)
      invariant top == 0 ==> IsBinSize(mp.Mag(), count)
      invariant top != 0 ==> ByteScale(top, count) <= mp.Mag() < ByteScale(top + 1, count)
      decreases top
    {
      TopStep(mp.Mag(), top, count);
      count := count + 1;
      top := top / 0x100;
    }
  }

  // one byte less of the top digit
  lemma TopStep(m: nat, top: int, count: nat)
    requires top > 0 && ByteScale(top, count) <= m < ByteScale(top + 1, count)
    ensures top / 0x100 == 0 ==> IsBinSize(m, count + 1)
    ensures top / 0x100 != 0 ==> ByteScale(top / 0x100, count + 1) <= m < ByteScale(top / 0x100 + 1, count + 1)
  {
    var q := top / 0x100;
    ByteScaleUp(q, count);
    ByteScaleUp(q + 1, count);
    ByteScaleAdd(0x100 * q, top, count);
    ByteScaleAdd(top + 1, 0x100 * (q + 1), count);
    ByteScaleAdd(1, top, count);
  }

  // The bytes written so far, with d still to be written above them, spell v.
  ghost predicate Written(s: seq<Byte>, pos: nat, d: int, v: int) {
    pos <= |s| && d >= 0 && LittleEndian(s, pos) + ByteScale(d, pos) == v
  }

  lemma WrittenStep(s: seq<Byte>, t: seq<Byte>, pos: nat, d: int, v: int)
    requires Written(s, pos, d, v) && pos < |s| && t == s[pos := d % 0x100]
    ensures Written(t, pos + 1, d / 0x100, v)
  {
    LittleEndianEq(s, t, pos);
    ByteCarry(d, pos);
  }

  lemma {:induction false} LittleEndianEq(s: seq<Byte>, t: seq<Byte>, n: nat)
    requires n <= |s| && n <= |t| && forall i :: 0 <= i < n ==> s[i] == t[i]
    ensures LittleEndian(s, n) == LittleEndian(t, n)
  {
    if n > 0 {
      LittleEndianEq(s, t, n - 1);
    }
  }

  // the inner for loop of mw_mp_to_unsigned_bin: both bytes of a lower digit
  method WriteDigit(str: array<Byte>, pos: nat, d: Digit, ghost v: int)
    requires pos + 2 <= str.Length && Written(str[..], pos, d, v)
    modifies str
    ensures Written(str[..], pos + 2, 0, v) && str[pos + 2..] == old(str[pos + 2..])
  {
    var e: int := d;
    for ix := 0 to 2
      invariant 0 <= e && (ix == 0 ==> e < 0x1_0000) && (ix == 1 ==> e < 0x100) && (ix == 2 ==> e == 0)
      invariant Written(str[..], pos + ix, e, v) && str[pos + 2..] == old(str[pos + 2..])
    {
      ghost var s := str[..];
      str[pos + ix] := e % 0x100;
      WrittenStep(s, str[..], pos + ix, e, v);
      e := e / 0x100;
    }
  }

  // the top digit: high order zeroes are not written
  method WriteTop(str: array<Byte>, pos: nat, d: Digit, ghost v: int, ghost n: nat) returns (spos: nat)
    requires pos <= str.Length && Written(str[..], pos, d, v) && d != 0 && IsBinSize(v, n) && n <= str.Length
    modifies str
    ensures spos == n && LittleEndian(str[..], n) == v && str[n..] == old(str[n..])
  {
    BelowSize(v, n, pos, d, LittleEndian(str[..], pos));
    spos := pos;
    var e: int := d;
    while e != 0
      invariant 0 <= e < 0x1_0000 && pos <= spos <= n && Written(str[..], spos, e, v)
      invariant e == 0 ==> spos > 0 && str[spos - 1] != 0
      invariant str[n..] == old(str[n..])
      decreases e
    {
      BelowSize(v, n, spos, e, LittleEndian(str[..], spos));
      ghost var s := str[..];
      str[spos] := e % 0x100;
      WrittenStep(s, str[..], spos, e, v);
      spos := spos + 1;
      e := e / 0x100;
    }
    LittleSize(str[..], spos);
    BinSizeUnique(v, spos, n);
  }

  lemma BelowSize(v: nat, n: nat, pos: nat, e: int, low: nat)
    requires IsBinSize(v, n) && e > 0 && low + ByteScale(e, pos) == v
    ensures pos < n
  {
    if pos >= n {
      ByteScaleGrows(n, pos);
    }
    ByteScaleAdd(1, e, pos);
  }

  lemma {:induction false} LittleBound(s: seq<Byte>, n: nat)
    requires n <= |s|
    ensures LittleEndian(s, n) < ByteScale(1, n)
  {
    if n > 0 {
      LittleBound(s, n - 1);
      ByteScaleAdd(s[n - 1], 1, n - 1);
      ByteScaleAdd(s[n - 1] as int + 1, 0x100, n - 1);
      ByteScaleUp(1, n - 1);
    }
  }

  lemma LittleSize(s: seq<Byte>, n: nat)
    requires 0 < n <= |s| && s[n - 1] != 0
    ensures IsBinSize(LittleEndian(s, n), n)
  {
    LittleBound(s, n);
    ByteScaleAdd(1, s[n - 1], n - 1);
  }

  // the lower digits
  method WriteLower(str: array<Byte>, dp: array<Digit>, n: nat)
    requires n <= dp.Length && 2 * n <= str.Length
    modifies str
    ensures LittleEndian(str[..], 2 * n) == V(dp[..], n) && str[2 * n..] == old(str[2 * n..])
  {
    for i := 0 to n
      invariant LittleEndian(str[..], 2 * i) == V(dp[..], i) && str[2 * n..] == old(str[2 * n..])
    {
      ByteScaleDigits(dp[i], i);
      WriteDigit(str, 2 * i, dp[i], V(dp[..], i + 1));
    }
  }

  // the final loop: turn the first n bytes around
  method ReverseBytes(str: array<Byte>, n: nat)
    requires n <= str.Length
    modifies str
    ensures forall i :: 0 <= i < n ==> str[i] == old(str[n - 1 - i])
    ensures str[n..] == old(str[n..])
  {
    var lo, hi: int := 0, n - 1;
    while hi > lo
      invariant 0 <= lo && hi == n - 1 - lo
      invariant forall i :: 0 <= i < n && !(lo <= i <= hi) ==> str[i] == old(str[n - 1 - i])
      invariant forall i :: lo <= i <= hi ==> str[i] == old(str[i])
      invariant str[n..] == old(str[n..])
    {
      str[lo], str[hi] := str[hi], str[lo];
      lo := lo + 1;
      hi := hi - 1;
    }
  }

  lemma {:induction false} ReversedValue(s: seq<Byte>, t: seq<Byte>, n: nat)
    requires n <= |s| && n == |t| && forall i :: 0 <= i < n ==> t[i] == s[n - 1 - i]
    ensures BigEndian(t) == LittleEndian(s, n)
  {
    if n > 0 {
      ReversedValue(s, t[1..], n - 1);
    }
  }

  // mw_mp_to_unsigned_bin; n is the size that mw_mp_unsigned_bin_size announces
  method ToUnsignedBin(mp: MpInt, str: array<Byte>, ghost n: nat)
    requires mp.Trimmed() && IsBinSize(mp.Mag(), n) && n <= str.Length
    modifies str
    ensures BigEndian(str[..n]) == mp.Mag() && str[n..] == old(str[n..])
  {
    var used := mp.used;
    MagBounds(mp.dp[..], used);
    if used == 1 && mp.dp[0] == 0 {
      BinSizeUnique(0, 1, n);
      str[0] := 0;
      assert str[..1] == [0];
      return;
    }
    var spos := WriteDigits(str, mp, n);
    ghost var s := str[..];
    ReverseBytes(str, spos);
    ReversedValue(s, str[..n], n);
  }

  // all the bytes, lowest first
  method WriteDigits(str: array<Byte>, mp: MpInt, ghost n: nat) returns (spos: nat)
    requires mp.Trimmed() && mp.dp[mp.used - 1] != 0 && IsBinSize(mp.Mag(), n) && n <= str.Length
    modifies str
    ensures spos == n && LittleEndian(str[..], n) == mp.Mag() && str[n..] == old(str[n..])
  {
    var used := mp.used;
    MagBounds(mp.dp[..], used);
    SizeOfLower(mp.dp[..], used, n);
    WriteLower(str, mp.dp, used - 1);
    ByteScaleDigits(mp.dp[used - 1], used - 1);
    spos := WriteTop(str, 2 * (used - 1), mp.dp[used - 1], mp.Mag(), n);
  }

  // the bytes of the lower digits fit in the announced size
  lemma SizeOfLower(s: seq<Digit>, used: nat, n: nat)
    requires 1 <= used <= |s| && ZeroFrom(s, used) && (used > 1 ==> s[used - 1] != 0) && IsBinSize(Val(s), n)
    ensures 2 * (used - 1) <= n
  {
    MagBounds(s, used);
    ByteScaleDigits(1, used - 1);
    ScalePow(1, used - 1);
    if n < 2 * (used - 1) {
      ByteScaleGrows(n, 2 * (used - 1));
    }
  }

  // ---- keys ----

  // mwDHExportKey: the minimal big-endian string of a key
  method Export(key: MpInt) returns (data: array<Byte>)
    requires key.Trimmed()
    ensures fresh(data) && BigEndian(data[..]) == key.Mag() && IsBinSize(key.Mag(), data.Length)
  {
    var len := UnsignedBinSize(key);
    data := new Byte[len](_ => 0);
    ToUnsignedBin(key, data, len);
    assert data[..len] == data[..];
  }

  // mwDHImportKey
  method Import(key: MpInt, data: seq<Byte>)
    requires key.dp.Length > 0 && |data| > 0
    modifies key, key.dp
    ensures Natural(key) && key.Value() == BigEndian(data) && (key.dp == old(key.dp) || fresh(key.dp))
  {
    ReadUnsignedBin(key, data);
  }

  // import(export(x)) = x
  method ImportExport(x: MpInt, y: MpInt)
    requires Natural(x) && y.dp.Length > 0 && x != y && x.dp != y.dp
    modifies y, y.dp
    ensures Natural(y) && y.Value() == x.Value()
  {
    var data := Export(x);
    Import(y, data[..]);
  }

  // and export(import(s)) = s for every string without leading zero bytes
  method ExportImport(s: seq<Byte>, x: MpInt) returns (t: array<Byte>)
    requires x.dp.Length > 0 && |s| > 0
    modifies x, x.dp
    ensures t[..] == s <==> (|s| > 1 ==> s[0] != 0)
  {
    Import(x, s);
    t := Export(x);
    MinimalString(s);
    MinimalString(t[..]);
    if |s| > 1 ==> s[0] != 0 {
      MinimalUnique(s, t[..]);
    }
  }
}
