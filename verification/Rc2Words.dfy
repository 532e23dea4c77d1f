/**
  The 16-bit word operations of RC2 (section 3 of RFC 2268), and the same operations
  on C ints whose upper halves are never masked (src/cipher.c).
 */
module Rc2Words {

  // rotation by s[i], with s = 1, 2, 3, 5
  function Rol(x: bv16, i: nat): bv16 {
    if i == 0 then x.RotateLeft(1) else if i == 1 then x.RotateLeft(2)
    else if i == 2 then x.RotateLeft(3) else x.RotateLeft(5)
  }

  function Ror(x: bv16, i: nat): bv16 {
    if i == 0 then x.RotateRight(1) else if i == 1 then x.RotateRight(2)
    else if i == 2 then x.RotateRight(3) else x.RotateRight(5)
  }

  function Plus(x: bv16, y: bv16): bv16 {
    x + y
  }

  function Minus(x: bv16, y: bv16): bv16 {
    x - y
  }

  // y1, y2, y3 stand for R[i-1], R[i-2], R[i-3], with indices modulo 4
  function Addend(y1: bv16, y2: bv16, y3: bv16, k: bv16): bv16 {
    (y3 & !y1) + (y2 & y1) + k
  }

  // x stands for R[i]
  function MixWord(x: bv16, t: bv16, i: nat): bv16 {
    Rol(Plus(x, t), i)
  }

  function ReverseMixWord(x: bv16, t: bv16, i: nat): bv16 {
    Minus(Ror(x, i), t)
  }

  lemma Unrotate1(x: bv16, i: nat)
    requires i == 0
    ensures Ror(Rol(x, i), i) == x
  {}

  lemma Unrotate2(x: bv16, i: nat)
    requires i == 1
    ensures Ror(Rol(x, i), i) == x
  {}

  lemma Unrotate3(x: bv16, i: nat)
    requires i == 2
    ensures Ror(Rol(x, i), i) == x
  {}

  lemma Unrotate5(x: bv16, i: nat)
    requires i == 3
    ensures Ror(Rol(x, i), i) == x
  {}

  lemma Unrotate(x: bv16, i: nat)
    requires i < 4
    ensures Ror(Rol(x, i), i) == x
  {
    if i == 0 {
      Unrotate1(x, i);
    } else if i == 1 {
      Unrotate2(x, i);
    } else if i == 2 {
      Unrotate3(x, i);
    } else {
      Unrotate5(x, i);
    }
  }

  lemma MinusSum(x: bv16, y: bv16)
    ensures Minus(x + y, y) == x
  {}

  lemma MinusPlus(x: bv16, y: bv16)
    ensures Minus(Plus(x, y), y) == x
  {
    MinusSum(x, y);
  }

  lemma UnmixWord(x: bv16, t: bv16, i: nat)
    requires i < 4
    ensures ReverseMixWord(MixWord(x, t, i), t, i) == x
  {
    Unrotate(Plus(x, t), i);
    MinusPlus(x, t);
  }

  // ---- C ints ----

  // the 16 bits of an int that matter
  function Low(x: bv32): bv16 {
    (x & 0xffff) as bv16
  }

  lemma TermsOfLow(y1: bv32, y2: bv32, y3: bv32, k: bv32)
    ensures (((y3 & (y1 ^ 0xffff)) + (y2 & y1) + k) & 0xffff) as bv16 ==
            (((y3 & 0xffff) as bv16) & !((y1 & 0xffff) as bv16)) +
            (((y2 & 0xffff) as bv16) & ((y1 & 0xffff) as bv16)) + ((k & 0xffff) as bv16)
  {}

  lemma AddendOfLow(y1: bv32, y2: bv32, y3: bv32, k: bv32)
    ensures (((y3 & (y1 ^ 0xffff)) + (y2 & y1) + k) & 0xffff) as bv16 ==
            Addend((y1 & 0xffff) as bv16, (y2 & 0xffff) as bv16, (y3 & 0xffff) as bv16, (k & 0xffff) as bv16)
  {
    TermsOfLow(y1, y2, y3, k);
  }

  lemma SumOfLow(x: bv32, y: bv32)
    ensures ((x + y) & 0xffff) as bv16 == ((x & 0xffff) as bv16) + ((y & 0xffff) as bv16)
  {}

  lemma DifferenceOfLow(x: bv32, y: bv32)
    ensures ((x - y) & 0xffff) as bv16 == ((x & 0xffff) as bv16) - ((y & 0xffff) as bv16)
  {}

  lemma PlusOfLow(x: bv32, y: bv32)
    ensures ((x + y) & 0xffff) as bv16 == Plus((x & 0xffff) as bv16, (y & 0xffff) as bv16)
  {
    SumOfLow(x, y);
  }

  lemma MinusOfLow(x: bv32, y: bv32)
    ensures ((x - y) & 0xffff) as bv16 == Minus((x & 0xffff) as bv16, (y & 0xffff) as bv16)
  {
    DifferenceOfLow(x, y);
  }

  // no operation lets the upper halves reach the lower ones
  lemma LowAddend(y1: bv32, y2: bv32, y3: bv32, k: bv32)
    ensures Low((y3 & (y1 ^ 0xffff)) + (y2 & y1) + k) == Addend(Low(y1), Low(y2), Low(y3), Low(k))
  {
    AddendOfLow(y1, y2, y3, k);
  }

  lemma LowPlus(x: bv32, y: bv32)
    ensures Low(x + y) == Plus(Low(x), Low(y))
  {
    PlusOfLow(x, y);
  }

  lemma LowMinus(x: bv32, y: bv32)
    ensures Low(x - y) == Minus(Low(x), Low(y))
  {
    MinusOfLow(x, y);
  }

  lemma LowRol0(x: bv32)
    ensures Low((x << 1) | ((x >> 15) & 0x0001)) == Rol(Low(x), 0)
  {}

  lemma LowRol1(x: bv32)
    ensures Low((x << 2) | ((x >> 14) & 0x0003)) == Rol(Low(x), 1)
  {}

  lemma LowRol2(x: bv32)
    ensures Low((x << 3) | ((x >> 13) & 0x0007)) == Rol(Low(x), 2)
  {}

  lemma LowRol3(x: bv32)
    ensures Low((x << 5) | ((x >> 11) & 0x001f)) == Rol(Low(x), 3)
  {}

  lemma LowRor0(x: bv32)
    ensures Low((x << 15) | ((x >> 1) & 0x7fff)) == Ror(Low(x), 0)
  {}

  lemma LowRor1(x: bv32)
    ensures Low((x << 14) | ((x >> 2) & 0x3fff)) == Ror(Low(x), 1)
  {}

  lemma LowRor2(x: bv32)
    ensures Low((x << 13) | ((x >> 3) & 0x1fff)) == Ror(Low(x), 2)
  {}

  lemma LowRor3(x: bv32)
    ensures Low((x << 11) | ((x >> 5) & 0x07ff)) == Ror(Low(x), 3)
  {}

  // what a mixing step adds, (y3 & (y1 ^ 0xffff)) + (y2 & y1) + k
  method Term(y1: bv32, y2: bv32, y3: bv32, k: bv32) returns (t: bv32)
    ensures Low(t) == Addend(Low(y1), Low(y2), Low(y3), Low(k))
  {
    LowAddend(y1, y2, y3, k);
    t := (y3 & (y1 ^ 0xffff)) + (y2 & y1) + k;
  }

  method AddTo(x: bv32, y1: bv32, y2: bv32, y3: bv32, k: bv32) returns (z: bv32)
    ensures Low(z) == Plus(Low(x), Addend(Low(y1), Low(y2), Low(y3), Low(k)))
  {
    var t := Term(y1, y2, y3, k);
    LowPlus(x, t);
    z := x + t;
  }

  method TakeFrom(x: bv32, y1: bv32, y2: bv32, y3: bv32, k: bv32) returns (z: bv32)
    ensures Low(z) == Minus(Low(x), Addend(Low(y1), Low(y2), Low(y3), Low(k)))
  {
    var t := Term(y1, y2, y3, k);
    LowMinus(x, t);
    z := x - t;
  }

  // ---- bytes ----

  function Word(lo: bv8, hi: bv8): bv16 {
    ((hi as bv16) << 8) | (lo as bv16)
  }

  function LowByte(w: bv16): bv8 {
    (w & 0xff) as bv8
  }

  function HighByte(w: bv16): bv8 {
    ((w >> 8) & 0xff) as bv8
  }

  lemma WordOfBytes(w: bv16)
    ensures Word((w & 0xff) as bv8, ((w >> 8) & 0xff) as bv8) == w
  {}

  lemma LowOfWord(lo: bv8, hi: bv8)
    ensures ((((hi as bv16) << 8) | (lo as bv16)) & 0xff) as bv8 == lo
  {}

  lemma HighOfWord(lo: bv8, hi: bv8)
    ensures (((((hi as bv16) << 8) | (lo as bv16)) >> 8) & 0xff) as bv8 == hi
  {}

  lemma BytesOfWord(lo: bv8, hi: bv8)
    ensures LowByte(Word(lo, hi)) == lo && HighByte(Word(lo, hi)) == hi
  {
    LowOfWord(lo, hi);
    HighOfWord(lo, hi);
  }

  lemma WordRoundTrip(w: bv16)
    ensures Word(LowByte(w), HighByte(w)) == w
  {
    WordOfBytes(w);
  }

  lemma LoadIsWord(lo: bv8, hi: bv8)
    ensures Low(((hi as bv32) << 8) | ((lo as bv32) & 0xff)) == ((hi as bv16) << 8) | (lo as bv16)
  {}

  // (hi << 8) | (lo & 0xff)
  method Load(lo: bv8, hi: bv8) returns (x: bv32)
    ensures Low(x) == Word(lo, hi)
  {
    LoadIsWord(lo, hi);
    x := ((hi as bv32) << 8) | ((lo as bv32) & 0xff);
  }

  lemma StoreLow(x: bv32)
    ensures (x & 0xff) as bv8 == (((x & 0xffff) as bv16) & 0xff) as bv8
  {}

  lemma StoreHigh(x: bv32)
    ensures ((x >> 8) & 0xff) as bv8 == ((((x & 0xffff) as bv16) >> 8) & 0xff) as bv8
  {}

  // x & 0xff and (x >> 8) & 0xff
  method Store(x: bv32) returns (lo: bv8, hi: bv8)
    ensures lo == LowByte(Low(x)) && hi == HighByte(Low(x))
  {
    StoreLow(x);
    StoreHigh(x);
    lo := (x & 0xff) as bv8;
    hi := ((x >> 8) & 0xff) as bv8;
  }
}
