/**
  The RC2 block routines of src/cipher.c. They work in C ints whose upper halves are
  never masked; the reference is RC2 on 16-bit words, as sections 3 and 4 of RFC 2268
  describe it.
 */
module Rc2 {
  import opened Rc2Words

  // ---- RFC 2268 ----

  type Key = k: seq<bv16> | |k| == 64 witness seq(64, _ => 0)

  // the words R[0] to R[3] of a block
  type Words = r: seq<bv16> | |r| == 4 witness [0, 0, 0, 0]

  function MixUp(r: Words, k: bv16, i: nat): Words
    requires i < 4
  {
    r[i := MixWord(r[i], Addend(r[(i + 3) % 4], r[(i + 2) % 4], r[(i + 1) % 4], k), i)]
  }

  function ReverseMixUp(r: Words, k: bv16, i: nat): Words
    requires i < 4
  {
    r[i := ReverseMixWord(r[i], Addend(r[(i + 3) % 4], r[(i + 2) % 4], r[(i + 1) % 4], k), i)]
  }

  // the first n words of a mixing round that starts at key word j
  function MixUps(key: Key, r: Words, j: nat, n: nat): Words
    requires n <= 4 && j + n <= 64
    decreases n, r
  {
    if n == 0 then r else MixUp(MixUps(key, r, j, n - 1), key[j + n - 1], n - 1)
  }

  function ReverseMixUps(key: Key, r: Words, j: nat, n: nat): Words
    requires n <= 4 && j + n <= 64
    decreases n, r
  {
    if n == 0 then r else ReverseMixUps(key, ReverseMixUp(r, key[j + n - 1], n - 1), j, n - 1)
  }

  function MixingRound(key: Key, r: Words, round: nat): Words
    requires round < 16
  {
    MixUps(key, r, 4 * round, 4)
  }

  function ReverseMixingRound(key: Key, r: Words, round: nat): Words
    requires round < 16
  {
    ReverseMixUps(key, r, 4 * round, 4)
  }

  // the key word that a data word selects
  function Select(key: Key, x: bv16): bv16 {
    key[((x & 0x3f) as bv6) as int]
  }

  // the number of its six lowest bits
  lemma SelectIs(key: Key, x: bv16)
    ensures (x & 0x3f) as int < 64 && Select(key, x) == key[(x & 0x3f) as int]
  {}

  function MashUp(key: Key, r: Words, i: nat): Words
    requires i < 4
  {
    r[i := Plus(r[i], Select(key, r[(i + 3) % 4]))]
  }

  function ReverseMashUp(key: Key, r: Words, i: nat): Words
    requires i < 4
  {
    r[i := Minus(r[i], Select(key, r[(i + 3) % 4]))]
  }

  function MashUps(key: Key, r: Words, n: nat): Words
    requires n <= 4
    decreases n, r
  {
    if n == 0 then r else MashUp(key, MashUps(key, r, n - 1), n - 1)
  }

  function ReverseMashUps(key: Key, r: Words, n: nat): Words
    requires n <= 4
    decreases n, r
  {
    if n == 0 then r else ReverseMashUps(key, ReverseMashUp(key, r, n - 1), n - 1)
  }

  function Mash(key: Key, r: Words): Words {
    MashUps(key, r, 4)
  }

  function ReverseMash(key: Key, r: Words): Words {
    ReverseMashUps(key, r, 4)
  }

  // n mixing rounds, the first of them numbered from
  function Mixing(key: Key, r: Words, from: nat, n: nat): Words
    requires from + n <= 16
    decreases n, r
  {
    if n == 0 then r else MixingRound(key, Mixing(key, r, from, n - 1), from + n - 1)
  }

  // and the same rounds undone, the last first
  function ReverseMixing(key: Key, r: Words, from: nat, n: nat): Words
    requires from + n <= 16
    decreases n, r
  {
    if n == 0 then r else ReverseMixing(key, ReverseMixingRound(key, r, from + n - 1), from, n - 1)
  }

  // five mixing rounds, a mashing round, six mixing rounds, a mashing round and five
  // mixing rounds
  function Encrypt(key: Key, r: Words): Words {
    Mixing(key, Mash(key, Mixing(key, Mash(key, Mixing(key, r, 0, 5)), 5, 6)), 11, 5)
  }

  function Decrypt(key: Key, r: Words): Words {
    ReverseMixing(key, ReverseMash(key, ReverseMixing(key, ReverseMash(key, ReverseMixing(key, r, 11, 5)), 5, 6)), 0, 5)
  }

  // ---- decryption undoes encryption ----

  lemma UnmixUp(r: Words, k: bv16, i: nat)
    requires i < 4
    ensures ReverseMixUp(MixUp(r, k, i), k, i) == r
  {
    UnmixWord(r[i], Addend(r[(i + 3) % 4], r[(i + 2) % 4], r[(i + 1) % 4], k), i);
  }

  lemma UnmashUp(key: Key, r: Words, i: nat)
    requires i < 4
    ensures ReverseMashUp(key, MashUp(key, r, i), i) == r
  {
    MinusPlus(r[i], Select(key, r[(i + 3) % 4]));
  }

  lemma {:induction false} UnmixUps(key: Key, r: Words, j: nat, n: nat)
    requires n <= 4 && j + n <= 64
    ensures ReverseMixUps(key, MixUps(key, r, j, n), j, n) == r
  {
    if n > 0 {
      UnmixUp(MixUps(key, r, j, n - 1), key[j + n - 1], n - 1);
      UnmixUps(key, r, j, n - 1);
    }
  }

  lemma {:induction false} UnmashUps(key: Key, r: Words, n: nat)
    requires n <= 4
    ensures ReverseMashUps(key, MashUps(key, r, n), n) == r
  {
    if n > 0 {
      UnmashUp(key, MashUps(key, r, n - 1), n - 1);
      UnmashUps(key, r, n - 1);
    }
  }

  lemma {:induction false} Unmixing(key: Key, r: Words, from: nat, n: nat)
    requires from + n <= 16
    ensures ReverseMixing(key, Mixing(key, r, from, n), from, n) == r
  {
    if n > 0 {
      UnmixUps(key, Mixing(key, r, from, n - 1), 4 * (from + n - 1), 4);
      Unmixing(key, r, from, n - 1);
    }
  }

  lemma DecryptEncrypt(key: Key, r: Words)
    ensures Decrypt(key, Encrypt(key, r)) == r
  {
    var r1 := Mixing(key, r, 0, 5);
    var r2 := Mash(key, r1);
    var r3 := Mixing(key, r2, 5, 6);
    var r4 := Mash(key, r3);
    Unmixing(key, r4, 11, 5);
    UnmashUps(key, r3, 4);
    Unmixing(key, r2, 5, 6);
    UnmashUps(key, r1, 4);
    Unmixing(key, r, 0, 5);
  }

  // ---- the order of rounds in the code ----

  // mixing rounds with a mashing round after rounds 4 and 10
  function Rounds(key: Key, r: Words, n: nat): Words
    requires n <= 16
    decreases n, r
  {
    if n == 0 then r else RoundAndMash(key, Rounds(key, r, n - 1), n - 1)
  }

  function RoundAndMash(key: Key, r: Words, i: nat): Words
    requires i < 16
  {
    var m := MixingRound(key, r, i);
    if i == 4 || i == 10 then Mash(key, m) else m
  }

  // the rounds 15 to n undone, with mashing undone after rounds 11 and 5
  function ReverseRounds(key: Key, r: Words, n: nat): Words
    requires n <= 16
    decreases 16 - n, r
  {
    if n == 16 then r else ReverseRoundAndMash(key, ReverseRounds(key, r, n + 1), n)
  }

  function ReverseRoundAndMash(key: Key, r: Words, i: nat): Words
    requires i < 16
  {
    var m := ReverseMixingRound(key, r, i);
    if i == 5 || i == 11 then ReverseMash(key, m) else m
  }

  lemma {:induction false} PlainRounds(key: Key, r: Words, from: nat, n: nat)
    requires from + n <= 16 && !(from <= 4 < from + n) && !(from <= 10 < from + n)
    ensures Rounds(key, r, from + n) == Mixing(key, Rounds(key, r, from), from, n)
  {
    if n > 0 {
      PlainRounds(key, r, from, n - 1);
    }
  }

  lemma RoundsEncrypt(key: Key, r: Words)
    ensures Rounds(key, r, 16) == Encrypt(key, r)
  {
    PlainRounds(key, r, 0, 4);
    PlainRounds(key, r, 5, 5);
    PlainRounds(key, r, 11, 5);
  }

  lemma {:induction false} ReverseMixingLast(key: Key, r: Words, from: nat, n: nat)
    requires from + n < 16
    decreases n
    ensures ReverseMixing(key, r, from, n + 1) == ReverseMixingRound(key, ReverseMixing(key, r, from + 1, n), from)
  {
    if n > 0 {
      ReverseMixingLast(key, ReverseMixingRound(key, r, from + n), from, n - 1);
    }
  }

  lemma {:induction false} PlainReverseRounds(key: Key, r: Words, from: nat, n: nat)
    requires from + n <= 16 && !(from <= 5 < from + n) && !(from <= 11 < from + n)
    decreases n
    ensures ReverseRounds(key, r, from) == ReverseMixing(key, ReverseRounds(key, r, from + n), from, n)
  {
    if n > 0 {
      PlainReverseRounds(key, r, from + 1, n - 1);
      ReverseMixingLast(key, ReverseRounds(key, r, from + n), from, n - 1);
    }
  }

  lemma RoundsDecrypt(key: Key, r: Words)
    ensures ReverseRounds(key, r, 0) == Decrypt(key, r)
  {
    PlainReverseRounds(key, r, 12, 4);
    ReverseMixingLast(key, r, 11, 4);
    PlainReverseRounds(key, r, 6, 5);
    ReverseMixingLast(key, ReverseRounds(key, r, 11), 5, 5);
    PlainReverseRounds(key, r, 0, 5);
  }

  // ---- the block routines ----

  // the four variables of the block routines, and the words they stand for
  ghost predicate Ints(a: bv32, b: bv32, c: bv32, d: bv32, r: Words) {
    Low(d) == r[0] && Low(c) == r[1] && Low(b) == r[2] && Low(a) == r[3]
  }

  ghost predicate KeyInts(ekey: seq<bv32>, key: Key) {
    |ekey| == 64 && forall j :: 0 <= j < 64 ==> Low(ekey[j]) == key[j]
  }

  // the two assignments to d in a mixing round
  method Mix0(a: bv32, b: bv32, c: bv32, d: bv32, k: bv32, ghost r: Words) returns (z: bv32)
    requires Ints(a, b, c, d, r)
    ensures Ints(a, b, c, z, MixUp(r, Low(k), 0))
  {
    z := AddTo(d, a, b, c, k);
    LowRol0(z);
    z := (z << 1) | ((z >> 15) & 0x0001);
  }

  // the two assignments to c in a mixing round
  method Mix1(a: bv32, b: bv32, c: bv32, d: bv32, k: bv32, ghost r: Words) returns (z: bv32)
    requires Ints(a, b, c, d, r)
    ensures Ints(a, b, z, d, MixUp(r, Low(k), 1))
  {
    z := AddTo(c, d, a, b, k);
    LowRol1(z);
    z := (z << 2) | ((z >> 14) & 0x0003);
  }

  // the two assignments to b in a mixing round
  method Mix2(a: bv32, b: bv32, c: bv32, d: bv32, k: bv32, ghost r: Words) returns (z: bv32)
    requires Ints(a, b, c, d, r)
    ensures Ints(a, z, c, d, MixUp(r, Low(k), 2))
  {
    z := AddTo(b, c, d, a, k);
    LowRol2(z);
    z := (z << 3) | ((z >> 13) & 0x0007);
  }

  // the two assignments to a in a mixing round
  method Mix3(a: bv32, b: bv32, c: bv32, d: bv32, k: bv32, ghost r: Words) returns (z: bv32)
    requires Ints(a, b, c, d, r)
    ensures Ints(z, b, c, d, MixUp(r, Low(k), 3))
  {
    z := AddTo(a, b, c, d, k);
    LowRol3(z);
    z := (z << 5) | ((z >> 11) & 0x001f);
  }

  // the two assignments to a that undo it
  method Unmix3(a: bv32, b: bv32, c: bv32, d: bv32, k: bv32, ghost r: Words) returns (z: bv32)
    requires Ints(a, b, c, d, r)
    ensures Ints(z, b, c, d, ReverseMixUp(r, Low(k), 3))
  {
    LowRor3(a);
    z := (a << 11) | ((a >> 5) & 0x07ff);
    z := TakeFrom(z, b, c, d, k);
  }

  // the two assignments to b that undo it
  method Unmix2(a: bv32, b: bv32, c: bv32, d: bv32, k: bv32, ghost r: Words) returns (z: bv32)
    requires Ints(a, b, c, d, r)
    ensures Ints(a, z, c, d, ReverseMixUp(r, Low(k), 2))
  {
    LowRor2(b);
    z := (b << 13) | ((b >> 3) & 0x1fff);
    z := TakeFrom(z, c, d, a, k);
  }

  // the two assignments to c that undo it
  method Unmix1(a: bv32, b: bv32, c: bv32, d: bv32, k: bv32, ghost r: Words) returns (z: bv32)
    requires Ints(a, b, c, d, r)
    ensures Ints(a, b, z, d, ReverseMixUp(r, Low(k), 1))
  {
    LowRor1(c);
    z := (c << 14) | ((c >> 2) & 0x3fff);
    z := TakeFrom(z, d, a, b, k);
  }

  // the two assignments to d that undo it
  method Unmix0(a: bv32, b: bv32, c: bv32, d: bv32, k: bv32, ghost r: Words) returns (z: bv32)
    requires Ints(a, b, c, d, r)
    ensures Ints(a, b, c, z, ReverseMixUp(r, Low(k), 0))
  {
    LowRor0(d);
    z := (d << 15) | ((d >> 1) & 0x7fff);
    z := TakeFrom(z, a, b, c, k);
  }

  // the index of the key word that a variable selects in a mashing round
  function KeyIndex(x: bv32): nat
    ensures KeyIndex(x) < 64
  {
    ((x & 0x3f) as bv6) as int
  }

  lemma LowSixBits(x: bv32)
    ensures (x & 0x3f) as bv6 == (((x & 0xffff) as bv16) & 0x3f) as bv6
  {}

  lemma SameKeyIndex(x: bv32, ekey: seq<bv32>, key: Key)
    requires KeyInts(ekey, key)
    ensures Low(ekey[KeyIndex(x)]) == Select(key, Low(x))
  {
    LowSixBits(x);
  }

  // x += ekey[y & 0x3f]
  method AddKey(x: bv32, y: bv32, ekey: seq<bv32>, ghost key: Key) returns (z: bv32)
    requires KeyInts(ekey, key)
    ensures Low(z) == Plus(Low(x), Select(key, Low(y)))
  {
    SameKeyIndex(y, ekey, key);
    var k := ekey[KeyIndex(y)];
    LowPlus(x, k);
    z := x + k;
  }

  method TakeKey(x: bv32, y: bv32, ekey: seq<bv32>, ghost key: Key) returns (z: bv32)
    requires KeyInts(ekey, key)
    ensures Low(z) == Minus(Low(x), Select(key, Low(y)))
  {
    SameKeyIndex(y, ekey, key);
    var k := ekey[KeyIndex(y)];
    LowMinus(x, k);
    z := x - k;
  }

  // the body of the encryption loop, up to the mashing
  method MixRound(a0: bv32, b0: bv32, c0: bv32, d0: bv32, ekey: seq<bv32>, i: nat, ghost r: Words, ghost key: Key)
    returns (a: bv32, b: bv32, c: bv32, d: bv32)
    requires Ints(a0, b0, c0, d0, r) && KeyInts(ekey, key) && i < 16
    ensures Ints(a, b, c, d, MixingRound(key, r, i))
  {
    var j := i * 4;
    d := Mix0(a0, b0, c0, d0, ekey[j], r);
    assert MixUps(key, r, j, 1) == MixUp(MixUps(key, r, j, 0), key[j], 0);
    c := Mix1(a0, b0, c0, d, ekey[j + 1], MixUps(key, r, j, 1));
    b := Mix2(a0, b0, c, d, ekey[j + 2], MixUps(key, r, j, 2));
    a := Mix3(a0, b, c, d, ekey[j + 3], MixUps(key, r, j, 3));
  }

  // the mashing after rounds 4 and 10
  method MashRound(a0: bv32, b0: bv32, c0: bv32, d0: bv32, ekey: seq<bv32>, ghost r: Words, ghost key: Key)
    returns (a: bv32, b: bv32, c: bv32, d: bv32)
    requires Ints(a0, b0, c0, d0, r) && KeyInts(ekey, key)
    ensures Ints(a, b, c, d, Mash(key, r))
  {
    d := AddKey(d0, a0, ekey, key);
    assert MashUps(key, r, 1) == MashUp(key, MashUps(key, r, 0), 0);
    c := AddKey(c0, d, ekey, key);
    assert Ints(a0, b0, c, d, MashUps(key, r, 2));
    b := AddKey(b0, c, ekey, key);
    assert Ints(a0, b, c, d, MashUps(key, r, 3));
    a := AddKey(a0, b, ekey, key);
  }

  method UnmixRound(a0: bv32, b0: bv32, c0: bv32, d0: bv32, ekey: seq<bv32>, i: nat, ghost r: Words, ghost key: Key)
    returns (a: bv32, b: bv32, c: bv32, d: bv32)
    requires Ints(a0, b0, c0, d0, r) && KeyInts(ekey, key) && i < 16
    ensures Ints(a, b, c, d, ReverseMixingRound(key, r, i))
  {
    var j := i * 4;
    a := Unmix3(a0, b0, c0, d0, ekey[j + 3], r);
    ghost var r3 := ReverseMixUp(r, key[j + 3], 3);
    b := Unmix2(a, b0, c0, d0, ekey[j + 2], r3);
    ghost var r2 := ReverseMixUp(r3, key[j + 2], 2);
    c := Unmix1(a, b, c0, d0, ekey[j + 1], r2);
    ghost var r1 := ReverseMixUp(r2, key[j + 1], 1);
    d := Unmix0(a, b, c, d0, ekey[j], r1);
    ReverseMixUpsAre(key, r, j);
  }

  lemma ReverseMixUpsAre(key: Key, r: Words, j: nat)
    requires j + 4 <= 64
    ensures ReverseMixUps(key, r, j, 4) ==
            ReverseMixUp(ReverseMixUp(ReverseMixUp(ReverseMixUp(r, key[j + 3], 3), key[j + 2], 2), key[j + 1], 1), key[j], 0)
  {
    var r3 := ReverseMixUp(r, key[j + 3], 3);
    var r2 := ReverseMixUp(r3, key[j + 2], 2);
    var r1 := ReverseMixUp(r2, key[j + 1], 1);
    var r0 := ReverseMixUp(r1, key[j], 0);
    assert ReverseMixUps(key, r1, j, 1) == ReverseMixUps(key, r0, j, 0);
    assert ReverseMixUps(key, r3, j, 3) == ReverseMixUps(key, r2, j, 2) == ReverseMixUps(key, r1, j, 1);
  }

  // the mashing undone after rounds 11 and 5
  method UnmashRound(a0: bv32, b0: bv32, c0: bv32, d0: bv32, ekey: seq<bv32>, ghost r: Words, ghost key: Key)
    returns (a: bv32, b: bv32, c: bv32, d: bv32)
    requires Ints(a0, b0, c0, d0, r) && KeyInts(ekey, key)
    ensures Ints(a, b, c, d, ReverseMash(key, r))
  {
    a := TakeKey(a0, b0, ekey, key);
    ghost var r3 := ReverseMashUp(key, r, 3);
    b := TakeKey(b0, c0, ekey, key);
    ghost var r2 := ReverseMashUp(key, r3, 2);
    c := TakeKey(c0, d0, ekey, key);
    ghost var r1 := ReverseMashUp(key, r2, 1);
    d := TakeKey(d0, a, ekey, key);
    ghost var r0 := ReverseMashUp(key, r1, 0);
    assert ReverseMashUps(key, r1, 1) == ReverseMashUps(key, r0, 0);
    assert ReverseMashUps(key, r3, 3) == ReverseMashUps(key, r2, 2) == ReverseMashUps(key, r1, 1);
  }

  // ---- blocks ----

  const BLOCK: nat := 8

  type Block = s: seq<bv8> | |s| == 8 witness seq(8, _ => 0)

  function Unpack(s: Block): Words {
    [Word(s[0], s[1]), Word(s[2], s[3]), Word(s[4], s[5]), Word(s[6], s[7])]
  }

  function Pack(r: Words): Block {
    [LowByte(r[0]), HighByte(r[0]), LowByte(r[1]), HighByte(r[1]),
     LowByte(r[2]), HighByte(r[2]), LowByte(r[3]), HighByte(r[3])]
  }

  lemma UnpackPack(r: Words)
    ensures Unpack(Pack(r)) == r
  {
    WordRoundTrip(r[0]);
    WordRoundTrip(r[1]);
    WordRoundTrip(r[2]);
    WordRoundTrip(r[3]);
  }

  lemma PackUnpack(s: Block)
    ensures Pack(Unpack(s)) == s
  {
    BytesOfWord(s[0], s[1]);
    BytesOfWord(s[2], s[3]);
    BytesOfWord(s[4], s[5]);
    BytesOfWord(s[6], s[7]);
  }

  // RC2 on a block of eight bytes
  function EncryptBytes(key: Key, s: Block): Block {
    Pack(Encrypt(key, Unpack(s)))
  }

  function DecryptBytes(key: Key, s: Block): Block {
    Pack(Decrypt(key, Unpack(s)))
  }

  // Decryption inverts encryption for every key and every block.
  lemma DecryptEncryptBytes(key: Key, s: Block)
    ensures DecryptBytes(key, EncryptBytes(key, s)) == s
  {
    UnpackPack(Encrypt(key, Unpack(s)));
    DecryptEncrypt(key, Unpack(s));
    PackUnpack(s);
  }

  // the low halves of an expanded key
  function KeyWords(ekey: seq<bv32>): Key
    requires |ekey| == 64
  {
    seq(64, j requires 0 <= j < 64 => Low(ekey[j]))
  }

  method LoadBlock(out: array<bv8>, at: nat) returns (a: bv32, b: bv32, c: bv32, d: bv32)
    requires at + 8 <= out.Length
    ensures Ints(a, b, c, d, Unpack(out[at..at + 8]))
  {
    a := Load(out[at + 6], out[at + 7]);
    b := Load(out[at + 4], out[at + 5]);
    c := Load(out[at + 2], out[at + 3]);
    d := Load(out[at], out[at + 1]);
  }

  // the bytes of s with a block written at at
  function Patch(s: seq<bv8>, at: nat, b: Block): seq<bv8>
    requires at + 8 <= |s|
  {
    s[..at] + b + s[at + 8..]
  }

  method StoreWord(out: array<bv8>, at: nat, x: bv32)
    requires at + 2 <= out.Length
    modifies out
    ensures out[at] == LowByte(Low(x)) && out[at + 1] == HighByte(Low(x))
    ensures forall i :: 0 <= i < out.Length && i != at && i != at + 1 ==> out[i] == old(out[i])
  {
    var lo, hi := Store(x);
    out[at] := lo;
    out[at + 1] := hi;
  }

  method StoreBlock(out: array<bv8>, at: nat, a: bv32, b: bv32, c: bv32, d: bv32, ghost r: Words)
    requires at + 8 <= out.Length && Ints(a, b, c, d, r)
    modifies out
    ensures out[..] == Patch(old(out[..]), at, Pack(r))
  {
    StoreWord(out, at, d);
    StoreWord(out, at + 2, c);
    StoreWord(out, at + 4, b);
    StoreWord(out, at + 6, a);
  }

  // mwEncryptBlock, on the block that starts at at
  method EncryptBlock(ekey: seq<bv32>, out: array<bv8>, at: nat)
    requires |ekey| == 64 && at + 8 <= out.Length
    modifies out
    ensures out[..] == Patch(old(out[..]), at, EncryptBytes(KeyWords(ekey), old(out[at..at + 8])))
  {
    ghost var key, s0 := KeyWords(ekey), out[..];
    ghost var r := Unpack(s0[at..at + 8]);
    var a, b, c, d := LoadBlock(out, at);
    for i := 0 to 16
      invariant Ints(a, b, c, d, Rounds(key, r, i)) && out[..] == s0
    {
      ghost var s := Rounds(key, r, i);
      a, b, c, d := MixRound(a, b, c, d, ekey, i, s, key);
      if i == 4 || i == 10 {
        a, b, c, d := MashRound(a, b, c, d, ekey, MixingRound(key, s, i), key);
      }
    }
    RoundsEncrypt(key, r);
    StoreBlock(out, at, a, b, c, d, Encrypt(key, r));
  }

  // mwDecryptBlock
  method DecryptBlock(ekey: seq<bv32>, out: array<bv8>, at: nat)
    requires |ekey| == 64 && at + 8 <= out.Length
    modifies out
    ensures out[..] == Patch(old(out[..]), at, DecryptBytes(KeyWords(ekey), old(out[at..at + 8])))
  {
    ghost var key, s0 := KeyWords(ekey), out[..];
    ghost var r := Unpack(s0[at..at + 8]);
    var a, b, c, d := LoadBlock(out, at);
    var i := 16;
    while i > 0
      invariant 0 <= i <= 16 && Ints(a, b, c, d, ReverseRounds(key, r, i)) && out[..] == s0
    {
      ghost var s := ReverseRounds(key, r, i);
      i := i - 1;
      a, b, c, d := UnmixRound(a, b, c, d, ekey, i, s, key);
      if i == 5 || i == 11 {
        a, b, c, d := UnmashRound(a, b, c, d, ekey, ReverseMixingRound(key, s, i), key);
      }
    }
    RoundsDecrypt(key, r);
    StoreBlock(out, at, a, b, c, d, Decrypt(key, r));
  }
}
