/**
  Two of the test vectors in section 5 of RFC 2268, worked through on the expansion of the
  key and on the rounds.
 */
module Rc2Vectors {
  import opened Rc2Words
  import opened Rc2
  import opened KeyExpand

  // ---- the table ----

  // the sixteen bytes r are found in s from n on
  ghost predicate At(s: seq<bv8>, n: nat, r: seq<bv8>) {
    && n + 16 <= |s| && |r| == 16
    && s[n] == r[0] && s[n + 1] == r[1] && s[n + 2] == r[2] && s[n + 3] == r[3]
    && s[n + 4] == r[4] && s[n + 5] == r[5] && s[n + 6] == r[6] && s[n + 7] == r[7]
    && s[n + 8] == r[8] && s[n + 9] == r[9] && s[n + 10] == r[10] && s[n + 11] == r[11]
    && s[n + 12] == r[12] && s[n + 13] == r[13] && s[n + 14] == r[14] && s[n + 15] == r[15]
  }

  ghost predicate Table(pi: seq<bv8>) {
    && |pi| == 256
    && At(pi, 0, PT0) && At(pi, 16, PT1) && At(pi, 32, PT2) && At(pi, 48, PT3)
    && At(pi, 64, PT4) && At(pi, 80, PT5) && At(pi, 96, PT6) && At(pi, 112, PT7)
    && At(pi, 128, PT8) && At(pi, 144, PT9) && At(pi, 160, PTA) && At(pi, 176, PTB)
    && At(pi, 192, PTC) && At(pi, 208, PTD) && At(pi, 224, PTE) && At(pi, 240, PTF)
  }

  lemma AtAppend(s: seq<bv8>, t: seq<bv8>)
    ensures forall n: nat, r :: At(s, n, r) ==> At(s + t, n, r)
    ensures forall n: nat, r :: At(t, n, r) ==> At(s + t, |s| + n, r)
  {}

  lemma FourRows(a: seq<bv8>, b: seq<bv8>, c: seq<bv8>, d: seq<bv8>)
    requires |a| == |b| == |c| == |d| == 16
    ensures var s := (a + b) + (c + d);
      |s| == 64 && At(s, 0, a) && At(s, 16, b) && At(s, 32, c) && At(s, 48, d)
  {}

  lemma FourBlocks(a: seq<bv8>, b: seq<bv8>, c: seq<bv8>, d: seq<bv8>)
    requires |a| == |b| == |c| == |d| == 64
    ensures |(a + b) + (c + d)| == 256
    ensures forall n: nat, r :: At(a, n, r) ==> At((a + b) + (c + d), n, r)
    ensures forall n: nat, r :: At(b, n, r) ==> At((a + b) + (c + d), 64 + n, r)
    ensures forall n: nat, r :: At(c, n, r) ==> At((a + b) + (c + d), 128 + n, r)
    ensures forall n: nat, r :: At(d, n, r) ==> At((a + b) + (c + d), 192 + n, r)
  {
    AtAppend(a, b);
    AtAppend(c, d);
    AtAppend(a + b, c + d);
  }

  lemma SixteenRows(p: seq<bv8>, r: seq<seq<bv8>>)
    requires |r| == 16 && forall i :: 0 <= i < 16 ==> |r[i]| == 16
    requires p == (((r[0] + r[1]) + (r[2] + r[3])) + ((r[4] + r[5]) + (r[6] + r[7])))
                + (((r[8] + r[9]) + (r[10] + r[11])) + ((r[12] + r[13]) + (r[14] + r[15])))
    ensures |p| == 256
    ensures At(p, 0, r[0]) && At(p, 16, r[1]) && At(p, 32, r[2]) && At(p, 48, r[3])
    ensures At(p, 64, r[4]) && At(p, 80, r[5]) && At(p, 96, r[6]) && At(p, 112, r[7])
    ensures At(p, 128, r[8]) && At(p, 144, r[9]) && At(p, 160, r[10]) && At(p, 176, r[11])
    ensures At(p, 192, r[12]) && At(p, 208, r[13]) && At(p, 224, r[14]) && At(p, 240, r[15])
  {
    FourRows(r[0], r[1], r[2], r[3]);
    FourRows(r[4], r[5], r[6], r[7]);
    FourRows(r[8], r[9], r[10], r[11]);
    FourRows(r[12], r[13], r[14], r[15]);
    FourBlocks((r[0] + r[1]) + (r[2] + r[3]), (r[4] + r[5]) + (r[6] + r[7]),
               (r[8] + r[9]) + (r[10] + r[11]), (r[12] + r[13]) + (r[14] + r[15]));
  }

  lemma TableIs()
    ensures Table(PT)
  {
    SixteenRows(PT, [PT0, PT1, PT2, PT3, PT4, PT5, PT6, PT7, PT8, PT9, PTA, PTB, PTC, PTD, PTE, PTF]);
  }

  // ---- the expansion of the key ----

  // what is known of the bytes of L after the first loop of section 2
  ghost predicate Forward(pi: seq<bv8>, l: seq<bv8>, t: nat, i: nat) {
    |pi| == 256 && 0 < t <= i < |l| && l[i] == LookSum(pi, l[i - 1], l[i - t])
  }

  lemma {:induction false} LengthenedKeeps(pi: seq<bv8>, key: seq<bv8>, n: nat, i: nat)
    requires 0 < |key| <= i <= n && |pi| == 256
    ensures Lengthened(pi, key, n)[..i] == Lengthened(pi, key, i)
    decreases n
  {
    if i < n {
      LengthenedKeeps(pi, key, n - 1, i);
      LengthenedNext(pi, key, n, Lengthened(pi, key, n - 1));
    }
  }

  lemma LengthenedForward(pi: seq<bv8>, key: seq<bv8>, n: nat, i: nat)
    requires 0 < |key| <= i < n && |pi| == 256
    ensures Forward(pi, Lengthened(pi, key, n), |key|, i)
    ensures Lengthened(pi, key, n)[..|key|] == key
  {
    var l := Lengthened(pi, key, n);
    LengthenedKeeps(pi, key, n, |key|);
    LengthenedKeeps(pi, key, n, i + 1);
    LengthenedNext(pi, key, i + 1, Lengthened(pi, key, i));
    LengthenedKeeps(pi, key, n, i);
    assert l[i] == l[..i + 1][i] && l[i - 1] == l[..i][i - 1] && l[i - |key|] == l[..i][i - |key|];
  }

  // and after the second
  ghost predicate Backward(pi: seq<bv8>, l: seq<bv8>, t: nat, i: nat) {
    |pi| == 256 && 0 < t && i + t < |l| && l[i] == Look(pi, l[i + 1] ^ l[i + t])
  }

  lemma {:induction false} LoweredBackward(pi: seq<bv8>, l: seq<bv8>, n: nat, t: nat)
    requires |l| == 128 && n + t <= 128 && t > 0 && |pi| == 256
    ensures var m := Lowered(pi, l, n, t); m[n..] == l[n..] && forall i :: 0 <= i < n ==> Backward(pi, m, t, i)
    decreases n
  {
    if n > 0 {
      var k := l[n - 1 := Look(pi, l[n] ^ l[n - 1 + t])];
      LoweredBackward(pi, k, n - 1, t);
      var m := Lowered(pi, k, n - 1, t);
      assert m[n..] == m[n - 1..][1..] == k[n - 1..][1..] == l[n..];
      assert m[n - 1] == m[n - 1..][0] == k[n - 1];
      assert m[n] == m[n..][0] && m[n - 1 + t] == m[n..][t - 1];
    }
  }

  // ---- sixteen steps at a time ----

  ghost predicate Forwards(pi: seq<bv8>, l: seq<bv8>, t: nat, n: nat) {
    && Forward(pi, l, t, n) && Forward(pi, l, t, n + 1) && Forward(pi, l, t, n + 2) && Forward(pi, l, t, n + 3)
    && Forward(pi, l, t, n + 4) && Forward(pi, l, t, n + 5) && Forward(pi, l, t, n + 6) && Forward(pi, l, t, n + 7)
    && Forward(pi, l, t, n + 8) && Forward(pi, l, t, n + 9) && Forward(pi, l, t, n + 10) && Forward(pi, l, t, n + 11)
    && Forward(pi, l, t, n + 12) && Forward(pi, l, t, n + 13) && Forward(pi, l, t, n + 14) && Forward(pi, l, t, n + 15)
  }

  ghost predicate Backwards(pi: seq<bv8>, l: seq<bv8>, t: nat, n: nat) {
    && Backward(pi, l, t, n) && Backward(pi, l, t, n + 1) && Backward(pi, l, t, n + 2) && Backward(pi, l, t, n + 3)
    && Backward(pi, l, t, n + 4) && Backward(pi, l, t, n + 5) && Backward(pi, l, t, n + 6) && Backward(pi, l, t, n + 7)
    && Backward(pi, l, t, n + 8) && Backward(pi, l, t, n + 9) && Backward(pi, l, t, n + 10) && Backward(pi, l, t, n + 11)
    && Backward(pi, l, t, n + 12) && Backward(pi, l, t, n + 13) && Backward(pi, l, t, n + 14) && Backward(pi, l, t, n + 15)
  }

  lemma LengthenedForwards(pi: seq<bv8>, key: seq<bv8>)
    requires 0 < |key| <= 112 && |pi| == 256
    ensures var l := Lengthened(pi, key, 128);
      l[..|key|] == key && forall n :: |key| <= n <= 112 ==> Forwards(pi, l, |key|, n)
  {
    LengthenedKeeps(pi, key, 128, |key|);
    forall i | |key| <= i < 128 ensures Forward(pi, Lengthened(pi, key, 128), |key|, i) {
      LengthenedForward(pi, key, 128, i);
    }
  }

  lemma LoweredBackwards(pi: seq<bv8>, l: seq<bv8>, n: nat, t: nat)
    requires |l| == 128 && 16 <= n && n + t <= 128 && t > 0 && |pi| == 256
    ensures var m := Lowered(pi, l, n, t);
      m[n..] == l[n..] && forall i :: 0 <= i <= n - 16 ==> Backwards(pi, m, t, i)
  {
    LoweredBackward(pi, l, n, t);
  }

  // ---- the rounds ----

  // the words of the key that the sixteen bytes r spell
  ghost predicate Spelled(key: Key, n: nat, r: seq<bv8>) {
    && n + 8 <= 64 && |r| == 16
    && key[n] == Word(r[0], r[1]) && key[n + 1] == Word(r[2], r[3])
    && key[n + 2] == Word(r[4], r[5]) && key[n + 3] == Word(r[6], r[7])
    && key[n + 4] == Word(r[8], r[9]) && key[n + 5] == Word(r[10], r[11])
    && key[n + 6] == Word(r[12], r[13]) && key[n + 7] == Word(r[14], r[15])
  }

  lemma KeyOfAt(l: seq<bv8>, i: nat)
    requires |l| == 128 && i < 64
    ensures KeyOf(l)[i] == Word(l[2 * i], l[2 * i + 1])
  {}

  lemma SpelledAt(l: seq<bv8>, n: nat, r: seq<bv8>)
    requires |l| == 128 && n + 8 <= 64 && At(l, 2 * n, r)
    ensures Spelled(KeyOf(l), n, r)
  {
    var key := KeyOf(l);
    forall i | n <= i < n + 8 ensures key[i] == Word(l[2 * i], l[2 * i + 1]) {
      KeyOfAt(l, i);
    }
  }

  lemma MixUp0(a: bv16, b: bv16, c: bv16, d: bv16, k: bv16)
    ensures MixUp([a, b, c, d], k, 0) == [MixWord(a, Addend(d, c, b, k), 0), b, c, d]
  {}

  lemma MixUp1(a: bv16, b: bv16, c: bv16, d: bv16, k: bv16)
    ensures MixUp([a, b, c, d], k, 1) == [a, MixWord(b, Addend(a, d, c, k), 1), c, d]
  {}

  lemma MixUp2(a: bv16, b: bv16, c: bv16, d: bv16, k: bv16)
    ensures MixUp([a, b, c, d], k, 2) == [a, b, MixWord(c, Addend(b, a, d, k), 2), d]
  {}

  lemma MixUp3(a: bv16, b: bv16, c: bv16, d: bv16, k: bv16)
    ensures MixUp([a, b, c, d], k, 3) == [a, b, c, MixWord(d, Addend(c, b, a, k), 3)]
  {}

  lemma MixFour(key: Key, r: Words, j: nat, s: Words, t: Words, u: Words)
    requires j + 4 <= 64 && MixUp(r, key[j], 0) == s && MixUp(s, key[j + 1], 1) == t && MixUp(t, key[j + 2], 2) == u
    ensures MixUps(key, r, j, 4) == MixUp(u, key[j + 3], 3)
  {
    assert MixUps(key, r, j, 1) == MixUp(MixUps(key, r, j, 0), key[j], 0);
    assert MixUps(key, r, j, 2) == MixUp(MixUps(key, r, j, 1), key[j + 1], 1);
    assert MixUps(key, r, j, 3) == MixUp(MixUps(key, r, j, 2), key[j + 2], 2);
  }

  lemma Mixes(key: Key, i: nat, a: bv16, b: bv16, c: bv16, d: bv16, a1: bv16, b1: bv16, c1: bv16, d1: bv16)
    requires i < 16
    requires a1 == MixWord(a, Addend(d, c, b, key[4 * i]), 0) && b1 == MixWord(b, Addend(a1, d, c, key[4 * i + 1]), 1)
    requires c1 == MixWord(c, Addend(b1, a1, d, key[4 * i + 2]), 2) && d1 == MixWord(d, Addend(c1, b1, a1, key[4 * i + 3]), 3)
    ensures MixingRound(key, [a, b, c, d], i) == [a1, b1, c1, d1]
  {
    MixUp0(a, b, c, d, key[4 * i]);
    MixUp1(a1, b, c, d, key[4 * i + 1]);
    MixUp2(a1, b1, c, d, key[4 * i + 2]);
    MixUp3(a1, b1, c1, d, key[4 * i + 3]);
    MixFour(key, [a, b, c, d], 4 * i, [a1, b, c, d], [a1, b1, c, d], [a1, b1, c1, d]);
  }

  // round i takes the words a, b, c, d to a1, b1, c1, d1, before a mashing round
  lemma Step(key: Key, r: Words, i: nat, a: bv16, b: bv16, c: bv16, d: bv16, a1: bv16, b1: bv16, c1: bv16, d1: bv16)
    requires i < 16 && Rounds(key, r, i) == [a, b, c, d]
    requires a1 == MixWord(a, Addend(d, c, b, key[4 * i]), 0) && b1 == MixWord(b, Addend(a1, d, c, key[4 * i + 1]), 1)
    requires c1 == MixWord(c, Addend(b1, a1, d, key[4 * i + 2]), 2) && d1 == MixWord(d, Addend(c1, b1, a1, key[4 * i + 3]), 3)
    ensures Rounds(key, r, i + 1) == if i == 4 || i == 10 then Mash(key, [a1, b1, c1, d1]) else [a1, b1, c1, d1]
  {
    Mixes(key, i, a, b, c, d, a1, b1, c1, d1);
  }

  lemma MashUpIs(key: Key, r: Words, i: nat, x: bv16, s: Words)
    requires i < 4 && x == Plus(r[i], Select(key, r[(i + 3) % 4])) && s == r[i := x]
    ensures MashUp(key, r, i) == s
  {}

  lemma MashFour(key: Key, r: Words, s: Words, t: Words, u: Words)
    requires MashUp(key, r, 0) == s && MashUp(key, s, 1) == t && MashUp(key, t, 2) == u
    ensures Mash(key, r) == MashUp(key, u, 3)
  {
    assert MashUps(key, r, 1) == MashUp(key, MashUps(key, r, 0), 0);
    assert MashUps(key, r, 2) == MashUp(key, MashUps(key, r, 1), 1);
    assert MashUps(key, r, 3) == MashUp(key, MashUps(key, r, 2), 2);
  }

  const ZEROS: Block := [0, 0, 0, 0, 0, 0, 0, 0]

  // ---- the key 0000000000000000 with 63 bits ----

  const V63KEY: seq<bv8> := [0x00, 0x00, 0x00, 0x00, 0x00, 0x00, 0x00, 0x00]

  const V63L0: seq<bv8> := [0x00, 0x00, 0x00, 0x00, 0x00, 0x00, 0x00, 0x00, 0xD9, 0x16, 0x53, 0x1F, 0xA2, 0x41, 0xD6, 0xA8]
  const V63L1: seq<bv8> := [0xE8, 0xC1, 0x2B, 0xC0, 0x0E, 0xDC, 0x3A, 0x34, 0x44, 0xDD, 0x28, 0xBB, 0xDF, 0x5B, 0x15, 0x56]
  const V63L2: seq<bv8> := [0xD0, 0xF4, 0x44, 0xAD, 0x35, 0x96, 0x50, 0xCB, 0x5E, 0xCA, 0xD8, 0x52, 0xF7, 0x4D, 0x18, 0x1B]
  const V63L3: seq<bv8> := [0xC3, 0x4D, 0xB3, 0xDD, 0xE1, 0x7D, 0x15, 0xBD, 0x08, 0xBE, 0x11, 0xCD, 0x70, 0xB1, 0x92, 0xDC]
  const V63L4: seq<bv8> := [0xAB, 0xF2, 0xC4, 0x1A, 0x72, 0xF5, 0xF7, 0xCF, 0xD5, 0xAE, 0xC7, 0x38, 0xAF, 0x0F, 0xB5, 0x80]
  const V63L5: seq<bv8> := [0xBE, 0xBC, 0xDE, 0x53, 0xF9, 0x28, 0xE2, 0x0E, 0x67, 0xF5, 0xCF, 0x59, 0xCA, 0xDB, 0x55, 0xDA]
  const V63L6: seq<bv8> := [0xD6, 0x10, 0xA9, 0xF9, 0x98, 0xF6, 0x14, 0xCD, 0x6E, 0x1E, 0xAE, 0xCC, 0x46, 0x5C, 0xF8, 0x8A]
  const V63L7: seq<bv8> := [0x0A, 0x61, 0x9D, 0xF2, 0xF0, 0xA7, 0xEC, 0x3E, 0x73, 0xE1, 0x1E, 0xC6, 0xB4, 0x30, 0x44, 0xEA]

  const V63M0: seq<bv8> := [0xD2, 0x15, 0x52, 0x62, 0x98, 0xD0, 0x09, 0xB7, 0x87, 0xC7, 0xE7, 0x80, 0x13, 0x93, 0x9B, 0xB2]
  const V63M1: seq<bv8> := [0xE3, 0x95, 0xF7, 0x97, 0xB4, 0xD8, 0xD9, 0xA5, 0x51, 0xCE, 0x10, 0x0A, 0x6E, 0xD7, 0xA5, 0xA4]
  const V63M2: seq<bv8> := [0x6B, 0x54, 0xC1, 0x96, 0x74, 0xDA, 0x51, 0xF5, 0x69, 0x81, 0x68, 0xE4, 0x4D, 0x32, 0x50, 0x4A]
  const V63M3: seq<bv8> := [0xE4, 0x45, 0x1F, 0x1B, 0xBF, 0x7F, 0xE1, 0xE8, 0x13, 0x36, 0x48, 0x5C, 0x1E, 0x1C, 0x3C, 0x92]
  const V63M4: seq<bv8> := [0x11, 0xF2, 0xB5, 0x22, 0x62, 0x7B, 0xCF, 0xD7, 0x83, 0xDC, 0x24, 0x59, 0x63, 0xF9, 0x04, 0xFC]
  const V63M5: seq<bv8> := [0xCF, 0x6B, 0xF1, 0x41, 0x21, 0x06, 0x60, 0x77, 0xB8, 0xCC, 0x0F, 0x83, 0x3C, 0x18, 0x32, 0x4F]
  const V63M6: seq<bv8> := [0x79, 0xA8, 0x27, 0x2F, 0x45, 0xAF, 0x60, 0x5F, 0xA3, 0xF1, 0x47, 0x3E, 0x86, 0xCA, 0x1A, 0x48]
  const V63M7: seq<bv8> := [0xAD, 0x09, 0xCD, 0xF0, 0xFE, 0x48, 0xD9, 0x44, 0xF6, 0xE1, 0x1E, 0xC6, 0xB4, 0x30, 0x44, 0xEA]

  lemma V63Forward0(pi: seq<bv8>, l: seq<bv8>)
    requires Table(pi) && |l| == 128 && l[..8] == V63KEY && Forwards(pi, l, 8, 8)
    ensures At(l, 0, V63L0)
  {
    assert forall i :: 0 <= i < 8 ==> l[i] == l[..8][i];
  }

  lemma V63Forward1(pi: seq<bv8>, l: seq<bv8>)
    requires Table(pi) && At(l, 0, V63L0) && Forwards(pi, l, 8, 16) && Forwards(pi, l, 8, 32)
    ensures At(l, 16, V63L1) && At(l, 32, V63L2)
  {}

  lemma V63Forward3(pi: seq<bv8>, l: seq<bv8>)
    requires Table(pi) && At(l, 32, V63L2) && Forwards(pi, l, 8, 48) && Forwards(pi, l, 8, 64)
    ensures At(l, 48, V63L3) && At(l, 64, V63L4)
  {}

  lemma V63Forward5(pi: seq<bv8>, l: seq<bv8>)
    requires Table(pi) && At(l, 64, V63L4) && Forwards(pi, l, 8, 80) && Forwards(pi, l, 8, 96)
    ensures At(l, 80, V63L5) && At(l, 96, V63L6)
  {}

  lemma V63Forward7(pi: seq<bv8>, l: seq<bv8>)
    requires Table(pi) && At(l, 96, V63L6) && Forwards(pi, l, 8, 112)
    ensures At(l, 112, V63L7)
  {}

  lemma V63Backward7(pi: seq<bv8>, m: seq<bv8>)
    requires Table(pi) && |m| == 128 && m[120..] == [0xF6, 0xE1, 0x1E, 0xC6, 0xB4, 0x30, 0x44, 0xEA] && Backwards(pi, m, 8, 104)
    ensures At(m, 112, V63M7)
  {
    assert forall i :: 0 <= i < 8 ==> m[120 + i] == m[120..][i];
  }

  lemma V63Backward6(pi: seq<bv8>, m: seq<bv8>)
    requires Table(pi) && At(m, 112, V63M7) && Backwards(pi, m, 8, 96) && Backwards(pi, m, 8, 80)
    ensures At(m, 96, V63M6) && At(m, 80, V63M5)
  {}

  lemma V63Backward4(pi: seq<bv8>, m: seq<bv8>)
    requires Table(pi) && At(m, 80, V63M5) && Backwards(pi, m, 8, 64) && Backwards(pi, m, 8, 48)
    ensures At(m, 64, V63M4) && At(m, 48, V63M3)
  {}

  lemma V63Backward2(pi: seq<bv8>, m: seq<bv8>)
    requires Table(pi) && At(m, 48, V63M3) && Backwards(pi, m, 8, 32) && Backwards(pi, m, 8, 16)
    ensures At(m, 32, V63M2) && At(m, 16, V63M1)
  {}

  lemma V63Backward0(pi: seq<bv8>, m: seq<bv8>)
    requires Table(pi) && At(m, 16, V63M1) && Backwards(pi, m, 8, 0)
    ensures At(m, 0, V63M0)
  {}

  ghost predicate V63Key(key: Key) {
    && Spelled(key, 0, V63M0) && Spelled(key, 8, V63M1) && Spelled(key, 16, V63M2) && Spelled(key, 24, V63M3)
    && Spelled(key, 32, V63M4) && Spelled(key, 40, V63M5) && Spelled(key, 48, V63M6) && Spelled(key, 56, V63M7)
  }

  lemma V63Rounds0(key: Key, r: Words)
    requires V63Key(key) && Rounds(key, r, 0) == [0x0000, 0x0000, 0x0000, 0x0000]
    ensures Rounds(key, r, 5) == Mash(key, [0xF428, 0xDAF9, 0x6A74, 0x1DF9])
  {
    Step(key, r, 0, 0x0000, 0x0000, 0x0000, 0x0000, 0x2BA4, 0x8949, 0xCCC6, 0x4D2C);
    Step(key, r, 1, 0x2BA4, 0x8949, 0xCCC6, 0x4D2C, 0x7EE1, 0x595B, 0xE1F5, 0xE30B);
    Step(key, r, 2, 0x7EE1, 0x595B, 0xE1F5, 0xE30B, 0x1C2A, 0x4CC7, 0x4D9B, 0xB0FC);
    Step(key, r, 3, 0x1C2A, 0x4CC7, 0x4D9B, 0xB0FC, 0x6E2C, 0xE259, 0xBDAC, 0xF526);
    Step(key, r, 4, 0x6E2C, 0xE259, 0xBDAC, 0xF526, 0xF428, 0xDAF9, 0x6A74, 0x1DF9);
  }

  lemma V63Rounds5(key: Key, r: Words)
    requires V63Key(key) && Rounds(key, r, 5) == [0xE4F5, 0x1940, 0x8046, 0xB10C]
    ensures Rounds(key, r, 11) == Mash(key, [0x6160, 0xBFF6, 0x6C62, 0x3C00])
  {
    Step(key, r, 5, 0xE4F5, 0x1940, 0x8046, 0xB10C, 0xDD45, 0x3ABA, 0x5CBA, 0xAB72);
    Step(key, r, 6, 0xDD45, 0x3ABA, 0x5CBA, 0xAB72, 0x77C6, 0x054E, 0x5F7C, 0x4437);
    Step(key, r, 7, 0x77C6, 0x054E, 0x5F7C, 0x4437, 0xE6AB, 0xFC36, 0xFDEA, 0x92DA);
    Step(key, r, 8, 0xE6AB, 0xFC36, 0xFDEA, 0x92DA, 0xAB55, 0xD797, 0xE54F, 0x3807);
    Step(key, r, 9, 0xAB55, 0xD797, 0xE54F, 0x3807, 0xDEDE, 0xA709, 0xE603, 0x5D1E);
    Step(key, r, 10, 0xDEDE, 0xA709, 0xE603, 0x5D1E, 0x6160, 0xBFF6, 0x6C62, 0x3C00);
  }

  lemma V63Rounds11(key: Key, r: Words)
    requires V63Key(key) && Rounds(key, r, 11) == [0x7732, 0x6F3B, 0xB13B, 0x80D9]
    ensures Rounds(key, r, 16) == [0xB7EB, 0xF973, 0x2793, 0xFF8E]
  {
    Step(key, r, 11, 0x7732, 0x6F3B, 0xB13B, 0x80D9, 0x664A, 0x0F0E, 0x8292, 0xCAA6);
    Step(key, r, 12, 0x664A, 0x0F0E, 0x8292, 0xCAA6, 0x2C9B, 0x22DF, 0xD490, 0x542A);
    Step(key, r, 13, 0x2C9B, 0x22DF, 0xD490, 0x542A, 0x2A27, 0xD760, 0x0A05, 0xCCD7);
    Step(key, r, 14, 0x2A27, 0xD760, 0x0A05, 0xCCD7, 0x9DF2, 0x5C11, 0x7ECF, 0xDC3D);
    Step(key, r, 15, 0x9DF2, 0x5C11, 0x7ECF, 0xDC3D, 0xB7EB, 0xF973, 0x2793, 0xFF8E);
  }

  lemma V63Mash4(key: Key)
    requires V63Key(key)
    ensures Mash(key, [0xF428, 0xDAF9, 0x6A74, 0x1DF9]) == [0xE4F5, 0x1940, 0x8046, 0xB10C]
  {
    MashUpIs(key, [0xF428, 0xDAF9, 0x6A74, 0x1DF9], 0, 0xE4F5, [0xE4F5, 0xDAF9, 0x6A74, 0x1DF9]);
    MashUpIs(key, [0xE4F5, 0xDAF9, 0x6A74, 0x1DF9], 1, 0x1940, [0xE4F5, 0x1940, 0x6A74, 0x1DF9]);
    MashUpIs(key, [0xE4F5, 0x1940, 0x6A74, 0x1DF9], 2, 0x8046, [0xE4F5, 0x1940, 0x8046, 0x1DF9]);
    MashUpIs(key, [0xE4F5, 0x1940, 0x8046, 0x1DF9], 3, 0xB10C, [0xE4F5, 0x1940, 0x8046, 0xB10C]);
    MashFour(key, [0xF428, 0xDAF9, 0x6A74, 0x1DF9], [0xE4F5, 0xDAF9, 0x6A74, 0x1DF9], [0xE4F5, 0x1940, 0x6A74, 0x1DF9], [0xE4F5, 0x1940, 0x8046, 0x1DF9]);
  }

  lemma V63Mash10(key: Key)
    requires V63Key(key)
    ensures Mash(key, [0x6160, 0xBFF6, 0x6C62, 0x3C00]) == [0x7732, 0x6F3B, 0xB13B, 0x80D9]
  {
    MashUpIs(key, [0x6160, 0xBFF6, 0x6C62, 0x3C00], 0, 0x7732, [0x7732, 0xBFF6, 0x6C62, 0x3C00]);
    MashUpIs(key, [0x7732, 0xBFF6, 0x6C62, 0x3C00], 1, 0x6F3B, [0x7732, 0x6F3B, 0x6C62, 0x3C00]);
    MashUpIs(key, [0x7732, 0x6F3B, 0x6C62, 0x3C00], 2, 0xB13B, [0x7732, 0x6F3B, 0xB13B, 0x3C00]);
    MashUpIs(key, [0x7732, 0x6F3B, 0xB13B, 0x3C00], 3, 0x80D9, [0x7732, 0x6F3B, 0xB13B, 0x80D9]);
    MashFour(key, [0x6160, 0xBFF6, 0x6C62, 0x3C00], [0x7732, 0xBFF6, 0x6C62, 0x3C00], [0x7732, 0x6F3B, 0x6C62, 0x3C00], [0x7732, 0x6F3B, 0xB13B, 0x3C00]);
  }

  lemma V63Lengthened(pi: seq<bv8>)
    requires Table(pi)
    ensures At(Lengthened(pi, V63KEY, 128), 32, V63L2)
  {
    var l := Lengthened(pi, V63KEY, 128);
    LengthenedForwards(pi, V63KEY);
    V63Forward0(pi, l);
    V63Forward1(pi, l);
  }

  lemma V63LengthenedMore(pi: seq<bv8>)
    requires Table(pi)
    ensures At(Lengthened(pi, V63KEY, 128), 112, V63L7)
  {
    var l := Lengthened(pi, V63KEY, 128);
    LengthenedForwards(pi, V63KEY);
    V63Lengthened(pi);
    V63Forward3(pi, l);
    V63Forward5(pi, l);
    V63Forward7(pi, l);
  }

  lemma V63Top(pi: seq<bv8>, l: seq<bv8>, m: seq<bv8>)
    requires Table(pi) && |l| == 128 && At(l, 112, V63L7) && m == Lowered(pi, Cut(pi, l, 8, 0x7F), 120, 8)
    ensures At(m, 112, V63M7)
  {
    var c := Cut(pi, l, 8, 0x7F);
    LoweredBackwards(pi, c, 120, 8);
    assert m[120..] == c[120..];
    V63Backward7(pi, m);
  }

  lemma V63Lowered(pi: seq<bv8>, m: seq<bv8>)
    requires Table(pi) && |m| == 128 && At(m, 112, V63M7) && forall n :: 0 <= n <= 96 ==> Backwards(pi, m, 8, n)
    ensures V63Key(KeyOf(m))
  {
    V63Backward6(pi, m);
    V63Backward4(pi, m);
    V63Backward2(pi, m);
    V63Backward0(pi, m);
    V63Spelled(m);
  }

  lemma V63Spelled(m: seq<bv8>)
    requires |m| == 128 && At(m, 0, V63M0) && At(m, 16, V63M1) && At(m, 32, V63M2) && At(m, 48, V63M3)
    requires At(m, 64, V63M4) && At(m, 80, V63M5) && At(m, 96, V63M6) && At(m, 112, V63M7)
    ensures V63Key(KeyOf(m))
  {
    SpelledAt(m, 0, V63M0);
    SpelledAt(m, 8, V63M1);
    SpelledAt(m, 16, V63M2);
    SpelledAt(m, 24, V63M3);
    SpelledAt(m, 32, V63M4);
    SpelledAt(m, 40, V63M5);
    SpelledAt(m, 48, V63M6);
    SpelledAt(m, 56, V63M7);
  }

  lemma V63Narrowed(pi: seq<bv8>)
    requires Table(pi)
    ensures V63Key(Narrowed(pi, Lengthened(pi, V63KEY, 128), 63))
  {
    var l := Lengthened(pi, V63KEY, 128);
    var m := Lowered(pi, Cut(pi, l, 8, 0x7F), 120, 8);
    V63LengthenedMore(pi);
    V63Top(pi, l, m);
    LoweredBackwards(pi, Cut(pi, l, 8, 0x7F), 120, 8);
    V63Lowered(pi, m);
    assert Mask(7) == 0x7F;
  }

  lemma V63Encrypted(key: Key, r: Words)
    requires V63Key(key) && r == [0x0000, 0x0000, 0x0000, 0x0000]
    ensures Encrypt(key, r) == [0xB7EB, 0xF973, 0x2793, 0xFF8E]
  {
    V63Rounds0(key, r);
    V63Mash4(key);
    V63Rounds5(key, r);
    V63Mash10(key);
    V63Rounds11(key, r);
    RoundsEncrypt(key, r);
  }

  // section 5 of RFC 2268: the block of zeros under this key
  lemma Vector63()
    ensures EncryptBytes(Expansion(V63KEY, 63), ZEROS) == [0xEB, 0xB7, 0x73, 0xF9, 0x93, 0x27, 0x8E, 0xFF]
  {
    TableIs();
    V63Narrowed(PT);
    V63Encrypted(Expansion(V63KEY, 63), Unpack(ZEROS));
  }

  // ---- the key 88bca90e90875a7f0f79c384627bafb2 with 128 bits ----

  const V128KEY: seq<bv8> := [0x88, 0xBC, 0xA9, 0x0E, 0x90, 0x87, 0x5A, 0x7F, 0x0F, 0x79, 0xC3, 0x84, 0x62, 0x7B, 0xAF, 0xB2]

  const V128L0: seq<bv8> := [0x88, 0xBC, 0xA9, 0x0E, 0x90, 0x87, 0x5A, 0x7F, 0x0F, 0x79, 0xC3, 0x84, 0x62, 0x7B, 0xAF, 0xB2]
  const V128L1: seq<bv8> := [0x21, 0xE2, 0xAC, 0x36, 0x92, 0x4C, 0xCB, 0xC0, 0xC9, 0x65, 0x61, 0x33, 0x15, 0x96, 0x60, 0x37]
  const V128L2: seq<bv8> := [0x42, 0x87, 0xEB, 0x9A, 0x09, 0xBE, 0xAA, 0x1D, 0xFF, 0x46, 0xCC, 0xAD, 0xFA, 0x96, 0x9C, 0xCF]
  const V128L3: seq<bv8> := [0x7E, 0xDD, 0x05, 0xEC, 0xA5, 0xDA, 0x80, 0x18, 0x8E, 0xE1, 0xF4, 0xE0, 0x01, 0x74, 0xC6, 0x15]
  const V128L4: seq<bv8> := [0x71, 0xF1, 0x9C, 0x84, 0x45, 0xA2, 0x59, 0x11, 0xEC, 0x6C, 0x6F, 0xDC, 0xE2, 0xE4, 0xAF, 0xE3]
  const V128L5: seq<bv8> := [0x3B, 0x09, 0x51, 0x9E, 0x1B, 0x55, 0x70, 0xE8, 0xE1, 0x8C, 0x68, 0xCE, 0x99, 0x66, 0x76, 0x3D]
  const V128L6: seq<bv8> := [0x06, 0x9D, 0xCD, 0x9B, 0xB4, 0xE9, 0x3D, 0xB3, 0x5A, 0xFF, 0x57, 0xB3, 0xA7, 0xA0, 0x53, 0x96]
  const V128L7: seq<bv8> := [0x04, 0xE0, 0xF4, 0x2A, 0x89, 0xC7, 0x19, 0x67, 0x5D, 0xA3, 0x20, 0xCF, 0x3E, 0x89, 0x58, 0xCD]

  const V128M0: seq<bv8> := [0x71, 0xAB, 0x26, 0x46, 0x2F, 0x0B, 0x93, 0x33, 0x60, 0x9D, 0x44, 0x76, 0xE4, 0x8A, 0xB7, 0x24]
  const V128M1: seq<bv8> := [0x38, 0xC2, 0x19, 0x4B, 0x70, 0xA4, 0x70, 0x85, 0xD8, 0x4B, 0x6A, 0xF1, 0xDC, 0x72, 0x11, 0x90]
  const V128M2: seq<bv8> := [0x23, 0xB9, 0x4F, 0xE8, 0x0A, 0xEE, 0x2B, 0x6B, 0x45, 0xF2, 0x7F, 0x92, 0x3D, 0x9B, 0xE1, 0x57]
  const V128M3: seq<bv8> := [0x0D, 0xA3, 0xCE, 0x8B, 0x16, 0xAD, 0x7F, 0x78, 0xDB, 0x16, 0x6F, 0xFB, 0xC2, 0x8A, 0x83, 0x6A]
  const V128M4: seq<bv8> := [0x43, 0x92, 0xCF, 0x0B, 0x74, 0x80, 0x85, 0xDA, 0xE4, 0xB6, 0x9B, 0xDC, 0x2A, 0x46, 0x79, 0xCD]
  const V128M5: seq<bv8> := [0xFC, 0x09, 0xD8, 0x43, 0x17, 0x01, 0x69, 0x87, 0xE0, 0xC5, 0xB7, 0x65, 0xC9, 0x1D, 0xC6, 0x12]
  const V128M6: seq<bv8> := [0xB1, 0xF4, 0x4D, 0x79, 0x21, 0xB3, 0xE2, 0xC4, 0x64, 0x47, 0x50, 0x8B, 0xD2, 0xAC, 0x02, 0xE1]
  const V128M7: seq<bv8> := [0x19, 0xE0, 0xF4, 0x2A, 0x89, 0xC7, 0x19, 0x67, 0x5D, 0xA3, 0x20, 0xCF, 0x3E, 0x89, 0x58, 0xCD]

  lemma V128Forward0(pi: seq<bv8>, l: seq<bv8>)
    requires Table(pi) && |l| == 128 && l[..16] == V128KEY
    ensures At(l, 0, V128L0)
  {
    assert forall i :: 0 <= i < 16 ==> l[i] == l[..16][i];
  }

  lemma V128Forward1(pi: seq<bv8>, l: seq<bv8>)
    requires Table(pi) && At(l, 0, V128L0) && Forwards(pi, l, 16, 16) && Forwards(pi, l, 16, 32)
    ensures At(l, 16, V128L1) && At(l, 32, V128L2)
  {}

  lemma V128Forward3(pi: seq<bv8>, l: seq<bv8>)
    requires Table(pi) && At(l, 32, V128L2) && Forwards(pi, l, 16, 48) && Forwards(pi, l, 16, 64)
    ensures At(l, 48, V128L3) && At(l, 64, V128L4)
  {}

  lemma V128Forward5(pi: seq<bv8>, l: seq<bv8>)
    requires Table(pi) && At(l, 64, V128L4) && Forwards(pi, l, 16, 80) && Forwards(pi, l, 16, 96)
    ensures At(l, 80, V128L5) && At(l, 96, V128L6)
  {}

  lemma V128Forward7(pi: seq<bv8>, l: seq<bv8>)
    requires Table(pi) && At(l, 96, V128L6) && Forwards(pi, l, 16, 112)
    ensures At(l, 112, V128L7)
  {}

  lemma V128Backward7(pi: seq<bv8>, m: seq<bv8>)
    requires Table(pi) && |m| == 128 && m[112..] == [0x19, 0xE0, 0xF4, 0x2A, 0x89, 0xC7, 0x19, 0x67, 0x5D, 0xA3, 0x20, 0xCF, 0x3E, 0x89, 0x58, 0xCD]
    ensures At(m, 112, V128M7)
  {
    assert forall i :: 0 <= i < 16 ==> m[112 + i] == m[112..][i];
  }

  lemma V128Backward6(pi: seq<bv8>, m: seq<bv8>)
    requires Table(pi) && At(m, 112, V128M7) && Backwards(pi, m, 16, 96) && Backwards(pi, m, 16, 80)
    ensures At(m, 96, V128M6) && At(m, 80, V128M5)
  {}

  lemma V128Backward4(pi: seq<bv8>, m: seq<bv8>)
    requires Table(pi) && At(m, 80, V128M5) && Backwards(pi, m, 16, 64) && Backwards(pi, m, 16, 48)
    ensures At(m, 64, V128M4) && At(m, 48, V128M3)
  {}

  lemma V128Backward2(pi: seq<bv8>, m: seq<bv8>)
    requires Table(pi) && At(m, 48, V128M3) && Backwards(pi, m, 16, 32) && Backwards(pi, m, 16, 16)
    ensures At(m, 32, V128M2) && At(m, 16, V128M1)
  {}

  lemma V128Backward0(pi: seq<bv8>, m: seq<bv8>)
    requires Table(pi) && At(m, 16, V128M1) && Backwards(pi, m, 16, 0)
    ensures At(m, 0, V128M0)
  {}

  ghost predicate V128Key(key: Key) {
    && Spelled(key, 0, V128M0) && Spelled(key, 8, V128M1) && Spelled(key, 16, V128M2) && Spelled(key, 24, V128M3)
    && Spelled(key, 32, V128M4) && Spelled(key, 40, V128M5) && Spelled(key, 48, V128M6) && Spelled(key, 56, V128M7)
  }

  lemma V128Rounds0(key: Key, r: Words)
    requires V128Key(key) && Rounds(key, r, 0) == [0x0000, 0x0000, 0x0000, 0x0000]
    ensures Rounds(key, r, 5) == Mash(key, [0x230E, 0x8444, 0xDACE, 0xACA8])
  {
    Step(key, r, 0, 0x0000, 0x0000, 0x0000, 0x0000, 0x56E3, 0x1899, 0xDD80, 0xCEC9);
    Step(key, r, 1, 0x56E3, 0x1899, 0xDD80, 0xCEC9, 0xA1A7, 0xAD79, 0x602A, 0xA5B2);
    Step(key, r, 2, 0xA1A7, 0xAD79, 0x602A, 0xA5B2, 0x1895, 0x6531, 0x296C, 0x9A6B);
    Step(key, r, 3, 0x1895, 0x6531, 0x296C, 0x9A6B, 0xA3CB, 0x842B, 0xB499, 0x38F6);
    Step(key, r, 4, 0xA3CB, 0x842B, 0xB499, 0x38F6, 0x230E, 0x8444, 0xDACE, 0xACA8);
  }

  lemma V128Rounds5(key: Key, r: Words)
    requires V128Key(key) && Rounds(key, r, 5) == [0x2D0A, 0x28B4, 0x2232, 0x5FC9]
    ensures Rounds(key, r, 11) == Mash(key, [0xFE4A, 0x2164, 0xC5CF, 0x5BDD])
  {
    Step(key, r, 5, 0x2D0A, 0x28B4, 0x2232, 0x5FC9, 0x8306, 0x798F, 0x25AE, 0x670B);
    Step(key, r, 6, 0x8306, 0x798F, 0x25AE, 0x670B, 0xC742, 0xB42D, 0xCE34, 0x9E0C);
    Step(key, r, 7, 0xC742, 0xB42D, 0xCE34, 0x9E0C, 0x1885, 0x3742, 0x8817, 0x2223);
    Step(key, r, 8, 0x1885, 0x3742, 0x8817, 0x2223, 0x8017, 0x2C51, 0x55F0, 0x1FF0);
    Step(key, r, 9, 0x8017, 0x2C51, 0x55F0, 0x1FF0, 0xD9D8, 0x9B70, 0xCF51, 0x2831);
    Step(key, r, 10, 0xD9D8, 0x9B70, 0xCF51, 0x2831, 0xFE4A, 0x2164, 0xC5CF, 0x5BDD);
  }

  lemma V128Rounds11(key: Key, r: Words)
    requires V128Key(key) && Rounds(key, r, 11) == [0xF9B9, 0x4C58, 0x68DC, 0x72B8]
    ensures Rounds(key, r, 16) == [0x6922, 0x2A55, 0xF8B0, 0xA65C]
  {
    Step(key, r, 11, 0xF9B9, 0x4C58, 0x68DC, 0x72B8, 0x58E2, 0x8B2C, 0xFAAF, 0xFD41);
    Step(key, r, 12, 0x58E2, 0x8B2C, 0xFAAF, 0xFD41, 0x8F80, 0x06A0, 0x6C8D, 0x3469);
    Step(key, r, 13, 0x8F80, 0x06A0, 0x6C8D, 0x3469, 0xFADB, 0x18F7, 0xB1D2, 0x08CE);
    Step(key, r, 14, 0xFADB, 0x18F7, 0xB1D2, 0x08CE, 0xD7CF, 0x9325, 0xA950, 0xEEC8);
    Step(key, r, 15, 0xD7CF, 0x9325, 0xA950, 0xEEC8, 0x6922, 0x2A55, 0xF8B0, 0xA65C);
  }

  lemma V128Mash4(key: Key)
    requires V128Key(key)
    ensures Mash(key, [0x230E, 0x8444, 0xDACE, 0xACA8]) == [0x2D0A, 0x28B4, 0x2232, 0x5FC9]
  {
    MashUpIs(key, [0x230E, 0x8444, 0xDACE, 0xACA8], 0, 0x2D0A, [0x2D0A, 0x8444, 0xDACE, 0xACA8]);
    MashUpIs(key, [0x2D0A, 0x8444, 0xDACE, 0xACA8], 1, 0x28B4, [0x2D0A, 0x28B4, 0xDACE, 0xACA8]);
    MashUpIs(key, [0x2D0A, 0x28B4, 0xDACE, 0xACA8], 2, 0x2232, [0x2D0A, 0x28B4, 0x2232, 0xACA8]);
    MashUpIs(key, [0x2D0A, 0x28B4, 0x2232, 0xACA8], 3, 0x5FC9, [0x2D0A, 0x28B4, 0x2232, 0x5FC9]);
    MashFour(key, [0x230E, 0x8444, 0xDACE, 0xACA8], [0x2D0A, 0x8444, 0xDACE, 0xACA8], [0x2D0A, 0x28B4, 0xDACE, 0xACA8], [0x2D0A, 0x28B4, 0x2232, 0xACA8]);
  }

  lemma V128Mash10(key: Key)
    requires V128Key(key)
    ensures Mash(key, [0xFE4A, 0x2164, 0xC5CF, 0x5BDD]) == [0xF9B9, 0x4C58, 0x68DC, 0x72B8]
  {
    MashUpIs(key, [0xFE4A, 0x2164, 0xC5CF, 0x5BDD], 0, 0xF9B9, [0xF9B9, 0x2164, 0xC5CF, 0x5BDD]);
    MashUpIs(key, [0xF9B9, 0x2164, 0xC5CF, 0x5BDD], 1, 0x4C58, [0xF9B9, 0x4C58, 0xC5CF, 0x5BDD]);
    MashUpIs(key, [0xF9B9, 0x4C58, 0xC5CF, 0x5BDD], 2, 0x68DC, [0xF9B9, 0x4C58, 0x68DC, 0x5BDD]);
    MashUpIs(key, [0xF9B9, 0x4C58, 0x68DC, 0x5BDD], 3, 0x72B8, [0xF9B9, 0x4C58, 0x68DC, 0x72B8]);
    MashFour(key, [0xFE4A, 0x2164, 0xC5CF, 0x5BDD], [0xF9B9, 0x2164, 0xC5CF, 0x5BDD], [0xF9B9, 0x4C58, 0xC5CF, 0x5BDD], [0xF9B9, 0x4C58, 0x68DC, 0x5BDD]);
  }

  lemma V128Lengthened(pi: seq<bv8>)
    requires Table(pi)
    ensures At(Lengthened(pi, V128KEY, 128), 32, V128L2)
  {
    var l := Lengthened(pi, V128KEY, 128);
    LengthenedForwards(pi, V128KEY);
    V128Forward0(pi, l);
    V128Forward1(pi, l);
  }

  lemma V128LengthenedMore(pi: seq<bv8>)
    requires Table(pi)
    ensures At(Lengthened(pi, V128KEY, 128), 112, V128L7)
  {
    var l := Lengthened(pi, V128KEY, 128);
    LengthenedForwards(pi, V128KEY);
    V128Lengthened(pi);
    V128Forward3(pi, l);
    V128Forward5(pi, l);
    V128Forward7(pi, l);
  }

  lemma V128Top(pi: seq<bv8>, l: seq<bv8>, m: seq<bv8>)
    requires Table(pi) && |l| == 128 && At(l, 112, V128L7) && m == Lowered(pi, Cut(pi, l, 16, 0xFF), 112, 16)
    ensures At(m, 112, V128M7)
  {
    var c := Cut(pi, l, 16, 0xFF);
    LoweredBackwards(pi, c, 112, 16);
    assert m[112..] == c[112..];
    V128Backward7(pi, m);
  }

  lemma V128Lowered(pi: seq<bv8>, m: seq<bv8>)
    requires Table(pi) && |m| == 128 && At(m, 112, V128M7) && forall n :: 0 <= n <= 96 ==> Backwards(pi, m, 16, n)
    ensures V128Key(KeyOf(m))
  {
    V128Backward6(pi, m);
    V128Backward4(pi, m);
    V128Backward2(pi, m);
    V128Backward0(pi, m);
    V128Spelled(m);
  }

  lemma V128Spelled(m: seq<bv8>)
    requires |m| == 128 && At(m, 0, V128M0) && At(m, 16, V128M1) && At(m, 32, V128M2) && At(m, 48, V128M3)
    requires At(m, 64, V128M4) && At(m, 80, V128M5) && At(m, 96, V128M6) && At(m, 112, V128M7)
    ensures V128Key(KeyOf(m))
  {
    SpelledAt(m, 0, V128M0);
    SpelledAt(m, 8, V128M1);
    SpelledAt(m, 16, V128M2);
    SpelledAt(m, 24, V128M3);
    SpelledAt(m, 32, V128M4);
    SpelledAt(m, 40, V128M5);
    SpelledAt(m, 48, V128M6);
    SpelledAt(m, 56, V128M7);
  }

  lemma V128Narrowed(pi: seq<bv8>)
    requires Table(pi)
    ensures V128Key(Narrowed(pi, Lengthened(pi, V128KEY, 128), 128))
  {
    var l := Lengthened(pi, V128KEY, 128);
    var m := Lowered(pi, Cut(pi, l, 16, 0xFF), 112, 16);
    V128LengthenedMore(pi);
    V128Top(pi, l, m);
    LoweredBackwards(pi, Cut(pi, l, 16, 0xFF), 112, 16);
    V128Lowered(pi, m);
    assert Mask(8) == 0xFF;
  }

  lemma V128Encrypted(key: Key, r: Words)
    requires V128Key(key) && r == [0x0000, 0x0000, 0x0000, 0x0000]
    ensures Encrypt(key, r) == [0x6922, 0x2A55, 0xF8B0, 0xA65C]
  {
    V128Rounds0(key, r);
    V128Mash4(key);
    V128Rounds5(key, r);
    V128Mash10(key);
    V128Rounds11(key, r);
    RoundsEncrypt(key, r);
  }

  // section 5 of RFC 2268: the block of zeros under this key
  lemma Vector128()
    ensures EncryptBytes(Expansion(V128KEY, 128), ZEROS) == [0x22, 0x69, 0x55, 0x2A, 0xB0, 0xF8, 0x5C, 0xA6]
  {
    TableIs();
    V128Narrowed(PT);
    V128Encrypted(Expansion(V128KEY, 128), Unpack(ZEROS));
  }
}
