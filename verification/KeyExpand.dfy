/**
  The key expansion of src/cipher.c: section 2 of RFC 2268 with 1024 effective bits.
 */
module KeyExpand {
  import opened Rc2Words
  import opened Rc2

  // PITABLE, by its rows of sixteen
  const PT0: seq<bv8> := [0xD9, 0x78, 0xF9, 0xC4, 0x19, 0xDD, 0xB5, 0xED, 0x28, 0xE9, 0xFD, 0x79, 0x4A, 0xA0, 0xD8, 0x9D]
  const PT1: seq<bv8> := [0xC6, 0x7E, 0x37, 0x83, 0x2B, 0x76, 0x53, 0x8E, 0x62, 0x4C, 0x64, 0x88, 0x44, 0x8B, 0xFB, 0xA2]
  const PT2: seq<bv8> := [0x17, 0x9A, 0x59, 0xF5, 0x87, 0xB3, 0x4F, 0x13, 0x61, 0x45, 0x6D, 0x8D, 0x09, 0x81, 0x7D, 0x32]
  const PT3: seq<bv8> := [0xBD, 0x8F, 0x40, 0xEB, 0x86, 0xB7, 0x7B, 0x0B, 0xF0, 0x95, 0x21, 0x22, 0x5C, 0x6B, 0x4E, 0x82]
  const PT4: seq<bv8> := [0x54, 0xD6, 0x65, 0x93, 0xCE, 0x60, 0xB2, 0x1C, 0x73, 0x56, 0xC0, 0x14, 0xA7, 0x8C, 0xF1, 0xDC]
  const PT5: seq<bv8> := [0x12, 0x75, 0xCA, 0x1F, 0x3B, 0xBE, 0xE4, 0xD1, 0x42, 0x3D, 0xD4, 0x30, 0xA3, 0x3C, 0xB6, 0x26]
  const PT6: seq<bv8> := [0x6F, 0xBF, 0x0E, 0xDA, 0x46, 0x69, 0x07, 0x57, 0x27, 0xF2, 0x1D, 0x9B, 0xBC, 0x94, 0x43, 0x03]
  const PT7: seq<bv8> := [0xF8, 0x11, 0xC7, 0xF6, 0x90, 0xEF, 0x3E, 0xE7, 0x06, 0xC3, 0xD5, 0x2F, 0xC8, 0x66, 0x1E, 0xD7]
  const PT8: seq<bv8> := [0x08, 0xE8, 0xEA, 0xDE, 0x80, 0x52, 0xEE, 0xF7, 0x84, 0xAA, 0x72, 0xAC, 0x35, 0x4D, 0x6A, 0x2A]
  const PT9: seq<bv8> := [0x96, 0x1A, 0xD2, 0x71, 0x5A, 0x15, 0x49, 0x74, 0x4B, 0x9F, 0xD0, 0x5E, 0x04, 0x18, 0xA4, 0xEC]
  const PTA: seq<bv8> := [0xC2, 0xE0, 0x41, 0x6E, 0x0F, 0x51, 0xCB, 0xCC, 0x24, 0x91, 0xAF, 0x50, 0xA1, 0xF4, 0x70, 0x39]
  const PTB: seq<bv8> := [0x99, 0x7C, 0x3A, 0x85, 0x23, 0xB8, 0xB4, 0x7A, 0xFC, 0x02, 0x36, 0x5B, 0x25, 0x55, 0x97, 0x31]
  const PTC: seq<bv8> := [0x2D, 0x5D, 0xFA, 0x98, 0xE3, 0x8A, 0x92, 0xAE, 0x05, 0xDF, 0x29, 0x10, 0x67, 0x6C, 0xBA, 0xC9]
  const PTD: seq<bv8> := [0xD3, 0x00, 0xE6, 0xCF, 0xE1, 0x9E, 0xA8, 0x2C, 0x63, 0x16, 0x01, 0x3F, 0x58, 0xE2, 0x89, 0xA9]
  const PTE: seq<bv8> := [0x0D, 0x38, 0x34, 0x1B, 0xAB, 0x33, 0xFF, 0xB0, 0xBB, 0x48, 0x0C, 0x5F, 0xB9, 0xB1, 0xCD, 0x2E]
  const PTF: seq<bv8> := [0xC5, 0xF3, 0xDB, 0x47, 0xE5, 0xA5, 0x9C, 0x77, 0x0A, 0xA6, 0x20, 0x68, 0xFE, 0x7F, 0xC1, 0xAD]

  const PT: seq<bv8> := (((PT0 + PT1) + (PT2 + PT3)) + ((PT4 + PT5) + (PT6 + PT7)))
                      + (((PT8 + PT9) + (PTA + PTB)) + ((PTC + PTD) + (PTE + PTF)))

  lemma TableSize()
    ensures |PT| == 256
  {}

  function Look(pi: seq<bv8>, x: bv8): bv8
    requires |pi| == 256
  {
    pi[x as int]
  }

  function LookSum(pi: seq<bv8>, x: bv8, y: bv8): bv8
    requires |pi| == 256
  {
    Look(pi, x + y)
  }

  // ---- section 2 of RFC 2268 ----

  // L[i] = PITABLE[L[i-1] + L[i-T]] for i from T up to n
  function Lengthened(pi: seq<bv8>, key: seq<bv8>, n: nat): (l: seq<bv8>)
    requires 0 < |key| <= n && |pi| == 256
    ensures |l| == n
    decreases n, key
  {
    if n == |key| then key
    else var l := Lengthened(pi, key, n - 1); l + [LookSum(pi, l[n - 2], l[n - 1 - |key|])]
  }

  // L[128-T8] = PITABLE[L[128-T8] & TM]
  function Cut(pi: seq<bv8>, l: seq<bv8>, t8: nat, tm: bv8): (m: seq<bv8>)
    requires |l| == 128 && 0 < t8 <= 128 && |pi| == 256
    ensures |m| == 128
  {
    l[128 - t8 := Look(pi, l[128 - t8] & tm)]
  }

  // L[i] = PITABLE[L[i+1] ^ L[i+T8]] for i from n-1 down to 0
  function Lowered(pi: seq<bv8>, l: seq<bv8>, n: nat, t8: nat): (m: seq<bv8>)
    requires |l| == 128 && n + t8 <= 128 && t8 > 0 && |pi| == 256
    ensures |m| == 128
    decreases n, l
  {
    if n == 0 then l else Lowered(pi, l[n - 1 := Look(pi, l[n] ^ l[n - 1 + t8])], n - 1, t8)
  }

  // K[i] = L[2i] + 256 * L[2i+1]
  function KeyOf(l: seq<bv8>): Key
    requires |l| == 128
  {
    seq(64, i requires 0 <= i < 64 => Word(l[2 * i], l[2 * i + 1]))
  }

  // the byte whose n lowest bits are set
  function Mask(n: nat): bv8 {
    if n == 0 then 0 else (Mask(n - 1) << 1) | 1
  }

  // the key for t1 effective bits, where TM = 255 modulo 2^(8 + t1 - 8 * t8)
  function Narrowed(pi: seq<bv8>, l: seq<bv8>, t1: nat): Key
    requires |l| == 128 && 0 < t1 <= 1024 && |pi| == 256
  {
    var t8 := (t1 + 7) / 8;
    KeyOf(Lowered(pi, Cut(pi, l, t8, Mask(8 + t1 - 8 * t8)), 128 - t8, t8))
  }

  function Expansion(key: seq<bv8>, t1: nat): Key
    requires 0 < |key| <= 128 && 0 < t1 <= 1024
  {
    TableSize();
    Narrowed(PT, Lengthened(PT, key, 128), t1)
  }

  // ---- mwKeyExpand ----

  lemma LengthenedNext(pi: seq<bv8>, key: seq<bv8>, n: nat, l: seq<bv8>)
    requires |pi| == 256 && 0 < |key| < n && l == Lengthened(pi, key, n - 1)
    ensures Lengthened(pi, key, n) == l + [LookSum(pi, l[n - 2], l[n - 1 - |key|])]
  {}

  // the first two loops: the bytes that are given, and those made from them
  method FillKey(pi: seq<bv8>, tmp: array<bv8>, key: seq<bv8>)
    requires |pi| == 256 && tmp.Length == 128 && 0 < |key| <= 128
    modifies tmp
    ensures tmp[..] == Lengthened(pi, key, 128)
  {
    var keylen, i: int := |key|, |key|;
    while i > 0
      invariant 0 <= i <= |key| && forall k :: i <= k < |key| ==> tmp[k] == key[k]
    {
      i := i - 1;
      tmp[i] := key[i];
    }
    i := 0;
    while keylen < 128
      invariant |key| <= keylen <= 128 && i == keylen - |key|
      invariant tmp[..keylen] == Lengthened(pi, key, keylen)
    {
      LengthenedNext(pi, key, keylen + 1, tmp[..keylen]);
      tmp[keylen] := LookSum(pi, tmp[keylen - 1], tmp[i]);
      keylen := keylen + 1;
      i := i + 1;
    }
    assert tmp[..] == tmp[..128];
  }

  lemma PairIsWord(lo: bv8, hi: bv8)
    ensures Low(((lo as bv32) & 0xff) | ((hi as bv32) << 8)) == ((hi as bv16) << 8) | (lo as bv16)
  {}

  // (lo & 0xff) | (hi << 8)
  method Pair(lo: bv8, hi: bv8) returns (x: bv32)
    ensures Low(x) == Word(lo, hi)
  {
    PairIsWord(lo, hi);
    x := ((lo as bv32) & 0xff) | ((hi as bv32) << 8);
  }

  // mwKeyExpand. Keys beyond 128 bytes are cut off; an empty key leaves ekey as it was.
  // What it computes is the expansion of RFC 2268 for 1024 effective bits.
  method KeyExpand(ekey: array<bv32>, key: seq<bv8>)
    requires ekey.Length == 64
    modifies ekey
    ensures key == [] ==> ekey[..] == old(ekey[..])
    ensures key != [] ==> KeyWords(ekey[..]) == Expansion(if |key| > 128 then key[..128] else key, 1024)
  {
    if |key| == 0 {
      return;
    }
    TableSize();
    var cut := if |key| > 128 then key[..128] else key;
    var tmp := new bv8[128];
    FillKey(PT, tmp, cut);
    tmp[0] := Look(PT, tmp[0] & 0xff);
    ghost var l := tmp[..];
    var i, j := 0, 0;
    while i < 64
      invariant 0 <= i <= 64 && j == 2 * i && tmp[..] == l
      invariant forall k :: 0 <= k < i ==> Low(ekey[k]) == KeyOf(l)[k]
    {
      ekey[i] := Pair(tmp[j], tmp[j + 1]);
      j := j + 2;
      i := i + 1;
    }
    AllBits(PT, Lengthened(PT, cut, 128));
    assert KeyWords(ekey[..]) == KeyOf(l);
  }

  // with 1024 bits nothing is masked and nothing is lowered
  lemma AllBits(pi: seq<bv8>, l: seq<bv8>)
    requires |l| == 128 && |pi| == 256
    ensures Narrowed(pi, l, 1024) == KeyOf(Cut(pi, l, 128, 0xff))
  {
    FullMask();
  }

  lemma FullMask()
    ensures Mask(8) == 0xff
  {}
}
