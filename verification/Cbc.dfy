/**
  Cipher block chaining with padding (mwEncryptExpanded and mwDecryptExpanded of
  src/cipher.c). The chaining value is kept across messages.
 */
module Cbc {
  import opened Rc2

  // ---- padding ----

  // how many bytes are added: at least one, up to a multiple of eight
  function PadLength(n: nat): (p: nat)
    ensures 1 <= p <= 8 && (n + p) % 8 == 0
  {
    8 - n % 8
  }

  function PadByte(p: nat): bv8
    requires p <= 8
  {
    p as bv8
  }

  lemma PadByteValue(p: nat)
    requires 1 <= p <= 8
    ensures PadByte(p) as int == p
  {
    if p == 1 {
    } else if p == 2 {
    } else if p == 3 {
    } else if p == 4 {
    } else if p == 5 {
    } else if p == 6 {
    } else if p == 7 {
    } else {
    }
  }

  // every byte of the padding is its length
  function Pad(m: seq<bv8>): (s: seq<bv8>)
    ensures |s| == |m| + PadLength(|m|) && |s| % 8 == 0 && |m| < |s| <= |m| + 8
  {
    m + seq(PadLength(|m|), _ => PadByte(PadLength(|m|)))
  }

  // the length after the last byte is taken off; a C gsize, so it wraps below zero
  function Trimmed(s: seq<bv8>): int
    requires |s| > 0
  {
    |s| - s[|s| - 1] as int
  }

  lemma TrimPad(m: seq<bv8>)
    ensures Trimmed(Pad(m)) == |m| && Pad(m)[..|m|] == m
  {
    PadByteValue(PadLength(|m|));
  }

  // ---- chaining ----

  function XorByte(x: bv8, y: bv8): bv8 {
    x ^ y
  }

  lemma XorTwice(x: bv8, y: bv8)
    ensures (x ^ y) ^ y == x
  {}

  lemma XorByteTwice(x: bv8, y: bv8)
    ensures XorByte(XorByte(x, y), y) == x
  {
    XorTwice(x, y);
  }

  function Xor(a: Block, b: Block): Block {
    seq(8, i requires 0 <= i < 8 => XorByte(a[i], b[i]))
  }

  lemma XorBlockTwice(a: Block, b: Block)
    ensures Xor(Xor(a, b), b) == a
  {
    forall i | 0 <= i < 8 ensures Xor(Xor(a, b), b)[i] == a[i] {
      XorByteTwice(a[i], b[i]);
    }
  }

  // one block: each is mixed with the ciphertext before it
  function Link(key: Key, iv: Block, b: Block): Block {
    EncryptBytes(key, Xor(b, iv))
  }

  function Unlink(key: Key, iv: Block, c: Block): Block {
    Xor(DecryptBytes(key, c), iv)
  }

  lemma UnlinkLink(key: Key, iv: Block, b: Block)
    ensures Unlink(key, iv, Link(key, iv, b)) == b
  {
    DecryptEncryptBytes(key, Xor(b, iv));
    XorBlockTwice(b, iv);
  }

  function Chain(key: Key, iv: Block, s: seq<bv8>): (c: seq<bv8>)
    decreases |s|
    ensures |c| == |s| - |s| % 8
  {
    if |s| < 8 then [] else Link(key, iv, s[..8]) + Chain(key, Link(key, iv, s[..8]), s[8..])
  }

  // the chaining value left behind
  function ChainIv(key: Key, iv: Block, s: seq<bv8>): Block
    decreases |s|
  {
    if |s| < 8 then iv else ChainIv(key, Link(key, iv, s[..8]), s[8..])
  }

  function Unchain(key: Key, iv: Block, c: seq<bv8>): (s: seq<bv8>)
    decreases |c|
    ensures |s| == |c| - |c| % 8
  {
    if |c| < 8 then [] else Unlink(key, iv, c[..8]) + Unchain(key, c[..8], c[8..])
  }

  function UnchainIv(iv: Block, c: seq<bv8>): Block
    decreases |c|
  {
    if |c| < 8 then iv else UnchainIv(c[..8], c[8..])
  }

  lemma {:induction false} UnchainChain(key: Key, iv: Block, s: seq<bv8>)
    decreases |s|
    requires |s| % 8 == 0
    ensures Unchain(key, iv, Chain(key, iv, s)) == s
    ensures UnchainIv(iv, Chain(key, iv, s)) == ChainIv(key, iv, s)
  {
    if |s| >= 8 {
      var b: Block := Link(key, iv, s[..8]);
      var rest := Chain(key, b, s[8..]);
      UnlinkLink(key, iv, s[..8]);
      UnchainChain(key, b, s[8..]);
      assert (b + rest)[..8] == b && (b + rest)[8..] == rest;
      assert s == s[..8] + s[8..];
    }
  }

  // ---- every block and byte ----

  // the ciphertext block before position at, and the chaining value before the first
  function Before(iv: Block, c: seq<bv8>, at: nat): Block
    requires at % 8 == 0 && at <= |c|
  {
    if at == 0 then iv else c[at - 8..at]
  }

  lemma {:induction false} ChainBlock(key: Key, iv: Block, s: seq<bv8>, at: nat)
    requires |s| % 8 == 0 && at % 8 == 0 && at + 8 <= |s|
    ensures var c := Chain(key, iv, s); c[at..at + 8] == Link(key, Before(iv, c, at), s[at..at + 8])
    decreases at
  {
    var b: Block, c := Link(key, iv, s[..8]), Chain(key, iv, s);
    if at > 0 {
      ChainBlock(key, b, s[8..], at - 8);
      Moved(b, Chain(key, b, s[8..]), at);
      Moved(s[..8], s[8..], at);
      assert s == s[..8] + s[8..];
    }
  }

  lemma {:induction false} UnchainBlock(key: Key, iv: Block, c: seq<bv8>, at: nat)
    requires |c| % 8 == 0 && at % 8 == 0 && at + 8 <= |c|
    ensures Unchain(key, iv, c)[at..at + 8] == Unlink(key, Before(iv, c, at), c[at..at + 8])
    decreases at
  {
    var b, s: Block := c[..8], Unlink(key, iv, c[..8]);
    if at > 0 {
      UnchainBlock(key, b, c[8..], at - 8);
      Moved(s, Unchain(key, b, c[8..]), at);
      Moved(b, c[8..], at);
      assert c == c[..8] + c[8..];
    }
  }

  // positions behind a block that is put in front
  lemma Moved(b: Block, s: seq<bv8>, at: nat)
    requires 8 <= at <= |s| && at % 8 == 0
    ensures (b + s)[at..at + 8] == s[at - 8..at]
    ensures forall iv: Block :: Before(iv, b + s, at) == Before(b, s, at - 8)
  {
    assert at > 8 ==> (b + s)[at - 8..at] == s[at - 16..at - 8];
    assert at == 8 ==> (b + s)[0..8] == b;
  }

  // the chaining value left behind is the last block of the ciphertext
  lemma {:induction false} ChainIvLast(key: Key, iv: Block, s: seq<bv8>)
    requires |s| % 8 == 0 && |s| > 0
    ensures ChainIv(key, iv, s) == Chain(key, iv, s)[|s| - 8..]
    decreases |s|
  {
    if |s| > 8 {
      ChainIvLast(key, Link(key, iv, s[..8]), s[8..]);
    } else {
      assert s[8..] == [];
    }
  }

  lemma {:induction false} UnchainIvLast(iv: Block, c: seq<bv8>)
    requires |c| % 8 == 0 && |c| > 0
    ensures UnchainIv(iv, c) == c[|c| - 8..]
    decreases |c|
  {
    if |c| == 8 {
      assert UnchainIv(c[..8], c[8..]) == c[..8];
    } else {
      UnchainIvLast(c[..8], c[8..]);
    }
  }

  lemma LinkByte(key: Key, p: Block, b: Block, j: nat)
    requires j < 8
    ensures DecryptBytes(key, Link(key, p, b))[j] == b[j] ^ p[j]
  {
    DecryptEncryptBytes(key, Xor(b, p));
  }

  lemma UnlinkByte(key: Key, p: Block, b: Block, j: nat)
    requires j < 8
    ensures Unlink(key, p, b)[j] == DecryptBytes(key, b)[j] ^ p[j]
  {}

  // Every byte of the plaintext is mixed, by exclusive or, with the one eight places before
  // it in the ciphertext, or with the initial value.
  lemma ChainByte(key: Key, iv: Block, s: seq<bv8>, at: nat, j: nat)
    requires |s| % 8 == 0 && at % 8 == 0 && at + 8 <= |s| && j < 8
    ensures var c := Chain(key, iv, s);
      DecryptBytes(key, c[at..at + 8])[j] == s[at + j] ^ (if at == 0 then iv[j] else c[at - 8 + j])
  {
    var c := Chain(key, iv, s);
    ChainBlock(key, iv, s, at);
    BeforeByte(iv, c, at, j);
    LinkByte(key, Before(iv, c, at), s[at..at + 8], j);
  }

  lemma UnchainByte(key: Key, iv: Block, c: seq<bv8>, at: nat, j: nat)
    requires |c| % 8 == 0 && at % 8 == 0 && at + 8 <= |c| && j < 8
    ensures Unchain(key, iv, c)[at + j] ==
            DecryptBytes(key, c[at..at + 8])[j] ^ (if at == 0 then iv[j] else c[at - 8 + j])
  {
    UnchainBlock(key, iv, c, at);
    BeforeByte(iv, c, at, j);
    UnlinkByte(key, Before(iv, c, at), c[at..at + 8], j);
    SliceByte(Unchain(key, iv, c), at, j);
  }

  lemma BeforeByte(iv: Block, c: seq<bv8>, at: nat, j: nat)
    requires at % 8 == 0 && at <= |c| && j < 8
    ensures Before(iv, c, at)[j] == if at == 0 then iv[j] else c[at - 8 + j]
  {}

  lemma SliceByte(s: seq<bv8>, at: nat, j: nat)
    requires at + 8 <= |s| && j < 8
    ensures s[at..at + 8][j] == s[at + j]
  {}

  // ---- messages ----

  // the ciphertext of a message, and the chaining value after it
  function Seal(key: Key, iv: Block, m: seq<bv8>): seq<bv8> {
    Chain(key, iv, Pad(m))
  }

  function SealIv(key: Key, iv: Block, m: seq<bv8>): Block {
    ChainIv(key, iv, Pad(m))
  }

  // The receiver gets the message back and the same chaining value; the ciphertext is
  // as long as the next multiple of eight above the message.
  lemma OpenSeal(key: Key, iv: Block, m: seq<bv8>)
    ensures var c := Seal(key, iv, m);
      && |c| % 8 == 0 && |m| < |c| <= |m| + 8
      && Trimmed(Unchain(key, iv, c)) == |m| && Unchain(key, iv, c)[..|m|] == m
      && UnchainIv(iv, c) == SealIv(key, iv, m)
  {
    UnchainChain(key, iv, Pad(m));
    TrimPad(m);
  }

  // byte j of the block at at of a ciphertext, decrypted and mixed with the one before it
  function Unmixed(key: Key, iv: Block, c: seq<bv8>, at: nat, j: nat): bv8
    requires at % 8 == 0 && at + 8 <= |c| && j < 8
  {
    DecryptBytes(key, c[at..at + 8])[j] ^ Before(iv, c, at)[j]
  }

  // d is byte i of a message, or of the padding behind it, whose bytes are all its length
  ghost predicate StandsFor(m: seq<bv8>, i: nat, d: bv8) {
    if i < |m| then d == m[i] else d as int == 8 - |m| % 8
  }

  ghost predicate SealedByte(key: Key, iv: Block, m: seq<bv8>, c: seq<bv8>, at: int, j: int)
    requires 0 <= at && at % 8 == 0 && 0 <= j < 8
  {
    at + 8 <= |c| && StandsFor(m, at + j, Unmixed(key, iv, c, at, j))
  }

  lemma SealByte(key: Key, iv: Block, m: seq<bv8>, at: nat, j: nat)
    requires at % 8 == 0 && at <= |m| && j < 8
    ensures |Seal(key, iv, m)| == |m| + 8 - |m| % 8 >= at + 8
    ensures SealedByte(key, iv, m, Seal(key, iv, m), at, j)
  {
    BlockFits(|m|, at);
    UnmixedByte(key, iv, Pad(m), at, j);
    PadStands(m, at + j);
  }

  lemma UnmixedByte(key: Key, iv: Block, s: seq<bv8>, at: nat, j: nat)
    requires |s| % 8 == 0 && at % 8 == 0 && at + 8 <= |s| && j < 8
    ensures Unmixed(key, iv, Chain(key, iv, s), at, j) == s[at + j]
  {
    ChainBlock(key, iv, s, at);
    LinkUnmixed(key, Before(iv, Chain(key, iv, s), at), s[at..at + 8], j);
  }

  lemma LinkUnmixed(key: Key, p: Block, b: Block, j: nat)
    requires j < 8
    ensures DecryptBytes(key, Link(key, p, b))[j] ^ p[j] == b[j]
  {
    LinkByte(key, p, b, j);
    XorTwice(b[j], p[j]);
  }

  lemma BlockFits(n: nat, at: nat)
    requires at % 8 == 0 && at <= n
    ensures at + 8 <= n + 8 - n % 8
  {}

  lemma PadStands(m: seq<bv8>, i: nat)
    requires i < |Pad(m)|
    ensures StandsFor(m, i, Pad(m)[i])
  {
    PadByteValue(PadLength(|m|));
  }

  // the chaining value is left at the last block
  lemma SealLast(key: Key, iv: Block, m: seq<bv8>)
    ensures SealIv(key, iv, m) == Seal(key, iv, m)[|Seal(key, iv, m)| - 8..]
  {
    ChainIvLast(key, iv, Pad(m));
  }

  // what the receiver makes of any ciphertext
  function Open(key: Key, iv: Block, c: seq<bv8>): seq<bv8> {
    var s := Unchain(key, iv, c);
    if |s| > 0 && 0 <= Trimmed(s) <= |s| then s[..Trimmed(s)] else []
  }

  // a run of messages
  function SealAll(key: Key, iv: Block, ms: seq<seq<bv8>>): (cs: seq<seq<bv8>>)
    decreases |ms|
    ensures |cs| == |ms|
  {
    if ms == [] then [] else [Seal(key, iv, ms[0])] + SealAll(key, SealIv(key, iv, ms[0]), ms[1..])
  }

  function OpenAll(key: Key, iv: Block, cs: seq<seq<bv8>>): (ms: seq<seq<bv8>>)
    decreases |cs|
    ensures |ms| == |cs|
  {
    if cs == [] then [] else [Open(key, iv, cs[0])] + OpenAll(key, UnchainIv(iv, cs[0]), cs[1..])
  }

  // the chaining values of the two sides after a run
  function SealAllIv(key: Key, iv: Block, ms: seq<seq<bv8>>): Block
    decreases |ms|
  {
    if ms == [] then iv else SealAllIv(key, SealIv(key, iv, ms[0]), ms[1..])
  }

  function OpenAllIv(iv: Block, cs: seq<seq<bv8>>): Block
    decreases |cs|
  {
    if cs == [] then iv else OpenAllIv(UnchainIv(iv, cs[0]), cs[1..])
  }

  // A whole conversation: from equal keys and equal chaining values every message
  // arrives as it was sent, and after each of them the chaining values are equal again.
  lemma {:induction false} Conversation(key: Key, iv: Block, ms: seq<seq<bv8>>)
    decreases |ms|
    ensures OpenAll(key, iv, SealAll(key, iv, ms)) == ms
    ensures OpenAllIv(iv, SealAll(key, iv, ms)) == SealAllIv(key, iv, ms)
  {
    if ms != [] {
      OpenSeal(key, iv, ms[0]);
      Conversation(key, SealIv(key, iv, ms[0]), ms[1..]);
      assert SealAll(key, iv, ms)[1..] == SealAll(key, SealIv(key, iv, ms[0]), ms[1..]);
    }
  }

  // what has been sent first does not depend on what is sent later
  lemma ConversationPrefix(key: Key, iv: Block, ms: seq<seq<bv8>>, n: nat)
    requires n <= |ms|
    ensures SealAll(key, iv, ms)[..n] == SealAll(key, iv, ms[..n])
    ensures OpenAllIv(iv, SealAll(key, iv, ms)[..n]) == SealAllIv(key, iv, ms[..n])
  {
    Conversation(key, iv, ms[..n]);
    SealPrefix(key, iv, ms, n);
  }

  lemma {:induction false} SealPrefix(key: Key, iv: Block, ms: seq<seq<bv8>>, n: nat)
    decreases n
    requires n <= |ms|
    ensures SealAll(key, iv, ms)[..n] == SealAll(key, iv, ms[..n])
  {
    if n > 0 {
      SealPrefix(key, SealIv(key, iv, ms[0]), ms[1..], n - 1);
      assert ms[..n][1..] == ms[1..][..n - 1];
    }
  }

  // ---- the routines ----

  // o[y] ^= iv[y] for a block
  method XorInto(o: array<bv8>, at: nat, iv: array<bv8>)
    requires at + 8 <= o.Length && iv.Length == 8 && o != iv
    modifies o
    ensures o[..] == Patch(old(o[..]), at, Xor(old(o[at..at + 8]), iv[..]))
  {
    var y := 8;
    while y > 0
      invariant 0 <= y <= 8
      invariant forall i :: y <= i < 8 ==> o[at + i] == XorByte(old(o[at + i]), iv[i])
      invariant forall i :: 0 <= i < o.Length && !(at + y <= i < at + 8) ==> o[i] == old(o[i])
    {
      y := y - 1;
      o[at + y] := XorByte(o[at + y], iv[y]);
    }
  }

  // iv[y] = s[y] for a block
  method SetIv(iv: array<bv8>, s: seq<bv8>, at: nat)
    requires iv.Length == 8 && at + 8 <= |s|
    modifies iv
    ensures iv[..] == s[at..at + 8]
  {
    var y := 8;
    while y > 0
      invariant 0 <= y <= 8
      invariant forall i :: y <= i < 8 ==> iv[i] == s[at + i]
    {
      y := y - 1;
      iv[y] := s[at + y];
    }
  }

  // the first two loops of mwEncryptExpanded: the message and its padding
  method PaddedCopy(data: seq<bv8>) returns (o: array<bv8>)
    ensures fresh(o) && o[..] == Pad(data)
  {
    var len := |data| + PadLength(|data|);
    o := new bv8[len];
    var y := PadByte(len - |data|);
    var x := |data|;
    while x > 0
      invariant 0 <= x <= |data| && forall i :: x <= i < |data| ==> o[i] == data[i]
    {
      x := x - 1;
      o[x] := data[x];
    }
    x := |data|;
    while x < len
      invariant |data| <= x <= len && forall i :: 0 <= i < |data| ==> o[i] == data[i]
      invariant forall i :: |data| <= i < x ==> o[i] == y
    {
      o[x] := y;
      x := x + 1;
    }
  }

  // one turn of the encryption loop
  method LinkBlock(ekey: seq<bv32>, o: array<bv8>, at: nat, iv: array<bv8>)
    requires |ekey| == 64 && at + 8 <= o.Length && iv.Length == 8 && o != iv
    modifies o, iv
    ensures var c := Link(KeyWords(ekey), old(iv[..]), old(o[at..at + 8]));
      o[..] == Patch(old(o[..]), at, c) && iv[..] == c
  {
    ghost var s := o[..];
    XorInto(o, at, iv);
    PatchTwice(s, at, Xor(s[at..at + 8], iv[..]), Link(KeyWords(ekey), iv[..], s[at..at + 8]));
    EncryptBlock(ekey, o, at);
    SetIv(iv, o[..], at);
  }

  lemma PatchTwice(s: seq<bv8>, at: nat, b: Block, c: Block)
    requires at + 8 <= |s|
    ensures |Patch(s, at, b)| == |s| && Patch(s, at, b)[at..at + 8] == b
    ensures Patch(Patch(s, at, b), at, c) == Patch(s, at, c) && Patch(s, at, c)[at..at + 8] == c
  {}

  // The blocks before at are done, and those after it still to be done.
  ghost predicate Chained(key: Key, iv0: Block, s: seq<bv8>, o: seq<bv8>, iv: Block, at: nat) {
    && at <= |s| == |o| && at % 8 == 0 && |s| % 8 == 0 && o[at..] == s[at..]
    && o[..at] + Chain(key, iv, s[at..]) == Chain(key, iv0, s)
    && ChainIv(key, iv, s[at..]) == ChainIv(key, iv0, s)
  }

  lemma ChainedStep(key: Key, iv0: Block, s: seq<bv8>, o: seq<bv8>, iv: Block, at: nat)
    requires Chained(key, iv0, s, o, iv, at) && at < |s|
    ensures at + 8 <= |s|
    ensures var c := Link(key, iv, o[at..at + 8]); Chained(key, iv0, s, Patch(o, at, c), c, at + 8)
  {
    var c: Block := Link(key, iv, s[at..at + 8]);
    ChainUnfold(key, iv, s, at);
    Glue(s, o, at, c, Chain(key, iv, s[at..]), Chain(key, c, s[at + 8..]), Chain(key, iv0, s));
  }

  lemma ChainUnfold(key: Key, iv: Block, s: seq<bv8>, at: nat)
    requires at + 8 <= |s|
    ensures var c := Link(key, iv, s[at..at + 8]);
      && Chain(key, iv, s[at..]) == c + Chain(key, c, s[at + 8..])
      && ChainIv(key, iv, s[at..]) == ChainIv(key, c, s[at + 8..])
  {
    assert s[at..][..8] == s[at..at + 8];
    assert s[at..][8..] == s[at + 8..];
  }

  // done + (b + rest) = (done + b) + rest, with b patched into the buffer
  lemma Glue(s: seq<bv8>, o: seq<bv8>, at: nat, b: Block, tail: seq<bv8>, rest: seq<bv8>, all: seq<bv8>)
    requires at + 8 <= |s| == |o| && o[at..] == s[at..] && tail == b + rest && o[..at] + tail == all
    ensures var p := Patch(o, at, b); |p| == |o| && p[at + 8..] == s[at + 8..] && p[..at + 8] + rest == all
    ensures o[at..at + 8] == s[at..at + 8]
  {
    var p := Patch(o, at, b);
    assert p[..at + 8] == o[..at] + b;
    assert (o[..at] + b) + rest == o[..at] + (b + rest);
    assert o[at..at + 8] == o[at..][..8] == s[at..][..8];
    assert o[at + 8..] == o[at..][8..] == s[at..][8..];
  }

  // mwEncryptExpanded. The loop counters are ints, so a message fills less than 2^31
  // bytes.
  method EncryptExpanded(ekey: seq<bv32>, iv: array<bv8>, data: seq<bv8>) returns (o: array<bv8>)
    requires |ekey| == 64 && iv.Length == 8 && |data| + 8 < 0x8000_0000
    modifies iv
    ensures fresh(o) && o[..] == Seal(KeyWords(ekey), old(iv[..]), data)
    ensures iv[..] == SealIv(KeyWords(ekey), old(iv[..]), data) == o[o.Length - 8..]
    ensures o.Length == |data| + 8 - |data| % 8
    ensures forall at, j :: 0 <= at <= |data| && at % 8 == 0 && 0 <= j < 8 ==>
              SealedByte(KeyWords(ekey), old(iv[..]), data, o[..], at, j)
  {
    ghost var key, iv0 := KeyWords(ekey), iv[..];
    o := ChainPadded(ekey, iv, data);
    SealBytes(key, iv0, data);
  }

  lemma SealBytes(key: Key, iv: Block, m: seq<bv8>)
    ensures var c := Seal(key, iv, m);
      && |c| == |m| + 8 - |m| % 8 && SealIv(key, iv, m) == c[|c| - 8..]
      && forall at, j :: 0 <= at <= |m| && at % 8 == 0 && 0 <= j < 8 ==> SealedByte(key, iv, m, c, at, j)
  {
    SealLast(key, iv, m);
    forall at, j | 0 <= at <= |m| && at % 8 == 0 && 0 <= j < 8 ensures SealedByte(key, iv, m, Seal(key, iv, m), at, j) {
      SealByte(key, iv, m, at, j);
    }
  }

  // its loops
  method ChainPadded(ekey: seq<bv32>, iv: array<bv8>, data: seq<bv8>) returns (o: array<bv8>)
    requires |ekey| == 64 && iv.Length == 8
    modifies iv
    ensures fresh(o) && o[..] == Seal(KeyWords(ekey), old(iv[..]), data)
    ensures iv[..] == SealIv(KeyWords(ekey), old(iv[..]), data)
  {
    ghost var key, iv0 := KeyWords(ekey), iv[..];
    o := PaddedCopy(data);
    ghost var s := Pad(data);
    var x: int, at := o.Length, 0;
    assert s[0..] == s;
    while x > 0
      invariant x == o.Length - at && Chained(key, iv0, s, o[..], iv[..], at) && fresh(o)
    {
      ChainedStep(key, iv0, s, o[..], iv[..], at);
      LinkBlock(ekey, o, at, iv);
      x := x - 8;
      at := at + 8;
    }
    assert s[at..] == [];
    assert o[..at] == o[..];
  }

  // ---- decryption ----

  // one turn of the decryption loop; i is the ciphertext
  method UnlinkBlock(ekey: seq<bv32>, o: array<bv8>, at: nat, iv: array<bv8>, i: seq<bv8>)
    requires |ekey| == 64 && at + 8 <= o.Length == |i| && iv.Length == 8 && o != iv
    modifies o, iv
    ensures o[..] == Patch(old(o[..]), at, Unlink(KeyWords(ekey), old(iv[..]), old(o[at..at + 8])))
    ensures iv[..] == i[at..at + 8]
  {
    ghost var s := o[..];
    PatchTwice(s, at, DecryptBytes(KeyWords(ekey), s[at..at + 8]), Unlink(KeyWords(ekey), iv[..], s[at..at + 8]));
    DecryptBlock(ekey, o, at);
    XorInto(o, at, iv);
    SetIv(iv, i, at);
  }

  ghost predicate Unchained(key: Key, iv0: Block, c: seq<bv8>, o: seq<bv8>, iv: Block, at: nat) {
    && at <= |c| == |o| && at % 8 == 0 && |c| % 8 == 0 && o[at..] == c[at..]
    && o[..at] + Unchain(key, iv, c[at..]) == Unchain(key, iv0, c)
    && UnchainIv(iv, c[at..]) == UnchainIv(iv0, c)
  }

  lemma UnchainedStep(key: Key, iv0: Block, c: seq<bv8>, o: seq<bv8>, iv: Block, at: nat)
    requires Unchained(key, iv0, c, o, iv, at) && at < |c|
    ensures at + 8 <= |c|
    ensures Unchained(key, iv0, c, Patch(o, at, Unlink(key, iv, o[at..at + 8])), c[at..at + 8], at + 8)
  {
    var b: Block := Unlink(key, iv, c[at..at + 8]);
    UnchainUnfold(key, iv, c, at);
    Glue(c, o, at, b, Unchain(key, iv, c[at..]), Unchain(key, c[at..at + 8], c[at + 8..]), Unchain(key, iv0, c));
  }

  lemma UnchainUnfold(key: Key, iv: Block, c: seq<bv8>, at: nat)
    requires at + 8 <= |c|
    ensures var b := c[at..at + 8];
      && Unchain(key, iv, c[at..]) == Unlink(key, iv, b) + Unchain(key, b, c[at + 8..])
      && UnchainIv(iv, c[at..]) == UnchainIv(b, c[at + 8..])
  {
    assert c[at..][..8] == c[at..at + 8];
    assert c[at..][8..] == c[at + 8..];
  }

  lemma UnchainedStart(key: Key, iv0: Block, c: seq<bv8>)
    requires |c| % 8 == 0
    ensures Unchained(key, iv0, c, c, iv0, 0)
  {
    assert c[0..] == c;
  }

  // its first loop
  method CopyOf(data: seq<bv8>) returns (o: array<bv8>)
    ensures fresh(o) && o[..] == data
  {
    o := new bv8[|data|];
    var x: int := |data|;
    while x > 0
      invariant 0 <= x <= |data| && forall i :: x <= i < |data| ==> o[i] == data[i]
    {
      x := x - 1;
      o[x] := data[x];
    }
  }

  lemma UnchainedEnd(key: Key, iv0: Block, c: seq<bv8>, o: seq<bv8>, iv: Block)
    requires Unchained(key, iv0, c, o, iv, |c|)
    ensures o == Unchain(key, iv0, c) && iv == UnchainIv(iv0, c)
  {
    assert c[|c|..] == [];
    assert o[..|c|] == o;
  }

  // its main loop, over a copy of the ciphertext
  method UnchainInPlace(ekey: seq<bv32>, iv: array<bv8>, o: array<bv8>, data: seq<bv8>)
    requires |ekey| == 64 && iv.Length == 8 && |data| % 8 == 0 && o[..] == data && o != iv
    modifies o, iv
    ensures o[..] == Unchain(KeyWords(ekey), old(iv[..]), data)
    ensures iv[..] == UnchainIv(old(iv[..]), data)
  {
    ghost var key, iv0 := KeyWords(ekey), iv[..];
    var x: int, at := o.Length, 0;
    UnchainedStart(key, iv0, data);
    while x > 0
      invariant x == |data| - at && Unchained(key, iv0, data, o[..], iv[..], at)
    {
      UnchainedStep(key, iv0, data, o[..], iv[..], at);
      UnlinkBlock(ekey, o, at, iv, data);
      x := x - 8;
      at := at + 8;
    }
    UnchainedEnd(key, iv0, data, o[..], iv[..]);
  }

  // mwDecryptExpanded, for a ciphertext of whole blocks. The data is o[..len].
  method DecryptExpanded(ekey: seq<bv32>, iv: array<bv8>, data: seq<bv8>) returns (o: array<bv8>, len: int)
    requires |ekey| == 64 && iv.Length == 8 && 0 < |data| < 0x8000_0000 && |data| % 8 == 0
    modifies iv
    ensures fresh(o) && o[..] == Unchain(KeyWords(ekey), old(iv[..]), data) && len == Trimmed(o[..])
    ensures iv[..] == UnchainIv(old(iv[..]), data) == data[|data| - 8..]
    ensures len == |data| - o[|data| - 1] as int
    ensures forall at, j :: 0 <= at < |data| && at % 8 == 0 && 0 <= j < 8 ==>
              OpenedByte(KeyWords(ekey), old(iv[..]), data, o[..], at, j)
  {
    ghost var key, iv0 := KeyWords(ekey), iv[..];
    o := CopyOf(data);
    UnchainInPlace(ekey, iv, o, data);
    len := |data| - o[o.Length - 1] as int;
    OpenedBytes(key, iv0, data);
  }

  // byte j of the block at at of the plaintext s
  ghost predicate OpenedByte(key: Key, iv: Block, c: seq<bv8>, s: seq<bv8>, at: int, j: int)
    requires 0 <= at && at % 8 == 0 && 0 <= j < 8
  {
    at + 8 <= |c| == |s| && s[at + j] == Unmixed(key, iv, c, at, j)
  }

  lemma OpenedBytes(key: Key, iv: Block, c: seq<bv8>)
    requires |c| % 8 == 0 && |c| > 0
    ensures UnchainIv(iv, c) == c[|c| - 8..]
    ensures forall at, j :: 0 <= at < |c| && at % 8 == 0 && 0 <= j < 8 ==> OpenedByte(key, iv, c, Unchain(key, iv, c), at, j)
  {
    UnchainIvLast(iv, c);
    forall at, j | 0 <= at < |c| && at % 8 == 0 && 0 <= j < 8 ensures OpenedByte(key, iv, c, Unchain(key, iv, c), at, j) {
      OpenedAt(key, iv, c, at, j);
    }
  }

  lemma OpenedAt(key: Key, iv: Block, c: seq<bv8>, at: nat, j: nat)
    requires |c| % 8 == 0 && at % 8 == 0 && at < |c| && j < 8
    ensures OpenedByte(key, iv, c, Unchain(key, iv, c), at, j)
  {
    BlockInside(|c|, at);
    UnchainBlock(key, iv, c, at);
    UnlinkByte(key, Before(iv, c, at), c[at..at + 8], j);
    SliceByte(Unchain(key, iv, c), at, j);
  }

  lemma BlockInside(n: nat, at: nat)
    requires n % 8 == 0 && at % 8 == 0 && at < n
    ensures at + 8 <= n
  {}
}
