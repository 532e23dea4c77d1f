/**
  The Diffie-Hellman exchange of src/cipher.c, on the integers of src/mpi/mpi.c.
 */
module DiffieHellman {
  import opened Bytes
  import opened Radix
  import opened Numbers
  import opened MpInts
  import opened MpQuotient
  import opened MpModular
  import opened MpBinary
  import KeyExpand
  import Rc2

  // the modulus, as bytes, and the base
  datatype Group = Group(prime: seq<Byte>, base: int)

  // the first word of dh_prime, the rest of it, and DH_BASE
  const PRIME_HEAD: seq<Byte> := [0xCF, 0x84, 0xAF, 0xCE]

  const PRIME_TAIL: seq<Byte> := [
    0x86, 0xDD, 0xFA, 0x52, 0x7F, 0x13, 0x6D, 0x10, 0x35, 0x75, 0x28, 0xEE, 0xFB, 0xA0, 0xAF,
    0xEF, 0x80, 0x8F, 0x29, 0x17, 0x4E, 0x3B, 0x6A, 0x9E, 0x97, 0x00, 0x01, 0x71, 0x7C, 0x8F,
    0x10, 0x6C, 0x41, 0xC1, 0x61, 0xA6, 0xCE, 0x91, 0x05, 0x7B, 0x34, 0xDA, 0x62, 0xCB, 0xB8,
    0x7B, 0xFD, 0xC1, 0xB3, 0x5C, 0x1B, 0x91, 0x0F, 0xEA, 0x72, 0x24, 0x9D, 0x56, 0x6B, 0x9F
  ]

  const SAMETIME: Group := Group(PRIME_HEAD + PRIME_TAIL, 3)

  ghost predicate ValidGroup(g: Group) {
    |g.prime| == 64 && 1 < BigEndian(g.prime) && 0 <= g.base < 0x1_0000
  }

  lemma SametimeGroup()
    ensures ValidGroup(SAMETIME)
  {
    BigEndianBound(SAMETIME.prime);
    assert SAMETIME.prime[0] == PRIME_HEAD[0];
  }

  // b^n modulo the prime
  ghost function PowMod(g: Group, b: int, n: nat): (v: int)
    requires ValidGroup(g)
    ensures 0 <= v < BigEndian(g.prime)
  {
    Power(b, n) % BigEndian(g.prime)
  }

  // s is what mwDHExportKey writes for v
  ghost predicate IsExport(s: seq<Byte>, v: int) {
    v >= 0 && BigEndian(s) == v && IsBinSize(v, |s|)
  }

  // ---- arithmetic of the exchange ----

  // (g^x mod p)^y = (g^y mod p)^x modulo p
  lemma PowersCommute(g: int, x: nat, y: nat, p: int)
    requires p > 0
    ensures Power(Power(g, x) % p, y) % p == Power(Power(g, y) % p, x) % p
  {
    ReducedPower(g, x, y, p);
    ReducedPower(g, y, x, p);
    PowerPower(g, x, y);
    PowerPower(g, y, x);
    MulComm(x, y);
  }

  // reducing the base first changes nothing
  lemma ReducedPower(g: int, x: nat, y: nat, p: int)
    requires p > 0
    ensures Power(Power(g, x) % p, y) % p == Power(Power(g, x), y) % p
  {
    var b := Power(g, x);
    CongReduced(b, p);
    CongPower(b % p, b, y, p);
    var c, d := Power(b % p, y), Power(b, y);
    CongReduced(c, p);
    CongTrans(c % p, c, d, p);
    CongRemainder(c % p, d, p);
  }

  lemma CongReduced(b: int, p: int)
    requires p > 0
    ensures Cong(b % p, b, p)
  {
    var q := b / p;
    assert b == p * q + b % p;
    MulComm(p, q);
    CongIf(b, b % p, p, q);
  }

  // Two parties that exchange exported public keys export the same shared secret: s is
  // made by the owner of x from the key of y, and t the other way round.
  lemma Agreement(g: Group, x: nat, y: nat, xKey: seq<Byte>, yKey: seq<Byte>, s: seq<Byte>, t: seq<Byte>)
    requires ValidGroup(g) && IsExport(xKey, PowMod(g, g.base, x)) && IsExport(yKey, PowMod(g, g.base, y))
    requires IsExport(s, PowMod(g, BigEndian(yKey), x)) && IsExport(t, PowMod(g, BigEndian(xKey), y))
    ensures s == t
  {
    PowersCommute(g.base, x, y, BigEndian(g.prime));
    MinimalUnique(s, t);
  }

  // ---- the routines ----

  // mwInitDHPrime
  method InitPrime(g: Group) returns (prime: MpInt)
    requires ValidGroup(g)
    ensures fresh(prime) && fresh(prime.dp) && Natural(prime) && prime.Value() == BigEndian(g.prime) && prime.used <= 33
  {
    prime := new MpInt.Size(DEFPREC);
    ReadUnsignedBin(prime, g.prime);
    BigEndianBound(g.prime);
    UsedBound(prime.dp[..], prime.used);
  }

  lemma UsedBound(s: seq<Digit>, used: nat)
    requires 1 <= used <= |s| && ZeroFrom(s, used) && (used > 1 ==> s[used - 1] != 0) && Val(s) < ByteScale(1, 64)
    ensures used <= 33
  {
    MagBounds(s, used);
    ByteScaleDigits(1, 32);
    ScalePow(1, 32);
    if used > 33 {
      PowMono(32, used - 1);
    }
  }

  // mwInitDHBase
  method InitBase(g: Group) returns (base: MpInt)
    requires ValidGroup(g)
    ensures fresh(base) && fresh(base.dp) && Natural(base) && base.Value() == g.base
  {
    base := new MpInt.Size(DEFPREC);
    SetInt(base, g.base);
  }

  // mw_mp_exptmod with the prime as modulus
  method ExptPrime(g: Group, b: MpInt, e: MpInt, c: MpInt)
    requires ValidGroup(g) && b.Valid() && Natural(e) && c.Valid()
    modifies c
    ensures Natural(c) && fresh(c.dp) && c.Value() == PowMod(g, old(b.Value()), old(e.Mag()))
  {
    var prime := InitPrime(g);
    MagBounds(prime.dp[..], prime.used);
    ExptModExact(b.Value(), e.Mag(), BigEndian(g.prime), prime.used);
    var res := ExptMod(b, e, prime, c);
  }

  // mwDHRandKeypair. The 65 random bytes are an input; the first of them is masked by
  // 0xff >> 8, which leaves nothing of it.
  method RandKeypair(g: Group, privateKey: MpInt, publicKey: MpInt, random: seq<Byte>)
    requires ValidGroup(g) && privateKey.Valid() && publicKey.Valid() && |random| == 65
    requires privateKey != publicKey && privateKey.dp != publicKey.dp
    modifies privateKey, privateKey.dp, publicKey
    ensures Natural(privateKey) && privateKey.Value() == BigEndian(random[0 := 0])
    ensures Natural(publicKey) && publicKey.Value() == PowMod(g, g.base, BigEndian(random[0 := 0]))
    ensures fresh(publicKey.dp) && (privateKey.dp == old(privateKey.dp) || fresh(privateKey.dp))
  {
    var base := InitBase(g);
    ReadUnsignedBin(privateKey, random[0 := 0]);
    ExptPrime(g, base, privateKey, publicKey);
  }

  // mwDHCalculateShared
  method CalculateShared(g: Group, shared: MpInt, remote: MpInt, privateKey: MpInt)
    requires ValidGroup(g) && shared.Valid() && remote.Valid() && Natural(privateKey)
    modifies shared
    ensures Natural(shared) && fresh(shared.dp)
    ensures shared.Value() == PowMod(g, old(remote.Value()), old(privateKey.Mag()))
  {
    ExptPrime(g, remote, privateKey, shared);
  }

  // the bytes of a key as guchars
  function Octets(s: seq<Byte>): (t: seq<bv8>)
    ensures |t| == |s|
  {
    seq(|s|, i requires 0 <= i < |s| => s[i] as bv8)
  }

  // offered_RC2_128 and accepted_RC2_128: the exported secret, and the key expanded from
  // its last sixteen bytes. A shorter secret makes the C code read before its buffer, so
  // nothing is said of the key then.
  method SharedKey(g: Group, privateKey: MpInt, item: seq<Byte>, ekey: array<bv32>) returns (secret: seq<Byte>)
    requires ValidGroup(g) && Natural(privateKey) && |item| > 0 && ekey.Length == 64
    modifies ekey
    ensures IsExport(secret, PowMod(g, BigEndian(item), old(privateKey.Mag())))
    ensures |secret| >= 16 ==> Rc2.KeyWords(ekey[..]) == SecretKey(secret)
  {
    secret := SharedSecret(g, privateKey, item);
    if |secret| >= 16 {
      ExpandSecret(secret, ekey);
    }
  }

  method ExpandSecret(secret: seq<Byte>, ekey: array<bv32>)
    requires |secret| >= 16 && ekey.Length == 64
    modifies ekey
    ensures Rc2.KeyWords(ekey[..]) == SecretKey(secret)
  {
    var key := Octets(secret[|secret| - 16..]);
    KeyExpand.KeyExpand(ekey, key);
  }

  method SharedSecret(g: Group, privateKey: MpInt, item: seq<Byte>) returns (secret: seq<Byte>)
    requires ValidGroup(g) && Natural(privateKey) && |item| > 0
    ensures IsExport(secret, PowMod(g, BigEndian(item), privateKey.Mag()))
  {
    var remote := new MpInt.Size(DEFPREC);
    var shared := new MpInt.Size(DEFPREC);
    Import(remote, item);
    CalculateShared(g, shared, remote, privateKey);
    var sho := Export(shared);
    secret := sho[..];
  }

  function SecretKey(secret: seq<Byte>): Rc2.Key
    requires |secret| >= 16
  {
    KeyExpand.Expansion(Octets(secret[|secret| - 16..]), 1024)
  }

  // So both parties encrypt with the same key whenever the secret has sixteen bytes.
  lemma SameKey(g: Group, x: nat, y: nat, xKey: seq<Byte>, yKey: seq<Byte>, s: seq<Byte>, t: seq<Byte>)
    requires ValidGroup(g) && IsExport(xKey, PowMod(g, g.base, x)) && IsExport(yKey, PowMod(g, g.base, y))
    requires IsExport(s, PowMod(g, BigEndian(yKey), x)) && IsExport(t, PowMod(g, BigEndian(xKey), y))
    requires PowMod(g, PowMod(g, g.base, x), y) >= ByteScale(1, 15)
    ensures |s| >= 16 && |t| >= 16 && SecretKey(s) == SecretKey(t)
  {
    Agreement(g, x, y, xKey, yKey, s, t);
    if |t| < 16 {
      ByteScaleGrows(|t|, 15);
    }
  }

  // ---- keys as functions of the secrets ----

  // the minimal big-endian bytes of a number
  ghost function ExportBytes(v: nat): (s: seq<Byte>)
    ensures |s| > 0
  {
    if v < 0x100 then [v] else ExportBytes(v / 0x100) + [v % 0x100]
  }

  lemma {:induction false} ExportBytesMinimal(v: nat)
    ensures IsExport(ExportBytes(v), v) && (v > 0 ==> ExportBytes(v)[0] != 0)
  {
    var s := ExportBytes(v);
    if v < 0x100 {
      assert s[1..] == [];
      MinimalString(s);
    } else {
      ExportBytesMinimal(v / 0x100);
      BigEndianAppend(ExportBytes(v / 0x100), v % 0x100);
      MinimalString(s);
    }
  }

  // the public key that goes with a secret exponent
  ghost function PublicBytes(g: Group, x: nat): (s: seq<Byte>)
    requires ValidGroup(g)
    ensures |s| > 0
  {
    ExportBytes(PowMod(g, g.base, x))
  }

  // the secret that the owner of x shares with that of a public key has sixteen bytes
  ghost predicate LongSecret(g: Group, x: nat, item: seq<Byte>)
    requires ValidGroup(g)
  {
    |ExportBytes(PowMod(g, BigEndian(item), x))| >= 16
  }

  // The key that the owner of x expands from a public key. For a shorter secret the bytes
  // are read before the buffer, and nothing is known of the key.
  ghost function SharedKeyOf(g: Group, x: nat, item: seq<Byte>): Rc2.Key
    requires ValidGroup(g)
  {
    if LongSecret(g, x, item) then SecretKey(ExportBytes(PowMod(g, BigEndian(item), x)))
    else
      var zero: Rc2.Key := seq(64, _ => 0);
      assert |zero| == 64;
      var unknown: Rc2.Key :| |unknown| == 64;
      unknown
  }

  // Both secrets have sixteen bytes or neither has; if they have, each party makes the
  // same key from its own secret and the public key of the other.
  lemma SharedKeyAgrees(g: Group, x: nat, y: nat)
    requires ValidGroup(g)
    ensures LongSecret(g, x, PublicBytes(g, y)) <==> LongSecret(g, y, PublicBytes(g, x))
    ensures LongSecret(g, x, PublicBytes(g, y)) ==>
      SharedKeyOf(g, x, PublicBytes(g, y)) == SharedKeyOf(g, y, PublicBytes(g, x))
  {
    var xKey, yKey := PublicBytes(g, x), PublicBytes(g, y);
    ExportBytesMinimal(PowMod(g, g.base, x));
    ExportBytesMinimal(PowMod(g, g.base, y));
    var s, t := PowMod(g, BigEndian(yKey), x), PowMod(g, BigEndian(xKey), y);
    ExportBytesMinimal(s);
    ExportBytesMinimal(t);
    Agreement(g, x, y, xKey, yKey, ExportBytes(s), ExportBytes(t));
  }

  // the key that the last sixteen bytes of the number v expand to
  ghost predicate FromSecret(key: Rc2.Key, v: nat) {
    exists d: seq<Byte>, k: seq<bv8> :: Lowest(v, d, k) && key == KeyExpand.Expansion(k, 1024)
  }

  // d is the last sixteen bytes of v, and k the same as guchars
  ghost predicate Lowest(v: nat, d: seq<Byte>, k: seq<bv8>) {
    && |d| == |k| == 16 && BigEndian(d) == v % ByteScale(1, |d|)
    && forall i :: 0 <= i < 16 ==> k[i] == d[i] as bv8
  }

  lemma SecretKeyIs(secret: seq<Byte>)
    requires |secret| >= 16
    ensures FromSecret(SecretKey(secret), BigEndian(secret))
  {
    var d := secret[|secret| - 16..];
    TailMod(secret, |d|);
    LowestIs(d, BigEndian(secret));
    ExpandedFrom(BigEndian(secret), d, Octets(d));
  }

  lemma ExpandedFrom(v: nat, d: seq<Byte>, k: seq<bv8>)
    requires Lowest(v, d, k)
    ensures FromSecret(KeyExpand.Expansion(k, 1024), v)
  {}

  lemma LowestIs(d: seq<Byte>, v: nat)
    requires |d| == 16 && BigEndian(d) == v % ByteScale(1, |d|)
    ensures Lowest(v, d, Octets(d))
  {}

  lemma SharedFromSecret(g: Group, x: nat, y: nat)
    requires ValidGroup(g)
    ensures LongSecret(g, x, PublicBytes(g, y)) ==>
      FromSecret(SharedKeyOf(g, x, PublicBytes(g, y)), PowMod(g, PowMod(g, g.base, y), x))
  {
    var item := PublicBytes(g, y);
    var v := PowMod(g, BigEndian(item), x);
    ExportBytesMinimal(PowMod(g, g.base, y));
    ExportBytesMinimal(v);
    if LongSecret(g, x, item) {
      SecretKeyIs(ExportBytes(v));
    }
  }

  // the key expanded into a cleared table
  method MakeSharedKey(g: Group, privateKey: MpInt, item: seq<Byte>) returns (key: Rc2.Key)
    requires ValidGroup(g) && Natural(privateKey) && |item| > 0
    requires LongSecret(g, privateKey.Mag(), item)
    ensures key == SharedKeyOf(g, privateKey.Mag(), item)
  {
    var secret := SharedSecret(g, privateKey, item);
    ghost var v := PowMod(g, BigEndian(item), privateKey.Mag());
    ExportBytesMinimal(v);
    MinimalUnique(secret, ExportBytes(v));
    var ekey := new bv32[64](_ => 0);
    ExpandSecret(secret, ekey);
    key := Rc2.KeyWords(ekey[..]);
  }
}
