/** KlMurmurHashCode: MurmurHash2 with seed 2773, multiplier 0x5bd1e995 and
    shift 24, computed in 32-bit unsigned arithmetic (products modulo 2^32). The length parameter is
    an `unsigned short`, so a length is reduced modulo 2^16 on the way in and
    only that many leading bytes are hashed. Blocks are read through a
    `uint32_t*`, i.e. in the host's little-endian order. */
module Murmur {
  import opened Bytes

  const SEED: uint32 := 2773
  const M: uint32 := 0x5bd1e995

  /** `x >> n` on a uint32: `n` halvings, each dropping the low bit. */
  function Shr(x: uint32, n: nat): (r: uint32)
    ensures r <= x
    ensures n > 0 ==> r <= x / 2
  {
    if n == 0 then x else Shr(x / 2, n - 1)
  }

  /** The word `*(uint32_t *) data` reads on a little-endian host. */
  function Word(s: seq<byte>): uint32
    requires |s| >= 4
  {
    s[0] as int + s[1] as int * TWO_8 + s[2] as int * TWO_16 + s[3] as int * TWO_24
  }

  /** One iteration of the block loop: mix the block into `k`, then into `h`. */
  function MixBlock(h: uint32, k: uint32): uint32 {
    var k1 := Mul32(k, M);
    var k2 := Xor32(k1, Shr(k1, 24));
    var k3 := Mul32(k2, M);
    Xor32(Mul32(h, M), k3)
  }

  /** The block loop as a recursion: consume 4-byte blocks while at least four bytes remain. */
  function Blocks(h: uint32, s: seq<byte>): uint32
    decreases |s|
  {
    if |s| < 4 then h else Blocks(MixBlock(h, Word(s)), s[4..])
  }

  /** The `switch` on the 0..3 leftover bytes, with its 3 -> 2 -> 1 fall-through;
      `data[2] << 16` and `data[1] << 8` cannot overflow. */
  function Tail(h: uint32, t: seq<byte>): uint32
    requires |t| < 4
  {
    if |t| == 0 then h
    else
      var h3 := if |t| == 3 then Xor32(h, t[2] as int * TWO_16) else h;
      var h2 := if |t| >= 2 then Xor32(h3, t[1] as int * TWO_8) else h3;
      Mul32(Xor32(h2, t[0] as int), M)
  }

  function Finalize(h: uint32): uint32 {
    var a := Xor32(h, Shr(h, 13));
    var b := Mul32(a, M);
    Xor32(b, Shr(b, 15))
  }

  /** MurmurHash2 of a key shorter than 2^16 bytes. */
  function Hash(key: seq<byte>): uint32
    requires |key| < TWO_16
  {
    RemainderFits(|key|);
    var n := |key| - |key| % 4;
    Finalize(Tail(Blocks(Xor32(SEED, |key|), key), key[n..]))
  }

  lemma RemainderFits(x: nat)
    ensures x % 4 <= x && x % 4 < 4
  {
  }

  /** KlMurmurHashCode(key, len): `len` is narrowed to 16 bits before anything is hashed. */
  function KlMurmurHashCode(key: seq<byte>, len: nat): uint32
    requires len % TWO_16 <= |key|
  {
    Hash(key[..len % TWO_16])
  }

  /** The block loop run on a suffix: stepping one block on both sides keeps the result. */
  lemma {:induction false} BlocksStep(h: uint32, s: seq<byte>, i: nat)
    requires i + 4 <= |s|
    ensures Blocks(h, s[i..]) == Blocks(MixBlock(h, Word(s[i..i + 4])), s[i + 4..])
  {
    assert s[i..][4..] == s[i + 4..];
    assert Word(s[i..]) == Word(s[i..i + 4]);
  }

  /** The loop reads its block from the key itself, which agrees with the hashed prefix. */
  lemma LoopStep(key: seq<byte>, s: seq<byte>, h: uint32, i: nat)
    requires |s| <= |key| && s == key[..|s|] && i + 4 <= |s|
    ensures Blocks(h, s[i..]) == Blocks(MixBlock(h, Word(key[i..i + 4])), s[i + 4..])
  {
    BlocksStep(h, s, i);
    assert s[i..i + 4] == key[i..i + 4];
  }

  /** The bytes after offset `i` of a prefix of the key are the key's own. */
  lemma PrefixTail(key: seq<byte>, s: seq<byte>, i: nat)
    requires |s| <= |key| && s == key[..|s|] && i <= |s|
    ensures key[i..|s|] == s[i..]
  {
  }

  lemma LeftoverIsRemainder(blocks: nat, l: nat)
    requires l < 4
    ensures (4 * blocks + l) % 4 == l
  {
  }

  /** The C loop itself, over a pointer offset `i` and a remaining count `l`;
      it computes exactly `KlMurmurHashCode`. */
  method MurmurHashLoop(key: seq<byte>, len: nat) returns (h: uint32)
    requires len % TWO_16 <= |key|
    ensures h == KlMurmurHashCode(key, len)
  {
    var l: nat := len % TWO_16;
    ghost var s := key[..l];
    h := Xor32(SEED, l);
    ghost var h0 := h;
    var i: nat := 0;
    ghost var blocks: nat := 0;
    while l >= 4
      invariant i + l == |s| && i == 4 * blocks
      invariant Blocks(h, s[i..]) == Blocks(h0, s)
      decreases l
    {
      LoopStep(key, s, h, i);
      h := MixStep(h, Word(key[i..i + 4]));
      i := i + 4;
      l := l - 4;
      blocks := blocks + 1;
    }
    LoopExit(s, h0, h, blocks, l);
    PrefixTail(key, s, i);
    h := TailSwitch(h, key[i..i + l]);
    h := FinalMix(h);
  }

  /** When the loop stops, the offset is the largest multiple of four in the
      key, and finishing from the loop's value is the whole hash. */
  lemma LoopExit(s: seq<byte>, h0: uint32, h: uint32, blocks: nat, l: nat)
    requires l < 4 && 4 * blocks + l == |s| && |s| < TWO_16
    requires h0 == Xor32(SEED, |s|) && Blocks(h, s[4 * blocks..]) == Blocks(h0, s)
    ensures Hash(s) == Finalize(Tail(h, s[4 * blocks..]))
  {
    LeftoverIsRemainder(blocks, l);
    HashUnfolded(s, 4 * blocks);
    assert Blocks(h, s[4 * blocks..]) == h;
  }

  lemma HashUnfolded(s: seq<byte>, n: nat)
    requires |s| < TWO_16 && n == |s| - |s| % 4
    ensures Hash(s) == Finalize(Tail(Blocks(Xor32(SEED, |s|), s), s[n..]))
  {
  }

  /** One pass of the loop body, statement by statement. */
  method MixStep(h0: uint32, k0: uint32) returns (h: uint32)
    ensures h == MixBlock(h0, k0)
  {
    var k := Mul32(k0, M);
    k := Xor32(k, Shr(k, 24));
    k := Mul32(k, M);
    h := Mul32(h0, M);
    h := Xor32(h, k);
  }

  /** The fall-through `switch` over the leftover bytes, statement by statement. */
  method TailSwitch(h0: uint32, t: seq<byte>) returns (h: uint32)
    requires |t| < 4
    ensures h == Tail(h0, t)
  {
    h := h0;
    if |t| == 3 { h := Xor32(h, t[2] as int * TWO_16); }
    if |t| >= 2 { h := Xor32(h, t[1] as int * TWO_8); }
    if |t| >= 1 { h := Xor32(h, t[0] as int); h := Mul32(h, M); }
  }

  /** The closing avalanche, statement by statement. */
  method FinalMix(h0: uint32) returns (h: uint32)
    ensures h == Finalize(h0)
  {
    h := Xor32(h0, Shr(h0, 13));
    h := Mul32(h, M);
    h := Xor32(h, Shr(h, 15));
  }

  /** Lengths that agree modulo 2^16 hash the same bytes: a payload of
      2^16 + n bytes is checked only on its first n bytes. */
  lemma {:induction false} HashedLengthWraps(key: seq<byte>, len: nat)
    requires len < |key| && TWO_16 + len <= |key|
    ensures KlMurmurHashCode(key, TWO_16 + len) == KlMurmurHashCode(key, len)
  {
    assert (TWO_16 + len) % TWO_16 == len % TWO_16;
  }

  /** Two payloads of exactly 2^16 bytes hash like the empty key, whatever they hold. */
  lemma FullWrapIgnoresContent(a: seq<byte>, b: seq<byte>)
    requires |a| == TWO_16 && |b| == TWO_16
    ensures KlMurmurHashCode(a, |a|) == KlMurmurHashCode(b, |b|) == Hash([])
  {
    assert a[..0] == b[..0] == [];
  }

  /** `x ^ (x >> n)` with n > 0 vanishes only at zero. */
  lemma XorShiftZero(x: uint32, n: nat)
    requires n > 0 && Xor32(x, Shr(x, n)) == 0
    ensures x == 0
  {
    XorZeroOnlyEqual(x, Shr(x, n));
  }

  /** The inverse of M modulo 2^32: M * M_INV == 1 + 1381656390 * 2^32. */
  const M_INV: nat := 0xe59b19bd

  /** Multiplying by the odd constant M loses no non-zero value: M has an
      inverse modulo 2^32. */
  lemma MulMZero(a: uint32)
    requires Mul32(a, M) == 0
    ensures a == 0
  {
    var q := (a * M) / TWO_32;
    assert a * M == TWO_32 * q;
    assert (a * M) * M_INV == a + TWO_32 * (1381656390 * a);
    assert (a * M) * M_INV == TWO_32 * (q * M_INV);
    assert a == TWO_32 * (q * M_INV - 1381656390 * a);
  }

  /** The final avalanche maps only zero to zero. */
  lemma FinalizeZero(h: uint32)
    requires Finalize(h) == 0
    ensures h == 0
  {
    var a := Xor32(h, Shr(h, 13));
    var b := Mul32(a, M);
    XorShiftZero(b, 15);
    MulMZero(a);
    XorShiftZero(h, 13);
  }

  /** Every one-byte key hashes to a non-zero value. */
  lemma OneByteHashNonZero(key: seq<byte>)
    requires |key| == 1
    ensures Hash(key) != 0
  {
    OneByteHash(key);
    OddLessOne(SEED);
    OneByteTailNonZero(Xor32(SEED, 1), key[0]);
  }

  /** A start value wider than a byte survives the one-byte tail and the avalanche. */
  lemma OneByteTailNonZero(h0: uint32, x: byte)
    requires h0 >= 0x100
    ensures Finalize(Mul32(Xor32(h0, x as int), M)) != 0
  {
    var h1 := Xor32(h0, x as int);
    if h1 == 0 { XorZeroOnlyEqual(h0, x as int); }
    if Finalize(Mul32(h1, M)) == 0 {
      FinalizeZero(Mul32(h1, M));
      MulMZero(h1);
    }
  }

  /** A one-byte key skips the block loop and goes through the one-byte tail. */
  lemma OneByteHash(key: seq<byte>)
    requires |key| == 1
    ensures Hash(key) == Finalize(Mul32(Xor32(Xor32(SEED, 1), key[0] as int), M))
  {
    HashUnfolded(key, 0);
    assert key[0..] == key;
  }
}
