/** Hashing a message block by block: what the streaming buffers of libchula/sha512.c, sha1.c and md5.c
    compute.  The function that compresses one block is left uninterpreted. */
module Hashing {
  import Sequences
  import opened Bits

  type Compress<!S> = (S, seq<Byte>) -> S

  datatype Absorbed<S> = Absorbed(state: S, rest: seq<Byte>)

  /** The state after all complete blocks of b octets, and the octets behind them. */
  ghost function Absorb<S>(f: Compress<S>, b: nat, s: S, msg: seq<Byte>): (a: Absorbed<S>)
    requires b >= 1
    ensures |a.rest| < b && |a.rest| <= |msg|
    decreases |msg|
  {
    if |msg| < b then Absorbed(s, msg) else Absorb(f, b, f(s, msg[..b]), msg[b..])
  }

  /** A message may be absorbed in pieces. */
  lemma {:induction false} AbsorbPieces<S>(f: Compress<S>, b: nat, s: S, x: seq<Byte>, y: seq<Byte>)
    requires b >= 1
    ensures var a := Absorb(f, b, s, x); Absorb(f, b, s, x + y) == Absorb(f, b, a.state, a.rest + y)
    decreases |x|
  {
    if |x| >= b {
      assert (x + y)[..b] == x[..b] && (x + y)[b..] == x[b..] + y;
      AbsorbPieces(f, b, f(s, x[..b]), x[b..], y);
    }
  }

  lemma {:induction false} RestLength<S>(f: Compress<S>, b: nat, s: S, msg: seq<Byte>)
    requires b == 64 || b == 128
    ensures |Absorb(f, b, s, msg).rest| == if b == 64 then |msg| % 64 else |msg| % 128
    decreases |msg|
  {
    if |msg| >= b {
      var t, m := f(s, msg[..b]), msg[b..];
      RestLength(f, b, t, m);
      assert Absorb(f, b, s, msg).rest == Absorb(f, b, t, m).rest;
      hide Absorb;
      ModStep(|m|);
    }
  }

  lemma ModStep(n: nat)
    ensures (n + 64) % 64 == n % 64 && (n + 128) % 128 == n % 128
  {
  }

  /** Every block is compressed once, in its order. */
  lemma EachBlock<S>(f: Compress<S>, b: nat, s: S, msg: seq<Byte>, k: nat)
    requires b >= 1 && b * k + b <= |msg| && Absorb(f, b, s, msg[..b * k]).rest == []
    ensures var block := msg[b * k..b * k + b];
      Absorb(f, b, s, msg[..b * k + b]) == Absorbed(f(Absorb(f, b, s, msg[..b * k]).state, block), [])
    ensures k == 0 ==> Absorb(f, b, s, msg[..b * k]) == Absorbed(s, [])
  {
    var x, block := msg[..b * k], msg[b * k..b * k + b];
    assert msg[..b * k + b] == x + block;
    AbsorbPieces(f, b, s, x, block);
    assert [] + block == block && block[..b] == block && block[b..] == [];
  }

  // --- Padding -----------------------------------------------------------------------

  /** n octets of a number, the most significant first. */
  function BigEndian(v: nat, n: nat): (s: seq<Byte>)
    ensures |s| == n
    decreases n
  {
    if n == 0 then [] else BigEndian(v / 256, n - 1) + [v % 256]
  }

  function LittleEndian(v: nat, n: nat): (s: seq<Byte>)
    ensures |s| == n
    decreases n
  {
    if n == 0 then [] else [v % 256] + LittleEndian(v / 256, n - 1)
  }

  function Nulls(n: nat): (s: seq<Byte>)
    ensures |s| == n && forall i :: 0 <= i < n ==> s[i] == 0
  {
    seq(n, _ => 0)
  }

  const TWO_32 := 0x1_0000_0000
  const TWO_64 := 0x1_0000_0000_0000_0000

  /** What follows a message of n octets: a one bit, as few zeros as fill the last block, and the number
      of bits in 128 bits: section 5.1.2 of FIPS 180-4. */
  function Padding128(n: nat): seq<Byte> {
    [0x80] + Nulls((111 - n) % 128) + BigEndian(8 * n / TWO_64 % TWO_64, 8) + BigEndian(8 * n % TWO_64, 8)
  }

  /** The mark behind a message of n octets, for blocks of 64 octets and a length of eight. */
  function Mark64(n: nat): seq<Byte> {
    [0x80] + Nulls((55 - n) % 64)
  }

  /** The same for blocks of 64 octets, with the number of bits in 64 bits: section 5.1.1 of FIPS 180-4. */
  function Padding64(n: nat): seq<Byte> {
    Mark64(n) + (BigEndian(8 * n / TWO_32 % TWO_32, 4) + BigEndian(8 * n % TWO_32, 4))
  }

  /** The number of bits with the least significant octet first: sections 3.1 and 3.2 of RFC 1321. */
  function PaddingMd5(n: nat): seq<Byte> {
    Mark64(n) + (LittleEndian(8 * n % TWO_32, 4) + LittleEndian(8 * n / TWO_32 % TWO_32, 4))
  }

  /** Padded messages consist of complete blocks. */
  lemma PaddedLength(n: nat)
    ensures (n + |Padding128(n)|) % 128 == 0 && (n + |Padding64(n)|) % 64 == 0 && (n + |PaddingMd5(n)|) % 64 == 0
  {
    hide BigEndian, LittleEndian, Nulls;
    Fill128(n);
    Fill64(n);
    assert |Padding128(n)| == 1 + (111 - n) % 128 + 16;
    assert |Padding64(n)| == 1 + (55 - n) % 64 + 8;
    assert |PaddingMd5(n)| == 1 + (55 - n) % 64 + 8;
  }

  // What the padding is, bit by bit

  /** One set bit, then fewer than a block of clear bits, and the number of bits of the message in a word of
      some width; the message and this are whole blocks. */
  ghost predicate PadsBits(p: seq<bool>, length: nat, block: nat, width: nat)
    requires block > 0
  {
    && |p| >= 1 + width && p[0] && |p| - 1 - width < block
    && (forall i :: 1 <= i < |p| - width ==> !p[i])
    && (length + |p|) % block == 0
    && FromBits(p[|p| - width..]) == length % Pow2(width)
  }

  lemma {:induction false} BigEndianBits(v: nat, n: nat)
    ensures BytesBits(BigEndian(v, n)) == ToBits(v, 8 * n)
    decreases n
  {
    hide ToBits, BytesBits;
    if n > 0 {
      BigEndianBits(v / 256, n - 1);
      OctetBehind(BigEndian(v / 256, n - 1), v, n);
    } else {
      NoToBits(v);
      NoBytes();
    }
  }

  lemma NoBytes()
    ensures BytesBits([]) == []
  {
  }

  lemma OctetBehind(s: seq<Byte>, v: nat, n: nat)
    requires n > 0 && BytesBits(s) == ToBits(v / 256, 8 * (n - 1))
    ensures BytesBits(s + [v % 256]) == ToBits(v, 8 * n)
  {
    hide ToBits, BytesBits, Shl;
    BytesBitsConcat(s, [v % 256]);
    BytesBitsOne(v % 256);
    Shl8(v / 256);
    JoinBits(v / 256, 8 * (n - 1), v % 256, 8);
  }

  lemma NoToBits(v: nat)
    ensures ToBits(v, 0) == []
  {
  }

  lemma {:induction false} NullsBits(m: nat)
    ensures BytesBits(Nulls(m)) == Zeros(8 * m)
  {
    if m > 0 {
      assert Nulls(m)[..m - 1] == Nulls(m - 1);
      NullsBits(m - 1);
      ZeroBits(8);
      hide ToBits, BytesBits;
      assert Zeros(8 * m) == Zeros(8 * (m - 1)) + Zeros(8);
    }
  }

  lemma MarkBits(m: nat)
    ensures BytesBits([0x80] + Nulls(m)) == [true] + Zeros(7 + 8 * m)
  {
    hide ToBits, BytesBits;
    BytesBitsConcat([0x80], Nulls(m));
    BytesBitsOne(0x80);
    NullsBits(m);
    HighBit();
    TrueThenZeros(7, 8 * m);
  }

  lemma TrueThenZeros(m: nat, n: nat)
    ensures ([true] + Zeros(m)) + Zeros(n) == [true] + Zeros(m + n)
  {
  }

  lemma HighBit()
    ensures ToBits(0x80, 8) == [true] + Zeros(7)
  {
    TopOfByte();
    OneBit();
    hide ToBits, Shl;
    ZeroBits(7);
    JoinBits(1, 1, 0, 7);
  }

  lemma TopOfByte()
    ensures Shl(1, 7) == 128
  {
    Shl8(1);
  }

  lemma OneBit()
    ensures ToBits(1, 1) == [true]
  {
    assert ToBits(0, 0) == [];
  }

  /** The bits of a mark and a number. */
  lemma PadsOf(m: nat, len: seq<Byte>, length: nat, block: nat, total: nat)
    requires block > 7 + 8 * m && total == length + 8 * (1 + m + |len|) && total % block == 0
    requires FromBits(BytesBits(len)) == length % Pow2(8 * |len|)
    ensures PadsBits(BytesBits([0x80] + Nulls(m) + len), length, block, 8 * |len|)
  {
    BytesBitsConcat([0x80] + Nulls(m), len);
    MarkBits(m);
    hide BytesBits, FromBits, Pow2, Nulls;
    PadsParts(Zeros(7 + 8 * m), BytesBits(len), length, block, 8 * |len|, total);
  }

  lemma PadsParts(z: seq<bool>, len: seq<bool>, length: nat, block: nat, width: nat, total: nat)
    requires |z| < block && (forall i :: 0 <= i < |z| ==> !z[i]) && |len| == width
    requires total == length + 1 + |z| + width && total % block == 0 && FromBits(len) == length % Pow2(width)
    ensures PadsBits([true] + z + len, length, block, width)
  {
    hide FromBits, Pow2;
    var p := [true] + z + len;
    assert p[|p| - width..] == len;
    assert length + |p| == total;
  }

  /** Two words, the high one first, are the number of both. */
  lemma TwoWords(hi: nat, lo: nat, k: nat, w: nat)
    requires w == 8 * k && hi < Pow2(w) && lo < Pow2(w)
    ensures FromBits(BytesBits(BigEndian(hi, k) + BigEndian(lo, k))) == hi * Pow2(w) + lo
  {
    BytesBitsConcat(BigEndian(hi, k), BigEndian(lo, k));
    BigEndianBits(hi, k);
    BigEndianBits(lo, k);
    hide BytesBits, BigEndian, ToBits, FromBits, Pow2, Shl;
    JoinBits(hi, w, lo, w);
    ShlIs(hi, w);
    FromTo(hi * Pow2(w) + lo, w + w);
    WordsFit(hi, lo, w);
  }

  lemma WordsFit(hi: nat, lo: nat, w: nat)
    requires hi < Pow2(w) && lo < Pow2(w)
    ensures Low(hi * Pow2(w) + lo, w + w) == hi * Pow2(w) + lo
  {
    hide Pow2, Low;
    Pow2Plus(w, w);
    ProductBound(hi, lo, Pow2(w));
    LowFits(hi * Pow2(w) + lo, w + w);
  }

  lemma {:induction false} Pow2Plus(m: nat, n: nat)
    ensures Pow2(m + n) == Pow2(m) * Pow2(n)
  {
    if n > 0 {
      Pow2Plus(m, n - 1);
      assert Pow2(m) * Pow2(n) == 2 * (Pow2(m) * Pow2(n - 1));
    }
  }

  lemma ProductBound(hi: nat, lo: nat, p: nat)
    requires hi < p && lo < p
    ensures hi * p + lo < p * p
  {
    var k := p - hi - 1;
    assert p * p == hi * p + p + k * p;
  }

  lemma Powers()
    ensures Pow2(32) == TWO_32 && Pow2(64) == TWO_64 && Pow2(128) == TWO_64 * TWO_64
  {
    hide Pow2;
    Pow2Plus16(0);
    Pow2Plus16(16);
    Pow2Plus16(32);
    Pow2Plus16(48);
    Pow2Plus(64, 64);
  }

  /** The words of a number of bits. */
  lemma Words32(x: nat)
    ensures x / TWO_32 % TWO_32 * TWO_32 + x % TWO_32 == x % TWO_64
  {
    var q := x / TWO_32;
    Parts(TWO_64, x, q / TWO_32, q % TWO_32 * TWO_32 + x % TWO_32);
  }

  lemma Words64(x: nat)
    ensures x / TWO_64 % TWO_64 * TWO_64 + x % TWO_64 == x % (TWO_64 * TWO_64)
  {
    var q := x / TWO_64;
    var r := q % TWO_64 * TWO_64 + x % TWO_64;
    assert x == TWO_64 * TWO_64 * (q / TWO_64) + r;
  }

  /** SHA-1: section 5.1.1 of FIPS 180-4. */
  lemma Padding64Bits(n: nat)
    ensures PadsBits(BytesBits(Padding64(n)), 8 * n, 512, 64)
  {
    hide Pow2, BytesBits, BigEndian, Nulls, FromBits, PadsBits;
    var hi, lo, m := 8 * n / TWO_32 % TWO_32, 8 * n % TWO_32, (55 - n) % 64;
    Powers();
    Words32(8 * n);
    TwoWords(hi, lo, 4, 32);
    Fill64(n);
    PadsOf(m, BigEndian(hi, 4) + BigEndian(lo, 4), 8 * n, 512, 8 * (n + 1 + m + 8));
  }

  /** The bits that fill the last block of 1024. */
  lemma Filled128(n: nat, m: nat)
    requires m == (111 - n) % 128
    ensures m < 128 && 8 * (n + 1 + m + 16) % 1024 == 0
  {
    Fill128(n);
  }

  /** The number of bits in two words of 64. */
  lemma Length128(x: nat, len: seq<Byte>)
    requires len == BigEndian(x / TWO_64 % TWO_64, 8) + BigEndian(x % TWO_64, 8)
    ensures |len| == 16 && FromBits(BytesBits(len)) == x % Pow2(128)
  {
    hide Pow2, BytesBits, BigEndian, FromBits;
    var hi, lo := x / TWO_64 % TWO_64, x % TWO_64;
    Powers();
    Words64(x);
    TwoWords(hi, lo, 8, 64);
  }

  /** SHA-512: section 5.1.2 of FIPS 180-4. */
  lemma Padding128Bits(n: nat)
    ensures PadsBits(BytesBits(Padding128(n)), 8 * n, 1024, 128)
  {
    hide Pow2, BytesBits, BigEndian, Nulls, FromBits, PadsBits;
    var hi, lo := BigEndian(8 * n / TWO_64 % TWO_64, 8), BigEndian(8 * n % TWO_64, 8);
    Length128(8 * n, hi + lo);
    Filled128(n, (111 - n) % 128);
    Sequences.Associate([0x80] + Nulls((111 - n) % 128), hi, lo);
    PadsOf((111 - n) % 128, hi + lo, 8 * n, 1024, 8 * (n + 1 + (111 - n) % 128 + 16));
  }

  function Reversed(s: seq<Byte>): (r: seq<Byte>)
    ensures |r| == |s| && forall i :: 0 <= i < |s| ==> r[i] == s[|s| - 1 - i]
  {
    seq(|s|, i requires 0 <= i < |s| => s[|s| - 1 - i])
  }

  lemma {:induction false} LittleIsReversed(v: nat, n: nat)
    ensures Reversed(LittleEndian(v, n)) == BigEndian(v, n)
    decreases n
  {
    if n > 0 {
      LittleIsReversed(v / 256, n - 1);
      assert Reversed([v % 256] + LittleEndian(v / 256, n - 1)) == Reversed(LittleEndian(v / 256, n - 1)) + [v % 256];
    }
  }

  /** MD5 is padded like SHA-1, but for the order of the last eight octets: sections 3.1 and 3.2 of RFC 1321. */
  lemma PaddingMd5Bits(n: nat)
    ensures |PaddingMd5(n)| >= 8
    ensures var p := PaddingMd5(n); var m := |p| - 8; PadsBits(BytesBits(p[..m] + Reversed(p[m..])), 8 * n, 512, 64)
  {
    var hi, lo := 8 * n / TWO_32 % TWO_32, 8 * n % TWO_32;
    LittleIsReversed(hi, 4);
    LittleIsReversed(lo, 4);
    hide BytesBits, BigEndian, LittleEndian, Mark64, PadsBits;
    var p := PaddingMd5(n);
    var m := |p| - 8;
    assert p[..m] == Mark64(n) && p[m..] == LittleEndian(lo, 4) + LittleEndian(hi, 4);
    assert Reversed(p[m..]) == Reversed(LittleEndian(hi, 4)) + Reversed(LittleEndian(lo, 4));
    Padding64Bits(n);
  }

  lemma Fill128(n: nat)
    ensures (n + 1 + (111 - n) % 128 + 16) % 128 == 0
  {
  }

  lemma Fill64(n: nat)
    ensures (n + 1 + (55 - n) % 64 + 8) % 64 == 0
  {
  }

  /** The hash of a message: the state after its padded form. */
  ghost function Hash<S>(f: Compress<S>, b: nat, s: S, padded: seq<Byte>): S
    requires b >= 1
  {
    Absorb(f, b, s, padded).state
  }

  /** The pieces of a message. */
  function Join(pieces: seq<seq<Byte>>): seq<Byte> {
    if pieces == [] then [] else Join(pieces[..|pieces| - 1]) + pieces[|pieces| - 1]
  }

  lemma Join1(pieces: seq<seq<Byte>>, k: nat)
    requires k < |pieces|
    ensures Join(pieces[..k + 1]) == Join(pieces[..k]) + pieces[k]
  {
    assert pieces[..k + 1][..k] == pieces[..k];
  }

  // --- Steps of a streaming buffer ---------------------------------------------------------

  lemma CopyStep<T>(done: seq<T>, v: seq<T>, pos: nat, l: nat)
    requires pos + l <= |v|
    ensures done + v[pos..] == (done + v[pos..pos + l]) + v[pos + l..]
  {
    assert v[pos..] == v[pos..pos + l] + v[pos + l..];
  }

  lemma BlockStep<S>(f: Compress<S>, b: nat, s: S, full: seq<Byte>, rest: seq<Byte>)
    requires b >= 1 && |full| == b
    ensures Absorb(f, b, s, full + rest) == Absorb(f, b, f(s, full), rest) && [] + rest == rest
  {
    assert (full + rest)[..b] == full && (full + rest)[b..] == rest;
  }

  lemma LastStep<S>(f: Compress<S>, b: nat, s: S, rest: seq<Byte>, none: seq<Byte>)
    requires |rest| < b && none == []
    ensures Absorb(f, b, s, rest + none) == Absorbed(s, rest)
  {
    assert rest + none == rest;
  }

  /** The mark and the length fit in the open block. */
  lemma OneBlock<S>(f: Compress<S>, s: S, rest: seq<Byte>, n: nat, len: seq<Byte>)
    requires |rest| == n % 64 <= 55 && |len| == 8
    ensures Absorb(f, 64, s, rest + (Mark64(n) + len)) == Absorbed(f(s, rest + [0x80] + Nulls(55 - |rest|) + len), [])
  {
    var full := rest + [0x80] + Nulls(55 - |rest|) + len;
    assert (55 - n) % 64 == 55 - |rest|;
    assert rest + (Mark64(n) + len) == full + [];
    BlockStep(f, 64, s, full, []);
  }

  /** The length needs a block of its own. */
  lemma TwoBlocks<S>(f: Compress<S>, s: S, rest: seq<Byte>, n: nat, len: seq<Byte>)
    requires |rest| == n % 64 >= 56 && |len| == 8
    ensures Absorb(f, 64, s, rest + (Mark64(n) + len)) ==
      Absorbed(f(f(s, rest + [0x80] + Nulls(63 - |rest|)), Nulls(56) + len), [])
  {
    var one, two := rest + [0x80] + Nulls(63 - |rest|), Nulls(56) + len;
    assert (55 - n) % 64 == 119 - |rest|;
    assert Nulls(119 - |rest|) == Nulls(63 - |rest|) + Nulls(56);
    assert rest + (Mark64(n) + len) == one + two;
    BlockStep(f, 64, s, one, two);
    assert two == two + [];
    BlockStep(f, 64, f(s, one), two, []);
  }

  /** What the last calls of the block function have to see. */
  lemma FinalBlocks<S>(f: Compress<S>, start: S, msg: seq<Byte>, s: S, rest: seq<Byte>, len: seq<Byte>)
    requires Absorb(f, 64, start, msg) == Absorbed(s, rest) && |len| == 8
    ensures |rest| == |msg| % 64
    ensures Hash(f, 64, start, msg + (Mark64(|msg|) + len)) ==
      if |rest| <= 55 then f(s, rest + [0x80] + Nulls(55 - |rest|) + len)
      else f(f(s, rest + [0x80] + Nulls(63 - |rest|)), Nulls(56) + len)
  {
    AbsorbPieces(f, 64, start, msg, Mark64(|msg|) + len);
    RestLength(f, 64, start, msg);
    if |rest| <= 55 { OneBlock(f, s, rest, |msg|, len); } else { TwoBlocks(f, s, rest, |msg|, len); }
    hide Absorb, Nulls, Mark64;
  }

  // --- Counters of two words -------------------------------------------------------------

  lemma Parts(m: nat, x: nat, q: nat, r: nat)
    requires (m == TWO_32 || m == TWO_64) && r < m
    requires (m == TWO_32 ==> x == TWO_32 * q + r) && (m == TWO_64 ==> x == TWO_64 * q + r)
    ensures m == TWO_32 ==> x / TWO_32 == q && x % TWO_32 == r
    ensures m == TWO_64 ==> x / TWO_64 == q && x % TWO_64 == r
  {
  }

  lemma Successor(q: nat)
    ensures (q % TWO_32 + 1) % TWO_32 == (q + 1) % TWO_32 && (q % TWO_64 + 1) % TWO_64 == (q + 1) % TWO_64
  {
  }

  /** Only the value of the high word modulo 2 ^ 32 matters. */
  lemma CarryModulo(hi: nat, q: nat, e: nat)
    requires hi % TWO_32 == q % TWO_32
    ensures (hi + e) % TWO_32 == (q + e) % TWO_32
  {
    var a, b, r := hi / TWO_32, q / TWO_32, hi % TWO_32;
    var c, t := (r + e) / TWO_32, (r + e) % TWO_32;
    Parts(TWO_32, hi + e, a + c, t);
    Parts(TWO_32, q + e, b + c, t);
  }
}
