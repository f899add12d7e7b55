/** libchula/md5.c: the buffering and the padding of MD5. */
module Md5Streams {
  import opened Bits
  import opened Hashing

  type State(0)

  const BLOCK := 64

  /** struct MD5Context; bytes counts the octets of the message in two words of 32 bits. */
  class Md5 {
    var buf: State
    var bytes0: nat
    var bytes1: nat
    const inn: array<Byte>
    const transform: Compress<State>
    ghost const start: State
    ghost var msg: seq<Byte>

    ghost predicate Valid()
      reads this, inn
    {
      && inn.Length == BLOCK
      && bytes0 == |msg| % TWO_32 && bytes1 == |msg| / TWO_32 % TWO_32
      && Absorb(transform, BLOCK, start, msg) == Absorbed(buf, inn[..|msg| % BLOCK])
    }

    /** MD5Init */
    constructor (transform: Compress<State>, start: State)
      ensures Valid() && fresh(inn) && msg == [] && this.transform == transform && this.start == start
    {
      bytes0, bytes1, buf, msg := 0, 0, start, [];
      this.transform, this.start := transform, start;
      inn := new Byte[BLOCK](_ => 0);
    }

    /** MD5Transform on the block in inn. */
    method Transform()
      requires inn.Length == BLOCK
      modifies this`buf
      ensures buf == transform(old(buf), inn[..])
    {
      buf := transform(buf, inn[..]);
    }

    /** memcpy (in + at, v + pos, l) */
    method CopyIn(at: nat, v: seq<Byte>, pos: nat, l: nat)
      requires inn.Length == BLOCK && at + l <= BLOCK && pos + l <= |v|
      modifies inn
      ensures inn[..at + l] == old(inn[..at]) + v[pos..pos + l]
    {
      forall i | 0 <= i < l { inn[at + i] := v[pos + i]; }
    }

    /** The two words after a piece. */
    method Count(len: nat)
      modifies this`bytes0, this`bytes1
      ensures bytes0 == (old(bytes0) + len) % TWO_32
      ensures bytes1 == if bytes0 < old(bytes0) then (old(bytes1) + 1) % TWO_32 else old(bytes1)
    {
      var t := bytes0;
      bytes0 := (t + len) % TWO_32;
      if bytes0 < t {
        bytes1 := (bytes1 + 1) % TWO_32;
      }
    }

    /** MD5Update; len is an unsigned int. */
    method Update(v: seq<Byte>)
      requires Valid() && |v| < TWO_32
      modifies this`buf, this`bytes0, this`bytes1, this`msg, inn
      ensures Valid() && msg == old(msg) + v
    {
      hide Absorb;
      CountStep(|msg|, |v|);
      CountOf(|msg|);
      var t := bytes0;
      Count(|v|);
      AbsorbPieces(transform, BLOCK, start, msg, v);
      RestLength(transform, BLOCK, start, msg + v);
      Feed(v, 64 - t % 64);
      msg := msg + v;
    }

    /** The rest of MD5Update, with space for t octets in the open block. */
    method Feed(v: seq<Byte>, t: nat)
      requires inn.Length == BLOCK && 1 <= t <= BLOCK
      modifies this`buf, inn
      ensures var a := Absorb(transform, BLOCK, old(buf), old(inn[..BLOCK - t]) + v);
        buf == a.state && inn[..|a.rest|] == a.rest
    {
      ghost var open := inn[..BLOCK - t];
      if t > |v| {
        hide Absorb;
        LastStep(transform, BLOCK, buf, open + v, []);
        assert open + v + [] == open + v && v[..|v|] == v;
        CopyIn(64 - t, v, 0, |v|);
        assert v[0..|v|] == v;
        return;
      }
      hide Absorb;
      CopyStep(open, v, 0, t);
      assert v[0..] == v;
      CopyIn(64 - t, v, 0, t);
      assert inn[..64] == inn[..];
      BlockStep(transform, BLOCK, buf, inn[..], v[t..]);
      Transform();
      FeedBlocks(v, t);
    }

    method FeedBlocks(v: seq<Byte>, from: nat)
      requires inn.Length == BLOCK && from <= |v|
      modifies this`buf, inn
      ensures var a := Absorb(transform, BLOCK, old(buf), v[from..]); buf == a.state && inn[..|a.rest|] == a.rest
    {
      ghost var target := Absorb(transform, BLOCK, buf, v[from..]);
      hide Absorb;
      var pos := from;
      while |v| - pos >= 64
        invariant from <= pos <= |v| && Absorb(transform, BLOCK, buf, v[pos..]) == target
      {
        CopyIn(0, v, pos, 64);
        CopyStep([], v, pos, 64);
        assert inn[..64] == inn[..] == v[pos..pos + 64];
        assert [] + v[pos..] == v[pos..] && [] + v[pos..pos + 64] == v[pos..pos + 64];
        pos := pos + 64;
        BlockStep(transform, BLOCK, buf, inn[..], v[pos..]);
        Transform();
      }
      assert inn[..0] == [];
      CopyIn(0, v, pos, |v| - pos);
      assert inn[..|v| - pos] == v[pos..] && v[pos..] + [] == v[pos..];
      LastStep(transform, BLOCK, buf, v[pos..], []);
    }

    /** MD5Final: the result is the hash of the whole message. */
    method Final() returns (result: State)
      requires Valid()
      modifies this`buf, inn
      ensures result == Hash(transform, BLOCK, start, msg + PaddingMd5(|msg|))
    {
      ghost var n, rest := |msg|, inn[..|msg| % BLOCK];
      ghost var len := LittleEndian(8 * n % TWO_32, 4) + LittleEndian(8 * n / TWO_32 % TWO_32, 4);
      FinalBlocks(transform, start, msg, buf, rest, len);
      CountOf(n);
      BitCount(n);
      assert PaddingMd5(n) == Mark64(n) + len;
      hide Absorb, Hash, LittleEndian, Nulls, Or, PaddingMd5, Mark64;
      Mark(bytes0 % 64, rest);
      PutLength(len);
      Transform();
      result := buf;
    }

    /** The mark behind the open block, and zeros up to the place of the length. */
    method Mark(open: nat, ghost rest: seq<Byte>)
      requires inn.Length == BLOCK && open < BLOCK && rest == inn[..open]
      modifies this`buf, inn
      ensures open <= 55 ==> buf == old(buf) && inn[..56] == rest + [0x80] + Nulls(55 - open)
      ensures open > 55 ==> buf == transform(old(buf), rest + [0x80] + Nulls(63 - open)) && inn[..56] == Nulls(56)
    {
      var p := open;
      inn[p] := 0x80;
      p := p + 1;
      assert inn[..p] == rest + [0x80];
      hide Nulls;
      var count := 56 - 1 - open;
      if count < 0 {
        Clear(p, count + 8);
        assert inn[..64] == inn[..];
        Transform();
        p := 0;
        count := 56;
        assert inn[..0] == [] && [] + Nulls(56) == Nulls(56);
      }
      Clear(p, count);
    }

    /** memset (in + p, 0, count) */
    method Clear(p: nat, count: nat)
      requires inn.Length == BLOCK && p + count <= BLOCK
      modifies inn
      ensures inn[..p + count] == old(inn[..p]) + Nulls(count)
    {
      forall i | p <= i < p + count { inn[i] := 0; }
    }

    /** The words 14 and 15 of the last block: the number of bits. */
    method PutLength(ghost len: seq<Byte>)
      requires inn.Length == BLOCK
      requires len == LittleEndian(bytes0 * 8 % TWO_32, 4) + LittleEndian(Or(bytes1 * 8 % TWO_32, bytes0 / 0x2000_0000), 4)
      modifies inn
      ensures inn[..] == old(inn[..56]) + len
    {
      hide LittleEndian, Or;
      PutWord(56, bytes0 * 8 % TWO_32);
      assert inn[56..60] == inn[..60][56..];
      PutWord(60, Or(bytes1 * 8 % TWO_32, bytes0 / 0x2000_0000));
      assert inn[..60][56..] == inn[56..60] && inn[..60][..56] == inn[..56];
      assert inn[..] == inn[..56] + inn[56..60] + inn[60..64];
    }

    /** A word of the block, with the least significant octet first. */
    method PutWord(at: nat, v: nat)
      requires inn.Length == BLOCK && at + 4 <= BLOCK
      modifies inn
      ensures inn[..at] == old(inn[..at]) && inn[at..at + 4] == LittleEndian(v, 4)
    {
      inn[at] := v % 256;
      inn[at + 1] := v / 0x100 % 256;
      inn[at + 2] := v / 0x1_0000 % 256;
      inn[at + 3] := v / 0x100_0000 % 256;
      FourOctets(v);
    }
  }

  lemma FourOctets(v: nat)
    ensures LittleEndian(v, 4) == [v % 256, v / 0x100 % 256, v / 0x1_0000 % 256, v / 0x100_0000 % 256]
  {
    var a, b, c := v / 0x100, v / 0x1_0000, v / 0x100_0000;
    assert a / 256 == b && b / 256 == c;
    assert LittleEndian(c, 1) == [c % 256] by { assert LittleEndian(c / 256, 0) == []; }
    assert LittleEndian(b, 2) == [b % 256] + LittleEndian(c, 1);
    assert LittleEndian(a, 3) == [a % 256] + LittleEndian(b, 2);
  }

  lemma CountStep(n: nat, k: nat)
    requires k < TWO_32
    ensures var lo, hi := n % TWO_32, n / TWO_32 % TWO_32; var sum := (lo + k) % TWO_32;
      && sum == (n + k) % TWO_32
      && (if sum < lo then (hi + 1) % TWO_32 else hi) == (n + k) / TWO_32 % TWO_32
  {
    var q, lo := n / TWO_32, n % TWO_32;
    var c := if lo + k < TWO_32 then 0 else 1;
    Parts(TWO_32, lo + k, c, lo + k - TWO_32 * c);
    Parts(TWO_32, n + k, q + c, lo + k - TWO_32 * c);
    Successor(q);
  }

  lemma CountOf(n: nat)
    ensures n % TWO_32 % 64 == n % 64
  {
  }

  /** The two words of the number of bits, from the two words of the number of octets. */
  lemma BitCount(n: nat)
    ensures var b0, b1 := n % TWO_32, n / TWO_32 % TWO_32;
      && b0 * 8 % TWO_32 == 8 * n % TWO_32
      && Or(b1 * 8 % TWO_32, b0 / 0x2000_0000) == 8 * n / TWO_32 % TWO_32
  {
    var b0, q := n % TWO_32, n / TWO_32;
    var a, r := b0 / 0x2000_0000, 8 * (b0 % 0x2000_0000);
    Parts(TWO_32, b0 * 8, a, r);
    Parts(TWO_32, 8 * n, 8 * q + a, r);
    TopThree(q, a);
  }

  lemma TopThree(q: nat, a: nat)
    requires a < 8
    ensures Or(q % TWO_32 * 8 % TWO_32, a) == (8 * q + a) % TWO_32
  {
    var d, r := q / 0x2000_0000, 8 * (q % 0x2000_0000);
    var w := q % TWO_32;
    assert w % 0x2000_0000 == q % 0x2000_0000 by { LowBits(q, q / TWO_32, w); }
    Parts(TWO_32, w * 8, w / 0x2000_0000, r);
    Parts(TWO_32, 8 * q + a, d, r + a);
    var x := q % 0x2000_0000;
    assert Shl(x, 1) == 2 * x && Shl(x, 2) == 4 * x && Shl(x, 3) == 8 * x;
    assert Pow2(1) == 2 && Pow2(2) == 4 && Pow2(3) == 8;
    OrLow(x, a, 3);
  }

  lemma LowBits(q: nat, h: nat, w: nat)
    requires q == TWO_32 * h + w
    ensures q % 0x2000_0000 == w % 0x2000_0000
  {
    assert q / 0x2000_0000 == 8 * h + w / 0x2000_0000;
  }

  lemma {:induction false} OrLow(x: nat, y: nat, k: nat)
    requires y < Pow2(k)
    ensures Or(Shl(x, k), y) == Shl(x, k) + y
  {
    if k > 0 {
      OrLow(x, y / 2, k - 1);
      OrHalf(Shl(x, k), y);
    } else {
      assert Or(Shl(x, 0), 0) == Shl(x, 0);
    }
  }

  /** A message in any pieces is hashed as a whole. */
  method HashPieces(pieces: seq<seq<Byte>>, transform: Compress<State>, start: State) returns (result: State)
    requires forall k :: 0 <= k < |pieces| ==> |pieces[k]| < TWO_32
    ensures result == Hash(transform, BLOCK, start, Join(pieces) + PaddingMd5(|Join(pieces)|))
  {
    var m := new Md5(transform, start);
    assert Join(pieces[..0]) == [];
    for k := 0 to |pieces|
      invariant m.Valid() && fresh(m.inn) && m.transform == transform && m.start == start && m.msg == Join(pieces[..k])
    {
      Join1(pieces, k);
      m.Update(pieces[k]);
    }
    assert pieces[..|pieces|] == pieces;
    result := m.Final();
  }
}
