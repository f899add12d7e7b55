/** libchula/sha1.c: the buffering and the padding of SHA-1. */
module Sha1Streams {
  import opened Bits
  import opened Hashing

  type State(0)

  const BLOCK := 64           // SHA_BLOCKSIZE

  /** SHA_INFO; the counts are the low and the high 32 bits of the number of bits. */
  class Sha1 {
    var digest: State
    var countLo: nat
    var countHi: nat
    const data: array<Byte>
    var local: nat
    const transform: Compress<State>
    ghost const start: State
    ghost var msg: seq<Byte>

    ghost predicate Valid()
      reads this, data
    {
      && data.Length == BLOCK
      && countLo == 8 * |msg| % TWO_32 && countHi % TWO_32 == 8 * |msg| / TWO_32 % TWO_32
      && local == |msg| % BLOCK && Absorb(transform, BLOCK, start, msg) == Absorbed(digest, data[..local])
    }

    /** sha_init */
    constructor (transform: Compress<State>, start: State)
      ensures Valid() && fresh(data) && msg == [] && this.transform == transform && this.start == start
    {
      countLo, countHi, local, digest, msg := 0, 0, 0, start, [];
      this.transform, this.start := transform, start;
      data := new Byte[BLOCK](_ => 0);
    }

    /** sha_transform on the block in data. */
    method Transform()
      requires data.Length == BLOCK
      modifies this`digest
      ensures digest == transform(old(digest), data[..])
    {
      digest := transform(digest, data[..]);
    }

    /** memcpy (data + at, v + pos, l) */
    method CopyIn(at: nat, v: seq<Byte>, pos: nat, l: nat)
      requires data.Length == BLOCK && at + l <= BLOCK && pos + l <= |v|
      modifies data
      ensures data[..at + l] == old(data[..at]) + v[pos..pos + l]
    {
      forall i | 0 <= i < l { data[at + i] := v[pos + i]; }
    }

    /** The two words after a piece. */
    method Count(count: nat)
      modifies this`countLo, this`countHi
      ensures countLo == (old(countLo) + count * 8) % TWO_32
      ensures countHi == (if countLo < old(countLo) then old(countHi) + 1 else old(countHi)) + count / 0x2000_0000
    {
      var clo := (countLo + count * 8) % TWO_32;
      if clo < countLo {
        countHi := countHi + 1;
      }
      countLo := clo;
      countHi := countHi + count / 0x2000_0000;
    }

    /** sha_update; count is an int. */
    method Update(buffer: seq<Byte>)
      requires Valid() && |buffer| < 0x8000_0000
      modifies this`digest, this`countLo, this`countHi, this`local, this`msg, data
      ensures Valid() && msg == old(msg) + buffer
    {
      hide Absorb;
      CountStep(|msg|, |buffer|, countHi);
      Count(|buffer|);
      AbsorbPieces(transform, BLOCK, start, msg, buffer);
      RestLength(transform, BLOCK, start, msg + buffer);
      Feed(buffer);
      msg := msg + buffer;
    }

    /** The rest of sha_update: an open block is filled first, then come the whole blocks. */
    method Feed(v: seq<Byte>)
      requires data.Length == BLOCK && local < BLOCK
      modifies this`digest, this`local, data
      ensures local < BLOCK && Absorb(transform, BLOCK, old(digest), old(data[..local]) + v) == Absorbed(digest, data[..local])
    {
      ghost var target := Absorb(transform, BLOCK, digest, data[..local] + v);
      var pos := 0;
      assert local == 0 ==> data[..local] + v == v[0..];
      hide Absorb;
      if local != 0 {
        var i := BLOCK - local;
        if i > |v| { i := |v|; }
        CopyStep(data[..local], v, 0, i);
        assert v[0..] == v;
        CopyIn(local, v, 0, i);
        pos := i;
        local := local + i;
        if local == BLOCK {
          assert data[..64] == data[..];
          BlockStep(transform, BLOCK, digest, data[..], v[pos..]);
          Transform();
        } else {
          LastStep(transform, BLOCK, digest, data[..local], v[pos..]);
          return;
        }
      }
      FeedBlocks(v, pos);
    }

    method FeedBlocks(v: seq<Byte>, from: nat)
      requires data.Length == BLOCK && from <= |v|
      modifies this`digest, this`local, data
      ensures local < BLOCK && Absorb(transform, BLOCK, old(digest), v[from..]) == Absorbed(digest, data[..local])
    {
      ghost var target := Absorb(transform, BLOCK, digest, v[from..]);
      hide Absorb;
      var pos := from;
      while |v| - pos >= BLOCK
        invariant from <= pos <= |v| && Absorb(transform, BLOCK, digest, v[pos..]) == target
      {
        CopyIn(0, v, pos, BLOCK);
        CopyStep([], v, pos, BLOCK);
        assert data[..64] == data[..] == v[pos..pos + BLOCK];
        assert [] + v[pos..] == v[pos..] && [] + v[pos..pos + BLOCK] == v[pos..pos + BLOCK];
        pos := pos + BLOCK;
        BlockStep(transform, BLOCK, digest, data[..], v[pos..]);
        assert [] + v[pos..] == v[pos..];
        Transform();
      }
      assert data[..0] == [];
      CopyIn(0, v, pos, |v| - pos);
      local := |v| - pos;
      assert data[..local] == v[pos..];
      assert v[pos..] + [] == v[pos..];
      LastStep(transform, BLOCK, digest, v[pos..], []);
    }

    /** sha_final: the result is the hash of the whole message. */
    method Final() returns (result: State)
      requires Valid()
      modifies this`digest, data
      ensures result == Hash(transform, BLOCK, start, msg + Padding64(|msg|))
    {
      ghost var n, rest := |msg|, data[..local];
      ghost var len := BigEndian(8 * n / TWO_32 % TWO_32, 4) + BigEndian(8 * n % TWO_32, 4);
      FinalBlocks(transform, start, msg, digest, rest, len);
      CountOf(n);
      assert Padding64(n) == Mark64(n) + len;
      hide Absorb, Hash, BigEndian, Nulls, Padding64, Mark64;
      Mark(countLo / 8 % 64, rest);
      PutLength(len);
      Transform();
      result := digest;
    }

    /** The mark behind the open block, and zeros up to the place of the length. */
    method Mark(open: nat, ghost rest: seq<Byte>)
      requires data.Length == BLOCK && open < BLOCK && rest == data[..open]
      modifies this`digest, data
      ensures open <= 55 ==> digest == old(digest) && data[..56] == rest + [0x80] + Nulls(55 - open)
      ensures open > 55 ==> digest == transform(old(digest), rest + [0x80] + Nulls(63 - open)) && data[..56] == Nulls(56)
    {
      var count := open;
      data[count] := 0x80;
      count := count + 1;
      assert data[..count] == rest + [0x80];
      hide Nulls;
      if count > BLOCK - 8 {
        Clear(count, BLOCK);
        assert data[..64] == data[..];
        Transform();
        Clear(0, BLOCK - 8);
        assert old(data[..0]) + Nulls(56) == Nulls(56);
      } else {
        Clear(count, BLOCK - 8);
      }
    }

    /** memset (data + from, 0, to - from) */
    method Clear(from: nat, to: nat)
      requires data.Length == BLOCK && from <= to <= BLOCK
      modifies data
      ensures data[..to] == old(data[..from]) + Nulls(to - from)
    {
      forall i | from <= i < to { data[i] := 0; }
    }

    method PutLength(ghost len: seq<Byte>)
      requires data.Length == BLOCK
      requires len == BigEndian(countHi % TWO_32, 4) + BigEndian(countLo, 4)
      modifies data
      ensures data[..] == old(data[..56]) + len
    {
      var hi, lo := countHi, countLo;
      data[56] := hi / 0x100_0000 % 256;
      data[57] := hi / 0x1_0000 % 256;
      data[58] := hi / 0x100 % 256;
      data[59] := hi % 256;
      data[60] := lo / 0x100_0000 % 256;
      data[61] := lo / 0x1_0000 % 256;
      data[62] := lo / 0x100 % 256;
      data[63] := lo % 256;
      FourOctets(lo);
      FourOctets(hi);
      LowWord(hi);
      hide BigEndian;
      assert data[56..] == len;
      assert data[..] == data[..56] + data[56..];
    }
  }

  lemma FourOctets(v: nat)
    ensures BigEndian(v, 4) == [v / 0x100_0000 % 256, v / 0x1_0000 % 256, v / 0x100 % 256, v % 256]
  {
    var a, b, c := v / 0x100, v / 0x1_0000, v / 0x100_0000;
    assert a / 256 == b && b / 256 == c;
    assert BigEndian(c, 1) == [c % 256] by { assert BigEndian(c / 256, 0) == []; }
    assert BigEndian(b, 2) == BigEndian(c, 1) + [b % 256];
    assert BigEndian(a, 3) == BigEndian(b, 2) + [a % 256];
  }

  lemma LowWord(v: nat)
    ensures BigEndian(v % TWO_32, 4) == BigEndian(v, 4)
  {
    FourOctets(v);
    FourOctets(v % TWO_32);
    LowShifts(v, v / TWO_32, v % TWO_32);
    hide BigEndian;
  }

  lemma LowShifts(v: nat, q: nat, w: nat)
    requires v == TWO_32 * q + w
    ensures v % 256 == w % 256 && v / 0x100 % 256 == w / 0x100 % 256
    ensures v / 0x1_0000 % 256 == w / 0x1_0000 % 256 && v / 0x100_0000 % 256 == w / 0x100_0000 % 256
  {
    assert v / 0x100 == 0x100_0000 * q + w / 0x100;
    assert v / 0x1_0000 == 0x1_0000 * q + w / 0x1_0000;
    assert v / 0x100_0000 == 0x100 * q + w / 0x100_0000;
  }

  lemma CountStep(n: nat, k: nat, hi: nat)
    requires k < 0x8000_0000 && hi % TWO_32 == 8 * n / TWO_32 % TWO_32
    ensures var lo := 8 * n % TWO_32; var sum := (lo + k * 8) % TWO_32;
      && sum == 8 * (n + k) % TWO_32
      && ((if sum < lo then hi + 1 else hi) + k / 0x2000_0000) % TWO_32 == 8 * (n + k) / TWO_32 % TWO_32
  {
    var q, lo := 8 * n / TWO_32, 8 * n % TWO_32;
    var a, b := k / 0x2000_0000, 8 * (k % 0x2000_0000);
    var c := if lo + b < TWO_32 then 0 else 1;
    var sum := lo + b - TWO_32 * c;
    Parts(TWO_32, lo + k * 8, a + c, sum);
    Parts(TWO_32, 8 * (n + k), q + a + c, sum);
    CarryModulo(hi, q, a + c);
  }

  lemma CountOf(n: nat)
    ensures 8 * n % TWO_32 / 8 % 64 == n % 64
  {
  }

  /** A message in any pieces is hashed as a whole. */
  method HashPieces(pieces: seq<seq<Byte>>, transform: Compress<State>, start: State) returns (result: State)
    requires forall k :: 0 <= k < |pieces| ==> |pieces[k]| < 0x8000_0000
    ensures result == Hash(transform, BLOCK, start, Join(pieces) + Padding64(|Join(pieces)|))
  {
    var m := new Sha1(transform, start);
    assert Join(pieces[..0]) == [];
    for k := 0 to |pieces|
      invariant m.Valid() && fresh(m.data) && m.transform == transform && m.start == start && m.msg == Join(pieces[..k])
    {
      Join1(pieces, k);
      m.Update(pieces[k]);
    }
    assert pieces[..|pieces|] == pieces;
    result := m.Final();
  }
}
