/** libchula/sha512.c: the buffering and the padding of SHA-512. */
module Sha512Streams {
  import opened Bits
  import opened Hashing

  type State(0)

  const BLOCK := 128
  const COUNTABLE := 0x2000_0000_0000_0000

  /** SHA512_CTX; sz counts the bits of the message in two words of 64 bits. */
  class Sha512 {
    var sz0: nat
    var sz1: nat
    var counter: State
    const save: array<Byte>
    const compress: Compress<State>
    ghost const start: State
    ghost var msg: seq<Byte>

    /** The blocks of the message and the low word of its length. */
    ghost predicate Streams()
      reads this, save
    {
      && save.Length == BLOCK && sz0 == 8 * |msg| % TWO_64
      && Absorb(compress, BLOCK, start, msg) == Absorbed(counter, save[..|msg| % BLOCK])
    }

    ghost predicate Valid()
      reads this, save
    {
      Streams() && sz1 == 8 * |msg| / TWO_64 % TWO_64
    }

    /** SHA512_Init */
    constructor (compress: Compress<State>, start: State)
      ensures Valid() && fresh(save) && msg == [] && this.compress == compress && this.start == start
    {
      sz0, sz1, counter, msg := 0, 0, start, [];
      this.compress, this.start := compress, start;
      save := new Byte[BLOCK](_ => 0);
    }

    /** The two words after a piece. */
    method Count(len: nat)
      modifies this`sz0, this`sz1
      ensures sz0 == (old(sz0) + len * 8) % TWO_64
      ensures sz1 == if sz0 < old(sz0) then (old(sz1) + 1) % TWO_64 else old(sz1)
    {
      var oldSz := sz0;
      sz0 := (sz0 + len * 8) % TWO_64;
      if sz0 < oldSz {
        sz1 := (sz1 + 1) % TWO_64;
      }
    }

    /** SHA512_Update; len is a size_t.  The high word stays right exactly if the bits of the piece can be
        counted in 64 bits. */
    method Update(v: seq<Byte>)
      requires Streams() && |v| < TWO_64
      modifies this`sz0, this`sz1, this`counter, this`msg, save
      ensures Streams() && msg == old(msg) + v
      ensures old(Valid()) ==> (Valid() <==> |v| < COUNTABLE)
    {
      hide Absorb;
      var oldSz := sz0;
      CountStep(|msg|, |v|);
      OffsetOf(|msg|);
      Count(|v|);
      AbsorbPieces(compress, BLOCK, start, msg, v);
      RestLength(compress, BLOCK, start, msg + v);
      Feed(v, oldSz / 8 % 128);
      msg := msg + v;
    }

    /** The loop of SHA512_Update: blocks are compressed as soon as they are full. */
    method Feed(v: seq<Byte>, offset0: nat)
      requires save.Length == BLOCK && offset0 < BLOCK
      modifies this`counter, save
      ensures var a := Absorb(compress, BLOCK, old(counter), old(save[..offset0]) + v);
        counter == a.state && save[..|a.rest|] == a.rest
    {
      var offset, pos := offset0, 0;
      ghost var target := Absorb(compress, BLOCK, counter, save[..offset] + v);
      hide Absorb;
      assert v[0..] == v;
      while pos < |v|
        invariant 0 <= pos <= |v| && 0 <= offset < BLOCK
        invariant Absorb(compress, BLOCK, counter, save[..offset] + v[pos..]) == target
      {
        var l := if |v| - pos < 128 - offset then |v| - pos else 128 - offset;
        CopyStep(save[..offset], v, pos, l);
        CopyIn(offset, v, pos, l);
        offset := offset + l;
        pos := pos + l;
        if offset == 128 {
          Calc(v[pos..]);
          offset := 0;
        }
      }
      LastStep(compress, BLOCK, counter, save[..offset], v[pos..]);
    }

    /** calc on a full block. */
    method Calc(ghost rest: seq<Byte>)
      requires save.Length == BLOCK
      modifies this`counter
      ensures Absorb(compress, BLOCK, counter, save[..0] + rest) == Absorb(compress, BLOCK, old(counter), save[..128] + rest)
    {
      hide Absorb;
      assert save[..128] == save[..] && save[..0] + rest == rest;
      BlockStep(compress, BLOCK, counter, save[..], rest);
      counter := compress(counter, save[..]);
    }

    /** memcpy (m->save + offset, p, l) */
    method CopyIn(offset: nat, v: seq<Byte>, pos: nat, l: nat)
      requires save.Length == BLOCK && offset + l <= BLOCK && pos + l <= |v|
      modifies save
      ensures save[..offset + l] == old(save[..offset]) + v[pos..pos + l]
    {
      forall i | 0 <= i < l { save[offset + i] := v[pos + i]; }
    }

    /** SHA512_Final: what is left is padded; the result is the hash of the whole message. */
    method Final() returns (result: State)
      requires Streams()
      modifies this`sz0, this`sz1, this`counter, this`msg, save
      ensures old(Valid()) ==> result == Hash(compress, BLOCK, start, old(msg) + Padding128(|old(msg)|))
    {
      hide Absorb, BigEndian, Nulls;
      ghost var n := |msg|;
      PaddingStart(n);
      PaddedLength(n);
      var offset := sz0 / 8 % 128;
      var dstart := (240 - offset - 1) % 128 + 1;
      var zeros := PaddingOctets(dstart);
      Update(zeros);
      RestLength(compress, BLOCK, start, msg);
      result := counter;
    }

    /** The array zeros of SHA512_Final up to its end at dstart + 16. */
    method PaddingOctets(dstart: nat) returns (octets: seq<Byte>)
      requires 1 <= dstart <= 128
      ensures octets == [0x80] + Nulls(dstart - 1) + BigEndian(sz1, 8) + BigEndian(sz0, 8)
    {
      var zeros := new Byte[128 + 16](_ => 0);
      zeros[0] := 0x80;
      assert zeros[..dstart] == [0x80] + Nulls(dstart - 1);
      hide BigEndian, Nulls;
      PutWord(zeros, dstart + 8, sz0);
      assert zeros[..dstart] == zeros[..dstart + 8][..dstart];
      PutWord(zeros, dstart, sz1);
      assert zeros[dstart + 8..dstart + 16] == zeros[dstart + 8..][..8];
      octets := zeros[..dstart + 16];
      ThreeParts(zeros[..], dstart);
    }
  }

  lemma ThreeParts<T>(s: seq<T>, d: nat)
    requires d + 16 <= |s|
    ensures s[..d + 16] == s[..d] + s[d..d + 8] + s[d + 8..d + 16]
  {
  }

  ghost predicate Countable(pieces: seq<seq<Byte>>) {
    forall k :: 0 <= k < |pieces| ==> |pieces[k]| < COUNTABLE
  }

  /** A message in any pieces is hashed as a whole, if the bits of each can be counted. */
  method HashPieces(pieces: seq<seq<Byte>>, compress: Compress<State>, start: State) returns (result: State)
    requires forall k :: 0 <= k < |pieces| ==> |pieces[k]| < TWO_64
    ensures Countable(pieces) ==> result == Hash(compress, BLOCK, start, Join(pieces) + Padding128(|Join(pieces)|))
  {
    var m := new Sha512(compress, start);
    assert Join(pieces[..0]) == [];
    for k := 0 to |pieces|
      invariant m.Streams() && fresh(m.save) && m.compress == compress && m.start == start && m.msg == Join(pieces[..k])
      invariant Countable(pieces) ==> m.Valid()
    {
      Join1(pieces, k);
      m.Update(pieces[k]);
    }
    assert pieces[..|pieces|] == pieces;
    result := m.Final();
  }

  /** The eight octets of a word. */
  method PutWord(mem: array<Byte>, at: nat, v: nat)
    requires at + 8 <= mem.Length
    modifies mem
    ensures mem[at..at + 8] == BigEndian(v, 8)
    ensures mem[..at] == old(mem[..at]) && mem[at + 8..] == old(mem[at + 8..])
  {
    mem[at + 7] := v % 256;
    mem[at + 6] := v / 0x100 % 256;
    mem[at + 5] := v / 0x1_0000 % 256;
    mem[at + 4] := v / 0x100_0000 % 256;
    mem[at + 3] := v / 0x1_0000_0000 % 256;
    mem[at + 2] := v / 0x100_0000_0000 % 256;
    mem[at + 1] := v / 0x1_0000_0000_0000 % 256;
    mem[at] := v / 0x100_0000_0000_0000 % 256;
    WordOctets(v);
  }

  lemma WordOctets(v: nat)
    ensures BigEndian(v, 8) == [v / 0x100_0000_0000_0000 % 256, v / 0x1_0000_0000_0000 % 256, v / 0x100_0000_0000 % 256,
      v / 0x1_0000_0000 % 256, v / 0x100_0000 % 256, v / 0x1_0000 % 256, v / 0x100 % 256, v % 256]
  {
    Shifts(v);
    var a, b, c, d := v / 0x100, v / 0x1_0000, v / 0x100_0000, v / 0x1_0000_0000;
    FourOctets(v, a, b, c, 4);
    FourOctets(d, v / 0x100_0000_0000, v / 0x1_0000_0000_0000, v / 0x100_0000_0000_0000, 0);
    assert BigEndian(v / 0x100_0000_0000_0000 / 256, 0) == [];
  }

  lemma Shifts(v: nat)
    ensures v / 0x100 / 256 == v / 0x1_0000 && v / 0x1_0000 / 256 == v / 0x100_0000
    ensures v / 0x100_0000 / 256 == v / 0x1_0000_0000 && v / 0x1_0000_0000 / 256 == v / 0x100_0000_0000
    ensures v / 0x100_0000_0000 / 256 == v / 0x1_0000_0000_0000
    ensures v / 0x1_0000_0000_0000 / 256 == v / 0x100_0000_0000_0000
  {
  }

  lemma FourOctets(v: nat, a: nat, b: nat, c: nat, n: nat)
    requires a == v / 256 && b == a / 256 && c == b / 256
    ensures BigEndian(v, n + 4) == BigEndian(c / 256, n) + [c % 256, b % 256, a % 256, v % 256]
  {
    assert BigEndian(v, n + 4) == BigEndian(a, n + 3) + [v % 256];
    assert BigEndian(a, n + 3) == BigEndian(b, n + 2) + [a % 256];
    assert BigEndian(b, n + 2) == BigEndian(c, n + 1) + [b % 256];
    assert BigEndian(c, n + 1) == BigEndian(c / 256, n) + [c % 256];
  }

  /** The carry of the low word is one bit: the high word is right exactly if no more is needed. */
  lemma CountStep(n: nat, k: nat)
    requires k < TWO_64
    ensures var lo, hi := 8 * n % TWO_64, 8 * n / TWO_64 % TWO_64; var sum := (lo + k * 8) % TWO_64;
      && sum == 8 * (n + k) % TWO_64
      && ((if sum < lo then (hi + 1) % TWO_64 else hi) == 8 * (n + k) / TWO_64 % TWO_64 <==> k < COUNTABLE)
  {
    var q, lo := 8 * n / TWO_64, 8 * n % TWO_64;
    var a, r := k / COUNTABLE, 8 * (k % COUNTABLE);
    var t := lo + r;
    var c := if t < TWO_64 then 0 else 1;
    assert 8 * k == TWO_64 * a + r;
    Parts(TWO_64, 8 * (n + k), q + a + c, t - TWO_64 * c);
    Parts(TWO_64, lo + k * 8, a + c, t - TWO_64 * c);
    Successor(q);
    Ahead(q + c, a);
  }

  lemma Ahead(x: nat, a: nat)
    requires a < 8
    ensures (x + a) % TWO_64 == x % TWO_64 <==> a == 0
  {
  }

  lemma OffsetOf(n: nat)
    ensures 8 * n % TWO_64 / 8 % 128 == n % 128
  {
  }

  /** Where the length goes, from the low word of the count. */
  lemma PaddingStart(n: nat)
    ensures var offset := 8 * n % TWO_64 / 8 % 128; (240 - offset - 1) % 128 == (111 - n) % 128
    ensures |Padding128(n)| == 1 + (111 - n) % 128 + 16
  {
    hide BigEndian, Nulls;
    OffsetOf(n);
    FillOf(n);
  }

  lemma FillOf(n: nat)
    ensures (240 - n % 128 - 1) % 128 == (111 - n) % 128
  {
  }
}
