/** The encoder and the decoder of libhpack/huffman.c. */
module Huffman {
  import Sequences
  import opened Bits
  import opened HuffmanCode
  import opened HuffmanTable

  // --- Decoding -------------------------------------------------------------------

  /** hpack_huffman_decode_context_t, initially HUFFMAN_DEC_CTX_INIT. */
  class Context {
    var state: int
    var accept: bool

    constructor ()
      ensures state == 0 && accept
    {
      state, accept := 0, true;
    }
  }

  /** The decoder by half bytes: an error is noticed when the half byte that completes EOS is read,
      and the state stays where that half byte began. */
  ghost function DecodeNibbles(code: Code, p: Path, bits: Path): Decoded
    decreases |bits|
  {
    if |bits| < 4 then Decoded(true, [], p)
    else
      var w := Walk(code, p, bits[..4]);
      if w.out == [EOS] then Decoded(false, [], p)
      else
        var r := DecodeNibbles(code, w.at, bits[4..]);
        Decoded(r.ok, w.out + r.out, r.at)
  }

  /** The automaton agrees with the one-bit decoder on arbitrary input, including where it fails. */
  lemma {:induction false} NibblesAgree(code: Code, p: Path, bits: Path, m: nat)
    requires Good(code) && Inner(code, p) && |bits| == 4 * m
    ensures var d, e := Decode(code, p, bits), DecodeNibbles(code, p, bits);
      && d.ok == e.ok && d.out == e.out
      && (d.ok ==> d.at == e.at)
    ensures Inner(code, DecodeNibbles(code, p, bits).at)
    decreases |bits|
  {
    hide Good, Inner;
    if |bits| >= 4 {
      var a, b := bits[..4], bits[4..];
      assert a + b == bits;
      AtMostOneSymbol(code, p, a);
      WalkInner(code, p, a);
      DecodeIsWalk(code, p, a);
      DecodeConcat(code, p, a, b);
      NibblesAgree(code, Walk(code, p, a).at, b, m - 1);
    }
  }

  /** Half bytes can be decoded in portions. */
  lemma {:induction false} NibblesConcat(code: Code, p: Path, a: Path, b: Path, m: nat)
    requires |a| == 4 * m
    ensures var d, e := DecodeNibbles(code, p, a), DecodeNibbles(code, p, a + b);
      if !d.ok then e == d
      else var r := DecodeNibbles(code, d.at, b); e == Decoded(r.ok, d.out + r.out, r.at)
    decreases m
  {
    if m == 0 {
      assert a + b == b;
    } else {
      assert (a + b)[..4] == a[..4] && (a + b)[4..] == a[4..] + b;
      var w := Walk(code, p, a[..4]);
      NibblesConcat(code, w.at, a[4..], b, m - 1);
      var d := DecodeNibbles(code, w.at, a[4..]);
      Sequences.Associate(w.out, d.out, DecodeNibbles(code, d.at, b).out);
    }
  }

  class Buffer {
    var data: seq<Byte>

    constructor ()
      ensures data == []
    {
      data := [];
    }
  }

  /** The decoder stands at path p. */
  ghost predicate Stands(code: Code, p: Path, state: int)
    requires Good(code)
  {
    Inner(code, p) && state == Number(code, p)
  }

  /** What the table cell for the state and half byte says. */
  lemma CellOf(code: Code, table: Table, p: Path, state: int, x: nat)
    requires Good(code) && TableOf(code, table) && Stands(code, p, state) && x < 16
    ensures 0 <= state < 256 && |table[state]| == 16
    ensures CellMeans(code, p, ToBits(x, 4), table[state][x])
    ensures |Walk(code, p, ToBits(x, 4)).out| <= 1
  {
    InnerNodes(code);
    AtMostOneSymbol(code, p, ToBits(x, 4));
    assert RowMeans(code, state, x, table[state][x]);
  }

  ghost predicate Synced(code: Code, p: Path, context: Context)
    requires Good(code)
    reads context
  {
    Stands(code, p, context.state) && (context.accept <==> Accepting(code, p))
  }

  /** The body of the inner loop of hpack_huffman_decode: one table lookup. */
  method DecodeHalf(c: nat, out: Buffer, context: Context, table: Table, ghost code: Code, ghost p: Path)
    returns (ok: bool)
    requires Good(code) && TableOf(code, table) && Synced(code, p, context) && c < 16
    modifies out, context
    ensures var w := Walk(code, p, ToBits(c, 4));
      if w.out == [EOS] then !ok && out.data == old(out.data) && Synced(code, p, context)
      else ok && out.data == old(out.data) + w.out && Synced(code, w.at, context)
  {
    hide Good, TableOf, Synced, CellMeans, ToBits, Walk;
    SyncedCell(code, table, p, context, c);
    var t := table[context.state][c];
    if t.state == -1 {
      return false;
    }
    if Emits(t) {
      out.data := out.data + [t.sym];
    }
    context.state := t.state;
    context.accept := Accepts(t);
    CellSynced(code, p, c, t, context);
    ok := true;
  }

  /** hpack_huffman_decode: the table-driven decoder, continuing from the context. */
  method HuffmanDecode(input: seq<Byte>, out: Buffer, context: Context, table: Table, ghost code: Code, ghost p: Path)
    returns (ok: bool)
    requires Good(code) && TableOf(code, table) && Synced(code, p, context)
    modifies out, context
    ensures var d := DecodeNibbles(code, p, BytesBits(input));
      ok == d.ok && out.data == old(out.data) + d.out && Synced(code, d.at, context)
  {
    hide Good, TableOf, Synced, ToBits, DecodeNibbles, Walk;
    ghost var d := Decoded(true, [], p);
    DecodeStart(code, p, input);
    for n := 0 to |input|
      invariant d == DecodeNibbles(code, p, BytesBits(input[..n])) && d.ok
      invariant out.data == old(out.data) + d.out && Synced(code, d.at, context)
    {
      hide BytesBits;
      ghost var done, byte := BytesBits(input[..n]), ToBits(input[n], 8);
      ByteStep(input, n);
      var c := input[n] / 16;
      for halfbyte := 0 to 2
        invariant d == DecodeNibbles(code, p, done + byte[..4 * halfbyte]) && d.ok
        invariant c == Half(input[n], halfbyte) || halfbyte == 2
        invariant out.data == old(out.data) + d.out && Synced(code, d.at, context)
      {
        NibbleStep(code, p, done, input[n], halfbyte, d, 2 * n);
        EarlyError(code, p, input, n, halfbyte);
        var more := DecodeHalf(c, out, context, table, code, d.at);
        if !more {
          return false;
        }
        d := DecodeNibbles(code, p, done + byte[..4 * halfbyte + 4]);
        c := input[n] % 16;
      }
      assert byte[..8] == byte;
    }
    assert input[..|input|] == input;
    ok := true;
  }

  function Half(byte: Byte, h: nat): (c: nat)
    ensures c < 16
  {
    if h == 0 then byte / 16 else byte % 16
  }

  lemma DecodeStart(code: Code, p: Path, input: seq<Byte>)
    ensures DecodeNibbles(code, p, BytesBits(input[..0])) == Decoded(true, [], p)
  {
  }

  lemma ByteStep(input: seq<Byte>, n: nat)
    requires n < |input|
    ensures BytesBits(input[..n + 1]) == BytesBits(input[..n]) + ToBits(input[n], 8)
    ensures BytesBits(input[..n]) + ToBits(input[n], 8)[..0] == BytesBits(input[..n])
  {
    assert input[..n + 1][..n] == input[..n];
  }

  /** One more half byte. */
  lemma NibbleStep(code: Code, p: Path, done: Path, byte: Byte, h: nat, d: Decoded, m: nat)
    requires h < 2 && |done| == 4 * m
    requires d == DecodeNibbles(code, p, done + ToBits(byte, 8)[..4 * h]) && d.ok
    ensures var e := DecodeNibbles(code, p, done + ToBits(byte, 8)[..4 * h + 4]);
      var w := Walk(code, d.at, ToBits(Half(byte, h), 4));
      e == if w.out == [EOS] then Decoded(false, d.out, d.at) else Decoded(true, d.out + w.out, w.at)
  {
    Nibbles(byte);
    hide ToBits;
    var a, x := done + ToBits(byte, 8)[..4 * h], ToBits(Half(byte, h), 4);
    assert done + ToBits(byte, 8)[..4 * h + 4] == a + x;
    NibblesConcat(code, p, a, x, m + h);
    OneNibble(code, d.at, x);
    assert d.out + [] == d.out;
  }

  lemma OneNibble(code: Code, p: Path, x: Path)
    requires |x| == 4
    ensures var w := Walk(code, p, x);
      DecodeNibbles(code, p, x) == if w.out == [EOS] then Decoded(false, [], p) else Decoded(true, w.out, w.at)
  {
    hide Walk;
    assert x[..4] == x && x[4..] == [];
    var w := Walk(code, p, x);
    assert w.out + [] == w.out;
    assert DecodeNibbles(code, w.at, []) == Decoded(true, [], w.at);
  }

  lemma SyncedCell(code: Code, table: Table, p: Path, context: Context, x: nat)
    requires Good(code) && TableOf(code, table) && Synced(code, p, context) && x < 16
    ensures 0 <= context.state < 256 && |table| == 256 && |table[context.state]| == 16
    ensures Inner(code, p) && CellMeans(code, p, ToBits(x, 4), table[context.state][x])
    ensures var t := table[context.state][x]; var w := Walk(code, p, ToBits(x, 4));
      && (t.state == -1 <==> w.out == [EOS])
      && (t.state != -1 ==> w.out == (if Emits(t) then [t.sym] else []) && t.sym < 256)
  {
    CellOf(code, table, p, context.state, x);
  }

  lemma CellSynced(code: Code, p: Path, x: nat, t: Cell, context: Context)
    requires Good(code) && Inner(code, p) && CellMeans(code, p, ToBits(x, 4), t) && t.state != -1
    requires context.state == t.state && context.accept == Accepts(t)
    ensures Synced(code, Walk(code, p, ToBits(x, 4)).at, context)
  {
    WalkInner(code, p, ToBits(x, 4));
  }

  /** An error in the middle is the error of the whole. */
  lemma EarlyError(code: Code, p: Path, input: seq<Byte>, n: nat, h: nat)
    requires n < |input| && h < 2
    ensures var a := BytesBits(input[..n]) + ToBits(input[n], 8)[..4 * h + 4];
      !DecodeNibbles(code, p, a).ok ==> DecodeNibbles(code, p, BytesBits(input)) == DecodeNibbles(code, p, a)
  {
    hide ToBits, DecodeNibbles, BytesBits;
    ByteStep(input, n);
    BytesBitsConcat(input[..n + 1], input[n + 1..]);
    assert input[..n + 1] + input[n + 1..] == input;
    ErrorStays(code, p, BytesBits(input[..n]), ToBits(input[n], 8), BytesBits(input[n + 1..]), 2 * n, h + 1);
  }

  lemma ErrorStays(code: Code, p: Path, x: Path, y: Path, z: Path, m: nat, j: nat)
    requires 4 * j <= |y| && |x| == 4 * m
    ensures var a := x + y[..4 * j];
      !DecodeNibbles(code, p, a).ok ==> DecodeNibbles(code, p, (x + y) + z) == DecodeNibbles(code, p, a)
  {
    hide DecodeNibbles;
    var a, b := x + y[..4 * j], y[4 * j..] + z;
    assert (x + y) + z == a + b by { assert y == y[..4 * j] + y[4 * j..]; }
    NibblesConcat(code, p, a, b, m + j);
  }

  // --- Encoding ---------------------------------------------------------------------

  /** hpack_huffman_code_t */
  datatype Entry = Entry(bits: nat, value: nat)

  ghost predicate EntryOf(w: Path, e: Entry) {
    e.bits == |w| && e.value == FromBits(w)
  }

  ghost predicate EntriesOf(code: Code, entries: seq<Entry>) {
    |entries| == |code| && forall i :: 0 <= i < |code| ==> EntryOf(code[i], entries[i])
  }

  /** The output of the encoder: `mem` is the allocated memory, of which `len` octets are complete. */
  class OutBuffer {
    var mem: seq<Byte>
    var len: nat

    constructor ()
      ensures mem == [] && len == 0
    {
      mem, len := [], 0;
    }

    /** chula_buffer_ensure_addlen: memory behind the content, with any octets in it. */
    method EnsureAddLen(n: nat)
      requires len <= |mem|
      modifies this`mem
      ensures |mem| >= len + n && |mem| >= len + 8 && mem[..len] == old(mem[..len])
    {
      mem := mem + seq(n + 8, _ => 0xCD);
    }

    /** The bits written so far, with remaining bits of the octet at len still free. */
    ghost function Written(remaining: nat): Path
      requires remaining <= 8 && len <= |mem| && (remaining < 8 ==> len < |mem|)
      reads this
    {
      BytesBits(mem[..len]) + (if remaining == 8 then [] else ToBits(mem[len], 8)[..8 - remaining])
    }

    /** The free bits of the octet at len are zero. */
    ghost predicate Clean(remaining: nat)
      reads this
    {
      && 1 <= remaining <= 8 && len < |mem|
      && ToBits(mem[len], 8)[8 - remaining..] == Zeros(remaining)
    }
  }

  /** The octet that holds, right after `remaining` bits already used, the next bits of codeword w:
      code << (remaining - nbits) or code >> (nbits - remaining), cut to eight bits. */
  function Chunk(value: nat, nbits: nat, remaining: nat): nat
    requires remaining <= 8
  {
    Low(if remaining > nbits then Shl(value, remaining - nbits) else Shr(value, nbits - remaining), 8)
  }

  /** The bits of w that a chunk holds, filled up with zeros. */
  ghost function ChunkBits(w: Path, nbits: nat, remaining: nat): Path
    requires nbits <= |w|
  {
    if remaining > nbits then w[|w| - nbits..] + Zeros(remaining - nbits)
    else w[|w| - nbits..|w| - nbits + remaining]
  }

  lemma ChunkMeans(w: Path, nbits: nat, remaining: nat)
    requires 1 <= nbits <= |w| && 1 <= remaining <= 8 && (nbits == |w| || remaining == 8)
    ensures ToBits(Chunk(FromBits(w), nbits, remaining), 8) == Zeros(8 - remaining) + ChunkBits(w, nbits, remaining)
  {
    hide ToBits, FromBits, Low, Shl, Shr, Pow2, ChunkBits;
    var v := FromBits(w);
    ToFrom(w);
    if remaining > nbits {
      TruncateBits(Shl(v, remaining - nbits), 8, 8);
      ChunkShl(w, v, nbits, remaining);
    } else {
      TruncateBits(Shr(v, nbits - remaining), 8, 8);
      ChunkShr(w, v, nbits, remaining);
    }
  }

  lemma ChunkShl(w: Path, v: nat, nbits: nat, remaining: nat)
    requires 1 <= nbits <= |w| && nbits < remaining <= 8 && (nbits == |w| || remaining == 8)
    requires v < Pow2(|w|) && ToBits(v, |w|) == w
    ensures ToBits(Shl(v, remaining - nbits), 8) == Zeros(8 - remaining) + ChunkBits(w, nbits, remaining)
  {
    hide ToBits, Shl, Pow2;
    var k := remaining - nbits;
    ShiftLeftBits(v, |w|, k);
    if nbits == |w| {
      ShlBound(v, |w|, k);
      ZeroExtend(Shl(v, k), remaining, 8);
      assert w[0..] == w;
    } else {
      LastBits(Shl(v, k), |w| + k, 8);
      assert (w + Zeros(k))[|w| + k - 8..] == w[|w| - nbits..] + Zeros(k);
      assert Zeros(0) + ChunkBits(w, nbits, 8) == ChunkBits(w, nbits, 8);
    }
  }

  lemma ChunkShr(w: Path, v: nat, nbits: nat, remaining: nat)
    requires 1 <= nbits <= |w| && 1 <= remaining <= 8 && remaining <= nbits && (nbits == |w| || remaining == 8)
    requires v < Pow2(|w|) && ToBits(v, |w|) == w
    ensures ToBits(Shr(v, nbits - remaining), 8) == Zeros(8 - remaining) + ChunkBits(w, nbits, remaining)
  {
    hide ToBits, Shr, Pow2;
    var k := nbits - remaining;
    var n := |w| - k;
    ShiftRightBits(v, |w|, k);
    if nbits == |w| {
      ShrBound(v, |w|, k);
      ZeroExtend(Shr(v, k), remaining, 8);
      assert w[..remaining] == w[0..remaining];
    } else {
      LastBits(Shr(v, k), n, 8);
      assert w[..n][n - 8..] == w[|w| - nbits..|w| - nbits + 8];
      assert Zeros(0) + ChunkBits(w, nbits, 8) == ChunkBits(w, nbits, 8);
    }
  }

  /** buf[len] |= chunk */
  method OrChunk(out: OutBuffer, ghost w: Path, value: nat, nbits: nat, remaining: nat)
    requires value == FromBits(w) && out.Clean(remaining)
    requires 1 <= nbits <= |w| && (nbits == |w| || remaining == 8)
    modifies out`mem
    ensures |out.mem| == old(|out.mem|) && out.len < |out.mem|
    ensures out.mem[..out.len] == old(out.mem[..out.len])
    ensures ToBits(out.mem[out.len], 8) == old(ToBits(out.mem[out.len], 8))[..8 - remaining] + ChunkBits(w, nbits, remaining)
  {
    hide ToBits, FromBits, Low, Chunk, ChunkBits, Pow2, Or;
    ghost var hi := ToBits(out.mem[out.len], 8)[..8 - remaining];
    var x := Chunk(value, nbits, remaining);
    ChunkMeans(w, nbits, remaining);
    ChunkLength(w, nbits, remaining);
    ByteOr(out.mem[out.len], value, nbits, remaining);
    assert ToBits(out.mem[out.len], 8) == hi + Zeros(remaining);
    OrAppend(out.mem[out.len], x, 8, hi, ChunkBits(w, nbits, remaining));
    out.mem := out.mem[out.len := Or(out.mem[out.len], x)];
  }

  lemma ChunkLength(w: Path, nbits: nat, remaining: nat)
    requires nbits <= |w|
    ensures |ChunkBits(w, nbits, remaining)| == remaining
  {
  }

  lemma ByteOr(b: Byte, value: nat, nbits: nat, remaining: nat)
    requires remaining <= 8
    ensures Or(b, Chunk(value, nbits, remaining)) < 256
  {
    Shl8(0);
    hide Low, Or, Pow2, Shl, Shr;
    OrBound(b, Chunk(value, nbits, remaining), 8);
  }

  /** encode_symbol: the codeword is appended, split over as many octets as it takes. */
  method EncodeSymbol(entry: Entry, start: nat, out: OutBuffer, ghost w: Path) returns (remaining: nat)
    requires EntryOf(w, entry) && 1 <= |w| <= 32 && out.Clean(start) && |out.mem| >= out.len + 8
    modifies out`mem, out`len
    ensures 1 <= remaining <= 8 && out.len < |out.mem| == old(|out.mem|)
    ensures remaining < 8 ==> out.Clean(remaining)
    ensures out.Written(remaining) == old(out.Written(start)) + w
  {
    hide ToBits, FromBits, BytesBits, ChunkBits;
    remaining := start;
    var nbits := entry.bits;
    ghost var done := out.Written(start);
    assert done + w[..0] == done;
    while true
      invariant 1 <= nbits <= |w| && (nbits == |w| || remaining == 8)
      invariant out.Clean(remaining) && |out.mem| == old(|out.mem|)
      invariant out.len <= old(out.len) + 4 - (nbits - 1) / 8
      invariant out.Written(remaining) == done + w[..|w| - nbits]
      decreases nbits
    {
      ghost var was := out.Written(remaining);
      OrChunk(out, w, entry.value, nbits, remaining);
      if remaining > nbits {
        ChunkEnds(out, w, nbits, remaining, was, done);
        remaining := remaining - nbits;
        break;
      }
      ChunkFills(out, w, nbits, remaining, was, done);
      out.len := out.len + 1;
      nbits := nbits - remaining;
      remaining := 8;
      if nbits == 0 {
        assert w[..|w|] == w;
        break;
      }
      out.mem := out.mem[out.len := 0];
      ZeroBits(8);
    }
  }

  /** The codeword ends inside the octet. */
  lemma ChunkEnds(out: OutBuffer, w: Path, nbits: nat, remaining: nat, was: Path, done: Path)
    requires 1 <= nbits <= |w| && nbits < remaining <= 8 && out.len < |out.mem|
    requires was == done + w[..|w| - nbits]
    requires |was| == 8 * out.len + 8 - remaining && BytesBits(out.mem[..out.len]) <= was
    requires ToBits(out.mem[out.len], 8) == was[8 * out.len..] + ChunkBits(w, nbits, remaining)
    ensures out.Clean(remaining - nbits) && out.Written(remaining - nbits) == done + w
  {
    hide BytesBits, ToBits;
    var x := BytesBits(out.mem[..out.len]);
    EndOfWord(x, was[8 * out.len..], ToBits(out.mem[out.len], 8), w, nbits, remaining, done);
  }

  lemma EndOfWord(x: Path, cur: Path, b: Path, w: Path, nbits: nat, remaining: nat, done: Path)
    requires 1 <= nbits <= |w| && nbits < remaining <= 8 && |cur| == 8 - remaining
    requires x + cur == done + w[..|w| - nbits]
    requires b == cur + (w[|w| - nbits..] + Zeros(remaining - nbits))
    ensures b[8 - remaining + nbits..] == Zeros(remaining - nbits)
    ensures x + b[..8 - remaining + nbits] == done + w
  {
    var v := w[|w| - nbits..];
    assert b[..8 - remaining + nbits] == cur + v;
    assert x + (cur + v) == (x + cur) + v;
    assert w == w[..|w| - nbits] + v;
    assert (done + w[..|w| - nbits]) + v == done + (w[..|w| - nbits] + v);
  }

  /** The octet is full. */
  lemma ChunkFills(out: OutBuffer, w: Path, nbits: nat, remaining: nat, was: Path, done: Path)
    requires 1 <= nbits <= |w| && remaining <= nbits && remaining <= 8 && out.len < |out.mem|
    requires was == done + w[..|w| - nbits]
    requires |was| == 8 * out.len + 8 - remaining && BytesBits(out.mem[..out.len]) <= was
    requires ToBits(out.mem[out.len], 8) == was[8 * out.len..] + ChunkBits(w, nbits, remaining)
    ensures BytesBits(out.mem[..out.len + 1]) == done + w[..|w| - nbits + remaining]
  {
    hide BytesBits, ToBits, ChunkBits, Zeros;
    ByteStep(out.mem, out.len);
    var x, y := BytesBits(out.mem[..out.len]), ToBits(out.mem[out.len], 8);
    FillOctet(x, y, was, w, nbits, remaining, done);
  }

  lemma FillOctet(x: Path, y: Path, was: Path, w: Path, nbits: nat, remaining: nat, done: Path)
    requires 1 <= nbits <= |w| && remaining <= nbits && remaining <= 8
    requires was == done + w[..|w| - nbits] && x <= was
    requires y == was[|x|..] + ChunkBits(w, nbits, remaining)
    ensures x + y == done + w[..|w| - nbits + remaining]
  {
    var cur := was[|x|..];
    assert x + cur == was;
    FullOctet(x, cur, w, nbits, remaining, done);
  }

  lemma FullOctet(x: Path, cur: Path, w: Path, nbits: nat, remaining: nat, done: Path)
    requires 1 <= nbits <= |w| && remaining <= nbits
    requires x + cur == done + w[..|w| - nbits]
    ensures x + (cur + w[|w| - nbits..|w| - nbits + remaining]) == done + w[..|w| - nbits + remaining]
  {
    var k := |w| - nbits;
    var v := w[k..k + remaining];
    assert x + (cur + v) == (x + cur) + v;
    assert w[..k + remaining] == w[..k] + v;
    assert (done + w[..k]) + v == done + (w[..k] + v);
  }

  /** How many bits complete the last octet of n bits. */
  function PadBits(n: nat): (k: nat)
    ensures k < 8
  {
    (8 - n % 8) % 8
  }

  lemma PadCompletes(n: nat, k: nat, octets: nat)
    requires k < 8 && n + k == 8 * octets
    ensures k == PadBits(n)
  {
  }

  /** The octets that encode a message: its codewords, then bits of EOS up to the octet boundary. */
  ghost predicate Encodes(code: Code, msg: seq<Byte>, octets: seq<Byte>)
    requires Good(code)
  {
    var bits := Encode(code, msg);
    BytesBits(octets) == bits + code[EOS][..PadBits(|bits|)]
  }

  /** hpack_huffman_encode. */
  method HuffmanEncode(input: seq<Byte>, out: OutBuffer, entries: seq<Entry>, ghost code: Code)
    requires Good(code) && EntriesOf(code, entries) && out.len <= |out.mem|
    modifies out`mem, out`len
    ensures old(out.len) <= out.len <= |out.mem|
    ensures out.mem[..old(out.len)] == old(out.mem[..out.len])
    ensures Encodes(code, input, out.mem[old(out.len)..out.len])
  {
    hide Good, ToBits, BytesBits, FromBits, Zeros, EntriesOf, EntryOf, Encode;
    GoodLengths(code);
    var remaining := 8;
    ghost var was := BytesBits(out.mem[..out.len]);
    EncodeEmpty(code, input, was);
    for n := 0 to |input|
      invariant out.len <= |out.mem| && 1 <= remaining <= 8
      invariant remaining < 8 ==> out.Clean(remaining)
      invariant out.Written(remaining) == was + Encode(code, input[..n])
    {
      ghost var written := out.Written(remaining);
      if |out.mem| - out.len < 8 {
        remaining := Grow(out, remaining, |input|);
      }
      EncodeStep(code, entries, input, n);
      if remaining == 8 {
        out.mem := out.mem[out.len := 0];
        ZeroOctet(out);
      }
      remaining := EncodeSymbol(entries[input[n]], remaining, out, code[input[n]]);
      Sequences.Associate(was, Encode(code, input[..n]), code[input[n]]);
    }
    assert input[..|input|] == input;
    EosEntry(code, entries);
    if remaining < 8 {
      Finish(out, remaining, entries[EOS], code[EOS], was + Encode(code, input));
    }
    SplitEncoded(code, input, out.mem, old(out.len), old(out.mem[..out.len]), out.len, if remaining == 8 then 0 else remaining);
  }

  lemma GoodLengths(code: Code)
    requires Good(code)
    ensures |code| == 257 && |code[EOS]| > 7
    ensures forall i :: 0 <= i < 257 ==> 4 <= |code[i]| <= 30
  {
    hide PrefixFree, Complete;
  }

  lemma EncodeEmpty(code: Code, input: seq<Byte>, was: Path)
    requires |code| == 257
    ensures was + Encode(code, input[..0]) == was
  {
  }

  lemma EncodeStep(code: Code, entries: seq<Entry>, input: seq<Byte>, n: nat)
    requires |code| == 257 && EntriesOf(code, entries) && n < |input|
    ensures |entries| == 257 && EntryOf(code[input[n]], entries[input[n]])
    ensures Encode(code, input[..n + 1]) == Encode(code, input[..n]) + code[input[n]]
  {
    assert input[..n + 1][..n] == input[..n];
  }

  lemma EosEntry(code: Code, entries: seq<Entry>)
    requires |code| == 257 && EntriesOf(code, entries)
    ensures |entries| == 257 && EntryOf(code[EOS], entries[EOS])
  {
  }

  lemma ZeroOctet(out: OutBuffer)
    requires out.len < |out.mem| && out.mem[out.len] == 0
    ensures out.Clean(8)
  {
    ZeroBits(8);
  }

  /** chula_buffer_ensure_addlen in the middle of an octet. */
  method Grow(out: OutBuffer, remaining: nat, n: nat) returns (r: nat)
    requires out.len <= |out.mem| && 1 <= remaining <= 8 && (remaining < 8 ==> out.Clean(remaining))
    modifies out`mem
    ensures r == remaining && |out.mem| >= out.len + 8
    ensures remaining < 8 ==> out.Clean(remaining)
    ensures out.Written(remaining) == old(out.Written(remaining))
  {
    hide ToBits, BytesBits, Zeros;
    ghost var mem := out.mem;
    r := remaining;
    if remaining < 8 {
      out.mem := out.mem + seq(n + 8, _ => 0xCD);
    } else {
      out.EnsureAddLen(n);
    }
    assert out.mem[..out.len] == mem[..out.len];
  }

  /** The padding of the last octet. */
  method Finish(out: OutBuffer, remaining: nat, eos: Entry, ghost w: Path, ghost done: Path)
    requires EntryOf(w, eos) && |w| > 7 && remaining < 8 && out.Clean(remaining)
    requires out.Written(remaining) == done
    modifies out`mem, out`len
    ensures out.len == old(out.len) + 1 <= |out.mem|
    ensures BytesBits(out.mem[..out.len]) == done + w[..remaining]
  {
    hide ToBits, FromBits, BytesBits, ChunkBits, Zeros;
    assert done + w[..0] == done;
    OrChunk(out, w, eos.value, eos.bits, remaining);
    ChunkFills(out, w, eos.bits, remaining, done, done);
    out.len := out.len + 1;
  }

  /** What was appended is the encoding; what was there before is kept. */
  lemma SplitEncoded(code: Code, input: seq<Byte>, mem: seq<Byte>, start: nat, was: seq<Byte>, end: nat, pad: nat)
    requires Good(code) && end <= |mem| && |was| == start && pad < 8
    requires BytesBits(mem[..end]) == BytesBits(was) + Encode(code, input) + code[EOS][..pad]
    ensures start <= end && mem[..start] == was && Encodes(code, input, mem[start..end])
  {
    hide ToBits, Encode;
    GoodLengths(code);
    var bits := Encode(code, input);
    BytesBitsInjective(was, mem[..end]);
    assert mem[..end] == mem[..start] + mem[start..end];
    BytesBitsConcat(mem[..start], mem[start..end]);
    Sequences.Associate(BytesBits(was), bits, code[EOS][..pad]);
    Cancel(BytesBits(was), BytesBits(mem[start..end]), bits + code[EOS][..pad]);
    PadCompletes(|bits|, pad, end - start);
  }

  lemma Cancel(a: Path, b: Path, c: Path)
    requires a + b == a + c
    ensures b == c
  {
    assert (a + b)[|a|..] == b && (a + c)[|a|..] == c;
  }

  // --- Round trip ---------------------------------------------------------------------

  /** Decoding an encoding from the start of a stream restores the message and ends accepted. */
  lemma DecodeEncoded(code: Code, msg: seq<Byte>, octets: seq<Byte>)
    requires Good(code) && Encodes(code, msg, octets)
    ensures var d := DecodeNibbles(code, [], BytesBits(octets));
      d.ok && d.out == msg && Accepting(code, d.at)
  {
    GoodLengths(code);
    RootIsInner(code);
    var bits := Encode(code, msg);
    NibblesAgree(code, [], BytesBits(octets), 2 * |octets|);
    RoundTrip(code, msg, PadBits(|bits|));
  }

  /** A fresh context is synchronised with the root. */
  lemma FreshContext(code: Code, context: Context)
    requires Good(code) && context.state == 0 && context.accept
    ensures Synced(code, [], context)
  {
    RootIsInner(code);
    InnerNodes(code);
    NumberUnique(code, 0);
  }

  /** Encoding and then decoding is the identity, for every message. */
  method EncodeDecode(msg: seq<Byte>, entries: seq<Entry>, table: Table, ghost code: Code)
    returns (ok: bool, result: seq<Byte>, accept: bool)
    requires Good(code) && EntriesOf(code, entries) && TableOf(code, table)
    ensures ok && accept && result == msg
  {
    hide Good, EntriesOf, TableOf, Encodes, Synced, DecodeNibbles, BytesBits;
    var encoded := new OutBuffer();
    HuffmanEncode(msg, encoded, entries, code);
    var octets := encoded.mem[..encoded.len];
    assert encoded.mem[0..encoded.len] == octets;
    DecodeEncoded(code, msg, octets);
    var context := new Context();
    var out := new Buffer();
    FreshContext(code, context);
    ok := HuffmanDecode(octets, out, context, table, code, []);
    SyncedAccept(code, DecodeNibbles(code, [], BytesBits(octets)).at, context);
    result, accept := out.data, context.accept;
    assert [] + msg == msg;
  }

  lemma SyncedAccept(code: Code, p: Path, context: Context)
    requires Good(code) && Synced(code, p, context)
    ensures context.accept <==> Accepting(code, p)
  {
  }
}
