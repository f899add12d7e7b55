/** What parsing a header block means: the decoding context of HPACK as libhpack/header_parser.c keeps
    it, one step over the octets of a block, and the whole block.
    Sections 3.2.1 and 3.2.2 of draft-ietf-httpbis-header-compression-07. */
module HeaderBlocks {
  import opened Bits
  import opened BitmapSets
  import opened HeaderFifo
  import Integers
  import HuffmanCode
  import Huffman

  type Code = HuffmanCode.Code

  /** hpack_header_parser_context_t; references are slots of the table, pending are those not yet
      emitted in this block, and at is where the iterator over them stands. */
  datatype Ctx = Ctx(t: Table, refs: set<nat>, pending: set<nat>, at: nat, finished: bool)

  datatype Failure = Malformed | NotFound | TryAgain

  /** One step: a field (perhaps an empty one, which is not emitted), the end of the block, or a failure. */
  datatype Step = Ok(ctx: Ctx, field: Field, consumed: nat) | Eof(ctx: Ctx) | Stop(ctx: Ctx, why: Failure)

  ghost predicate Statics(statics: seq<Field>) {
    |statics| == STATIC_ENTRIES && Filled(statics)
  }

  // --- Integers and strings ---------------------------------------------------------

  /** Buffers are followed by a zero octet. */
  function Octet(b: seq<Byte>, i: nat): Byte
    requires i <= |b|
  {
    if i < |b| then b[i] else 0
  }

  /** The length of what is left is passed as an unsigned char. */
  function IntAt(n: nat, b: seq<Byte>, offset: nat): Integers.Decoded
    requires 1 <= n <= 8 && offset <= |b|
  {
    Integers.DecodeInt(n, b[offset..] + [0], (|b| - offset) % 256)
  }

  lemma IntConsumes(n: nat, b: seq<Byte>, offset: nat)
    requires 1 <= n <= 8 && offset <= |b|
    ensures var d := IntAt(n, b, offset);
      d.Decoded? ==> 1 <= d.consumed && (offset < |b| ==> offset + d.consumed <= |b|)
  {
    GroupsConsume(b[offset..] + [0], Integers.Min((|b| - offset) % 256, Integers.VLQ_MAX_LEN), 1,
                  And(Octet(b, offset), Integers.Limit(n)));
  }

  lemma {:induction false} GroupsConsume(mem: seq<Byte>, m: nat, i: nat, acc: nat)
    requires 1 <= i && m <= |mem|
    ensures var d := Integers.DecodeGroups(mem, m, i, acc); d.Decoded? ==> i < d.consumed <= m
    decreases m - i
  {
    if i < m && mem[i] >= 128 { GroupsConsume(mem, m, i + 1, acc + Shl(mem[i] % 128, 7 * (i - 1))); }
  }

  datatype Text = Text(bytes: seq<Byte>) | NoText

  function Bytes(s: seq<nat>): (t: seq<Byte>)
    ensures |t| == |s|
  {
    seq(|s|, i requires 0 <= i < |s| => if s[i] < 256 then s[i] else 0)
  }

  lemma BytesSame(s: seq<nat>, t: seq<Byte>)
    requires s == t
    ensures Bytes(s) == t
  {
    assert forall i :: 0 <= i < |s| ==> s[i] == t[i];
  }

  ghost function HuffmanText(code: Code, raw: seq<Byte>): Text {
    var d := Huffman.DecodeNibbles(code, [], BytesBits(raw));
    if d.ok then Text(Bytes(d.out)) else NoText
  }

  datatype Str = Str(bytes: seq<Byte>, huffman: bool, consumed: nat) | NoStr(why: Failure)

  function FromText(t: Text, consumed: nat): Str {
    match t
    case NoText => NoStr(Malformed)
    case Text(text) => Str(text, true, consumed)
  }

  /** parse_string */
  ghost function StringAt(code: Code, b: seq<Byte>, offset: nat): (s: Str)
    requires offset <= |b|
    ensures s.Str? ==> 1 <= s.consumed && offset + s.consumed <= |b|
  {
    IntConsumes(7, b, offset);
    match IntAt(7, b, offset)
    case Bad => NoStr(Malformed)
    case Decoded(len, con) =>
      var n := offset + con;
      if |b| < n + len then NoStr(TryAgain)
      else
        var raw := b[n..n + len];
        if Octet(b, offset) >= 128 then FromText(HuffmanText(code, raw), con + len)
        else Str(raw, false, con + len)
  }

  // --- The representations ------------------------------------------------------------

  datatype WithField = WithField(ctx: Ctx, added: bool)

  /** add_field_process_evictions */
  ghost function AddField(ctx: Ctx, f: Field): WithField
    requires Sound(ctx.t) && !IsEmpty(f)
  {
    var a := Add(ctx.t, f);
    WithField(ctx.(t := a.t, refs := ctx.refs - a.evicted, pending := ctx.pending - a.evicted), a.evicted != AllSlots())
  }

  lemma AddFieldSound(c: Ctx, f: Field)
    requires Sound(c.t) && !IsEmpty(f)
    ensures Sound(AddField(c, f).ctx.t)
  {
    AddSound(c.t, f);
  }

  /** The entry of an HPACK index is referenced, and it counts as emitted. */
  ghost function Reference(ctx: Ctx, i: nat): Ctx
    requires Sound(ctx.t)
  {
    FewFields(ctx.t);
    var s := Switch(ctx.t, i);
    ctx.(refs := ctx.refs + {s}, pending := ctx.pending - {s})
  }

  ghost function Unreference(ctx: Ctx, i: nat): Ctx
    requires Sound(ctx.t)
  {
    FewFields(ctx.t);
    var s := Switch(ctx.t, i);
    ctx.(refs := ctx.refs - {s}, pending := ctx.pending - {s})
  }

  /** parse_indexed, once the index is read. */
  ghost function Index(o: Outside, ctx: Ctx, i: nat, con: nat): Step
    requires Statics(o.statics) && Sound(ctx.t)
  {
    FewFields(ctx.t);
    if i > STATIC_ENTRIES + |ctx.t.fields| then Stop(ctx, Malformed)
    else if Switch(ctx.t, i) in ctx.refs then Ok(Unreference(ctx, i), CLEAN, con)
    else
      match Get(ctx.t, o, i)
      case Missing => Stop(ctx, NotFound)
      case Unread => Stop(ctx, Malformed)
      case InPart(f) => Stop(ctx, Malformed)
      case InTable(f) => Ok(Reference(ctx, i), f, con)
      case InStatic(f) =>
        AddSound(ctx.t, f);
        Ok(Reference(AddField(ctx, f).ctx, 1), f, con)
  }

  /** parse_indexed */
  ghost function IndexedAt(o: Outside, ctx: Ctx, b: seq<Byte>, offset: nat): Step
    requires Statics(o.statics) && Sound(ctx.t) && offset <= |b|
  {
    match IntAt(7, b, offset)
    case Bad => Stop(ctx, Malformed)
    case Decoded(i, con) => Index(o, ctx, i, con)
  }

  datatype Pair = Pair(field: Field, consumed: nat) | NoPair(why: Failure)

  /** A name that was looked up. */
  function NameFrom(found: Found, con: nat): Pair {
    match found
    case Missing => NoPair(NotFound)
    case Unread => NoPair(Malformed)
    case InTable(f) => Pair(Field(f.name, [], f.flags.(name := IsIndexedTable)), con)
    case InPart(f) => Pair(Field(f.name, [], f.flags.(name := IsIndexedTable)), con)
    case InStatic(f) => Pair(Field(f.name, [], f.flags.(name := IsIndexedStatic)), con)
  }

  /** The name of a literal: an index if one of the four low bits of its first octet is set. */
  ghost function NameAt(code: Code, o: Outside, t: Table, b: seq<Byte>, offset: nat): (p: Pair)
    requires |o.statics| == STATIC_ENTRIES && offset < |b|
    ensures p.Pair? ==> 1 <= p.consumed && offset + p.consumed <= |b|
  {
    if b[offset] % 16 != 0 then
      var n := if b[offset] / 64 != 0 then 6 else 4;
      IntConsumes(n, b, offset);
      match IntAt(n, b, offset)
      case Bad => NoPair(Malformed)
      case Decoded(i, con) => NameFrom(Get(t, o, i % 0x1_0000), con)
    else
      match StringAt(code, b, offset + 1)
      case NoStr(why) => NoPair(why)
      case Str(name, huffman, con) =>
        Pair(Field(name, [], CLEAN.flags.(name := if huffman then IsNewHuffman else IsNew)), 1 + con)
  }

  /** parse_header_pair */
  ghost function PairAt(code: Code, o: Outside, t: Table, b: seq<Byte>, offset: nat): (p: Pair)
    requires |o.statics| == STATIC_ENTRIES && offset < |b|
    ensures p.Pair? ==> 1 <= p.consumed && offset + p.consumed <= |b|
  {
    match NameAt(code, o, t, b, offset)
    case NoPair(why) => NoPair(why)
    case Pair(f, n) =>
      match StringAt(code, b, offset + n)
      case NoStr(why) => NoPair(why)
      case Str(value, huffman, con) =>
        Pair(f.(value := value, flags := f.flags.(value := if huffman then IsNewHuffman else IsNew)), n + con)
  }

  /** A literal field; with incremental indexing it enters the table.  There an empty name is refused: what
      the source does with it depends on whether the buffer of the name was ever allocated. */
  ghost function Literal(ctx: Ctx, first: Byte, f: Field, con: nat): Step
    requires Sound(ctx.t)
  {
    if first / 64 != 1 then
      Ok(ctx, f.(flags := f.flags.(rep := if first >= 16 then RepNeverIndexed else RepWithoutIndexing)), con)
    else
      var g := f.(flags := f.flags.(rep := RepIncIndexed));
      if g.name == [] then Stop(ctx, Malformed)
      else
        AddSound(ctx.t, g);
        var a := AddField(ctx, g);
        Ok(if a.added then Reference(a.ctx, 1) else a.ctx, g, con)
  }

  /** parse_context_update for a limit, which is passed as a uint16_t. */
  ghost function Resize(ctx: Ctx, limit: nat, con: nat): Step
    requires Sound(ctx.t)
  {
    var max := limit % 0x1_0000;
    if max > MAX_SIZE then Stop(ctx, Malformed)
    else
      var a := SetMax(ctx.t, max);
      Ok(ctx.(t := a.t, refs := ctx.refs - a.evicted, pending := ctx.pending - a.evicted), CLEAN, con)
  }

  /** parse_context_update */
  ghost function UpdateAt(ctx: Ctx, b: seq<Byte>, offset: nat): Step
    requires Sound(ctx.t) && offset < |b|
  {
    if b[offset] == 0x30 then Ok(ctx.(refs := {}, pending := {}), CLEAN, 1)
    else
      match IntAt(4, b, offset)
      case Bad => Stop(ctx, Malformed)
      case Decoded(limit, con) => Resize(ctx, limit, con)
  }

  /** A field that was looked up, whether or not that succeeded. */
  function FieldFound(found: Found): Field {
    match found
    case Missing => CLEAN
    case Unread => CLEAN
    case InTable(f) => f
    case InPart(f) => f
    case InStatic(f) => f
  }

  /** final_reference_set_process */
  ghost function Final(o: Outside, ctx: Ctx): Step
    requires |o.statics| == STATIC_ENTRIES && Sound(ctx.t)
  {
    FewFields(ctx.t);
    if ctx.finished then Eof(ctx)
    else
      var r := Next(ctx.pending, ctx.at);
      if r == -1 then Eof(ctx.(finished := true, pending := ctx.refs, at := 0))
      else
        var i := Switch(ctx.t, r);
        var next := ctx.(pending := ctx.pending - {Switch(ctx.t, i)}, at := r + 1);
        Ok(next, FieldFound(Get(ctx.t, o, i)), 0)
  }

  /** hpack_header_parser_field */
  ghost function FieldAt(code: Code, o: Outside, c: Ctx, b: seq<Byte>, offset: nat): Step
    requires Statics(o.statics) && Sound(c.t) && offset <= |b|
  {
    if offset == |b| then Final(o, c)
    else
      var ctx := c.(finished := false);
      var first := b[offset];
      if first / 32 == 1 then UpdateAt(ctx, b, offset)
      else if first >= 128 then IndexedAt(o, ctx, b, offset)
      else
        match PairAt(code, o, ctx.t, b, offset)
        case NoPair(why) => Stop(ctx, why)
        case Pair(f, con) => Literal(ctx, first, f, con)
  }

  /** Every step consumes octets of the block or advances the iterator, and keeps the table sound. */
  lemma FieldAtProgress(code: Code, o: Outside, c: Ctx, b: seq<Byte>, offset: nat)
    requires Statics(o.statics) && Sound(c.t) && offset <= |b|
    ensures var s := FieldAt(code, o, c, b, offset);
      && Sound(s.ctx.t)
      && (s.Ok? ==> offset + s.consumed <= |b|)
      && (s.Ok? && offset < |b| ==> s.consumed >= 1)
      && (s.Ok? && offset == |b| ==> s.consumed == 0 && c.at < s.ctx.at <= SLOTS)
      && (s.Eof? ==> offset == |b| && s.ctx.finished)
  {
    hide Sound, StringAt, IntAt, Excess, Statics, Filled;
    if offset < |b| {
      IntConsumes(4, b, offset);
      IntConsumes(7, b, offset);
      StepSound(code, o, c, b, offset);
    }
  }

  lemma StepSound(code: Code, o: Outside, c: Ctx, b: seq<Byte>, offset: nat)
    requires Statics(o.statics) && Sound(c.t) && offset < |b|
    ensures Sound(FieldAt(code, o, c, b, offset).ctx.t)
  {
    var ctx := c.(finished := false);
    hide Sound, StringAt, IntAt, PairAt, Excess, Add, SetMax, Switch, Live;
    match IntAt(4, b, offset) {
      case Bad =>
      case Decoded(limit, con) => if limit % 0x1_0000 <= MAX_SIZE { SetMaxSound(c.t, limit % 0x1_0000); }
    }
    match PairAt(code, o, c.t, b, offset) {
      case NoPair(why) =>
      case Pair(f, con) =>
        var g := f.(flags := f.flags.(rep := RepIncIndexed));
        if g.name != [] { AddSound(c.t, g); }
    }
    match IntAt(7, b, offset) {
      case Bad =>
      case Decoded(i, con) => if Get(c.t, o, i).InStatic? { AddSound(c.t, Get(c.t, o, i).f); }
    }
  }

  // --- Names by their index -----------------------------------------------------------

  /** The name of a literal that is accepted is, by its index, that of the entry counted from the newest one,
      or of a static entry behind the oldest; with the index cut to zero it is what was left behind. */
  lemma NameOfIndex(code: Code, o: Outside, t: Table, b: seq<Byte>, offset: nat)
    requires |o.statics| == STATIC_ENTRIES && offset < |b| && b[offset] % 16 != 0 && PairAt(code, o, t, b, offset).Pair?
    ensures var d := IntAt(if b[offset] >= 64 then 6 else 4, b, offset);
      d.Decoded? && var i, n, f, left := d.value % 0x1_0000, |t.fields|, PairAt(code, o, t, b, offset).field, o.left;
        && i <= n + STATIC_ENTRIES
        && (1 <= i <= n ==> f.name == t.fields[n - i].name && f.flags.name == IsIndexedTable)
        && (i > n ==> i > 0 && f.name == o.statics[i - n - 1].name && f.flags.name == IsIndexedStatic)
        && (i == 0 ==> !left.Unreadable? && f.name == (if left.Whole? then left.f.name else left.name.name))
        && (i == 0 ==> f.flags.name == IsIndexedTable)
  {
    hide StringAt, IntAt;
  }

  // --- The test for an indexed name -------------------------------------------------------

  /** NameAt with a test of all bits of the index prefix. */
  ghost function NameByPrefix(code: Code, o: Outside, t: Table, b: seq<Byte>, offset: nat): Pair
    requires |o.statics| == STATIC_ENTRIES && offset < |b|
  {
    if b[offset] % 16 == 0 && b[offset] / 64 != 0 && b[offset] % 64 != 0 then
      match IntAt(6, b, offset)
      case Bad => NoPair(Malformed)
      case Decoded(i, con) => NameFrom(Get(t, o, i % 0x1_0000), con)
    else NameAt(code, o, t, b, offset)
  }

  ghost predicate NamedRight(code: Code, o: Outside, t: Table, first: Byte)
    requires |o.statics| == STATIC_ENTRIES
  {
    forall rest: seq<Byte> :: NameAt(code, o, t, [first] + rest, 0) == NameByPrefix(code, o, t, [first] + rest, 0)
  }

  /** The test of four bits is right for every first octet of a literal but those whose index is a
      multiple of sixteen. */
  lemma FourBitsAreRight(code: Code, o: Outside, t: Table, first: Byte)
    requires |o.statics| == STATIC_ENTRIES && (first < 32 || 64 <= first < 128)
    ensures NamedRight(code, o, t, first) <==> first !in {0x50, 0x60, 0x70}
  {
    hide StringAt, IntAt;
    if first in {0x50, 0x60, 0x70} {
      var b: seq<Byte> := [first] + [];
      AloneIsNoString(code, b);
      SixBits(first, first / 16);
      assert NameAt(code, o, t, b, 0) != NameByPrefix(code, o, t, b, 0);
    } else {
      assert first % 16 == 0 && first / 64 != 0 ==> first % 64 == 0;
    }
  }

  lemma AloneIsNoString(code: Code, b: seq<Byte>)
    requires |b| == 1
    ensures StringAt(code, b, 1) == NoStr(TryAgain)
  {
    assert b[1..] + [0] == [0];
    assert And(0, Integers.Limit(7)) == 0;
  }

  lemma SixBits(first: Byte, k: nat)
    requires 5 <= k <= 7 && first == 16 * k
    ensures IntAt(6, [first], 0) == Integers.Decoded(16 * (k - 4), 1)
  {
    Integers.LimitIs(6);
    assert Pow2(6) == 64;
    hide *;
    Integers.AndMask(first, 6);
    SmallInt(6, first);
  }

  lemma SmallInt(n: nat, first: Byte)
    requires 1 <= n <= 8 && And(first, Integers.Limit(n)) < Integers.Limit(n)
    ensures IntAt(n, [first], 0) == Integers.Decoded(And(first, Integers.Limit(n)), 1)
  {
    hide And, Integers.Limit;
    assert [first][0..] + [0] == [first, 0];
  }
}
