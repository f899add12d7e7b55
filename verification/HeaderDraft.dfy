/** The decoding context as the specification describes it, without slots, bitmaps or buffers: a list of
    entries, the oldest first, of which each knows whether it is referenced and whether it is still to be
    emitted.  Sections 3.2.1 and 3.2.2 of draft-ietf-httpbis-header-compression-07.  Octets are read as the
    specification says, without the cuts and shortcuts of the parser. */
module HeaderDrafts {
  import Sequences
  import Integers
  import HuffmanCode
  import HuffmanTable
  import Huffman
  import opened Bits
  import opened BitmapSets
  import opened HeaderFifo
  import opened HeaderBlocks
  import opened HeaderRuns

  datatype Entry = Entry(f: Field, referenced: bool, pending: bool)

  datatype Context = Context(entries: seq<Entry>, max: nat)

  /** What one representation of a block asks for. */
  datatype Request = Indexed(i: nat) | Literally(f: Field) | Inserted(f: Field) | Emptied | Limited(max: nat)

  datatype Answer = Answer(context: Context, emitted: Field)

  const SILENCE := Field([], [], Flags(RepEmpty, IsIndexedTable, IsIndexedTable))

  function FieldsIn(entries: seq<Entry>): (fields: seq<Field>)
    ensures |fields| == |entries|
  {
    seq(|entries|, k requires 0 <= k < |entries| => entries[k].f)
  }

  /** The entries that remain within a limit. */
  function Within(entries: seq<Entry>, limit: nat): seq<Entry> {
    entries[Excess(FieldsIn(entries), limit)..]
  }

  /** A new entry is referenced and counts as emitted; one that does not fit empties the table. */
  function Insert(c: Context, f: Field): Context {
    if Size(f) > c.max then c.(entries := [])
    else c.(entries := Within(c.entries, c.max - Size(f)) + [Entry(f, true, false)])
  }

  function Unmarked(entries: seq<Entry>): (s: seq<Entry>)
    ensures |s| == |entries|
  {
    seq(|entries|, k requires 0 <= k < |entries| => Entry(entries[k].f, false, false))
  }

  /** The context after a request that is in order, and the field it emits. */
  function Answered(c: Context, statics: seq<Field>, r: Request): Answer
    requires |statics| == STATIC_ENTRIES
    requires r.Indexed? ==> 1 <= r.i <= |c.entries| + STATIC_ENTRIES
  {
    match r
    case Emptied => Answer(c.(entries := Unmarked(c.entries)), SILENCE)
    case Limited(max) => Answer(Context(if max == 0 then [] else Within(c.entries, max), max), SILENCE)
    case Literally(f) => Answer(c, f)
    case Inserted(f) => Answer(Insert(c, f), f)
    case Indexed(i) =>
      var n := |c.entries|;
      if i > n then
        var f := statics[i - n - 1];
        Answer(Insert(c, f), f)
      else
        var e := c.entries[n - i];
        if e.referenced then Answer(c.(entries := c.entries[n - i := Entry(e.f, false, false)]), SILENCE)
        else Answer(c.(entries := c.entries[n - i := Entry(e.f, true, false)]), e.f)
  }

  // --- What octets ask for -------------------------------------------------------------------

  /** A request and the octets it takes, or nothing that the specification allows. */
  datatype Asked = Asks(r: Request, consumed: nat) | Refused

  /** The groups of an integer, however many there are. */
  function MeantGroups(mem: seq<Byte>, i: nat, acc: nat): Integers.Decoded
    requires 1 <= i
    decreases |mem| - i
  {
    if i >= |mem| then Integers.Bad
    else
      var sum := acc + Shl(mem[i] % 128, 7 * (i - 1));
      if mem[i] >= 128 then MeantGroups(mem, i + 1, sum) else Integers.Decoded(sum, i + 1)
  }

  /** An integer with a prefix of n bits. */
  function IntMeant(n: nat, b: seq<Byte>, offset: nat): Integers.Decoded
    requires 1 <= n <= 8 && offset <= |b|
  {
    if offset == |b| then Integers.Bad
    else
      var first := b[offset] % Pow2(n);
      if first < Pow2(n) - 1 then Integers.Decoded(first, 1) else MeantGroups(b[offset..], 1, first)
  }

  /** A Huffman-encoded text, one bit at a time; what remains must be padding. */
  ghost function TextMeant(code: Code, raw: seq<Byte>): Text
    requires HuffmanCode.Good(code)
  {
    var d := HuffmanCode.Decode(code, [], BytesBits(raw));
    if d.ok && HuffmanTable.Accepting(code, d.at) then Text(Bytes(d.out)) else NoText
  }

  ghost function StringMeant(code: Code, b: seq<Byte>, offset: nat): Str
    requires HuffmanCode.Good(code) && offset <= |b|
  {
    match IntMeant(7, b, offset)
    case Bad => NoStr(Malformed)
    case Decoded(len, con) =>
      var n := offset + con;
      if |b| < n + len then NoStr(Malformed)
      else if b[offset] < 128 then Str(b[n..n + len], false, con + len)
      else
        match TextMeant(code, b[n..n + len])
        case NoText => NoStr(Malformed)
        case Text(text) => Str(text, true, con + len)
  }

  /** The name of the entry with an index, and which of the two tables it comes from. */
  function NameOf(c: Context, statics: seq<Field>, i: nat, con: nat): Pair
    requires |statics| == STATIC_ENTRIES
  {
    var n := |c.entries|;
    if 1 <= i <= n then
      var f := c.entries[n - i].f;
      Pair(Field(f.name, [], Flags(f.flags.rep, IsIndexedTable, f.flags.value)), con)
    else if n < i <= n + STATIC_ENTRIES then
      var f := statics[i - n - 1];
      Pair(Field(f.name, [], Flags(f.flags.rep, IsIndexedStatic, f.flags.value)), con)
    else NoPair(NotFound)
  }

  predicate HasIndex(first: Byte) {
    first % (if first >= 64 then 64 else 16) != 0
  }

  /** The name of a literal is new if all bits of the prefix are zero. */
  ghost function NameMeant(code: Code, statics: seq<Field>, c: Context, b: seq<Byte>, offset: nat): Pair
    requires HuffmanCode.Good(code) && |statics| == STATIC_ENTRIES && offset < |b|
  {
    if HasIndex(b[offset]) then
      match IntMeant(if b[offset] >= 64 then 6 else 4, b, offset)
      case Bad => NoPair(Malformed)
      case Decoded(i, con) => NameOf(c, statics, i, con)
    else
      match StringMeant(code, b, offset + 1)
      case NoStr(why) => NoPair(why)
      case Str(name, huffman, con) =>
        Pair(Field(name, [], Flags(RepEmpty, if huffman then IsNewHuffman else IsNew, IsIndexedTable)), 1 + con)
  }

  ghost function PairMeant(code: Code, statics: seq<Field>, c: Context, b: seq<Byte>, offset: nat): Pair
    requires HuffmanCode.Good(code) && |statics| == STATIC_ENTRIES && offset < |b|
  {
    match NameMeant(code, statics, c, b, offset)
    case NoPair(why) => NoPair(why)
    case Pair(f, n) =>
      if |b| < offset + n then NoPair(Malformed)
      else
        match StringMeant(code, b, offset + n)
        case NoStr(why) => NoPair(why)
        case Str(value, huffman, con) =>
          Pair(f.(value := value, flags := f.flags.(value := if huffman then IsNewHuffman else IsNew)), n + con)
  }

  /** With the bits of its representation, a literal is inserted or passed on. */
  function LiteralRequest(first: Byte, f: Field): Request {
    if first / 64 == 1 then Inserted(f.(flags := f.flags.(rep := RepIncIndexed)))
    else Literally(f.(flags := f.flags.(rep := if first >= 16 then RepNeverIndexed else RepWithoutIndexing)))
  }

  /** What the octets at an offset ask for. */
  ghost function AskedAt(code: Code, statics: seq<Field>, c: Context, b: seq<Byte>, offset: nat): Asked
    requires HuffmanCode.Good(code) && |statics| == STATIC_ENTRIES && offset < |b|
  {
    var first := b[offset];
    if first == 0x30 then Asks(Emptied, 1)
    else if first / 16 == 3 then Refused
    else if first / 32 == 1 then
      (match IntMeant(4, b, offset)
       case Bad => Refused
       case Decoded(limit, con) => if limit > MAX_SIZE then Refused else Asks(Limited(limit), con))
    else if first >= 128 then
      (match IntMeant(7, b, offset)
       case Bad => Refused
       case Decoded(i, con) => if 1 <= i <= |c.entries| + STATIC_ENTRIES then Asks(Indexed(i), con) else Refused)
    else
      (match PairMeant(code, statics, c, b, offset)
       case NoPair(why) => Refused
       case Pair(f, con) => Asks(LiteralRequest(first, f), con))
  }

  // --- The context of the parser as such a list ---------------------------------------------

  ghost function EntryAt(c: Ctx, k: nat): Entry
    requires c.t.head < SLOTS && k < |c.t.fields| < SLOTS
  {
    var s := SlotOf(c.t, k);
    Entry(c.t.fields[k], s in c.refs, s in c.pending)
  }

  ghost function Seen(c: Ctx): (d: Context)
    requires Sound(c.t)
  {
    FewFields(c.t);
    Context(seq(|c.t.fields|, k requires 0 <= k < |c.t.fields| => EntryAt(c, k)), c.t.max)
  }

  lemma SeenFields(c: Ctx)
    requires Sound(c.t)
    ensures FieldsIn(Seen(c).entries) == c.t.fields
  {
    FewFields(c.t);
  }

  lemma SeenAt(c: Ctx, k: nat)
    requires Sound(c.t) && k < |c.t.fields|
    ensures |Seen(c).entries| == |c.t.fields| < SLOTS && Seen(c).entries[k] == EntryAt(c, k) && Seen(c).max == c.t.max
  {
    FewFields(c.t);
  }

  lemma SeenIs(c: Ctx, entries: seq<Entry>)
    requires Sound(c.t) && |entries| == |c.t.fields| < SLOTS
    requires forall k :: 0 <= k < |entries| ==> EntryAt(c, k) == entries[k]
    ensures Seen(c).entries == entries && Seen(c).max == c.t.max
  {
    hide EntryAt;
  }

  lemma SameSlot(t: Table, j: nat, k: nat)
    requires t.head < SLOTS && j < SLOTS && k < SLOTS
    ensures SlotOf(t, j) == SlotOf(t, k) <==> j == k
  {
  }

  /** Marking the slot of an index marks that entry alone. */
  lemma MarkSeen(c: Ctx, i: nat)
    requires Inv(c) && 1 <= i <= |c.t.fields|
    ensures var n := |c.t.fields|; var f := c.t.fields[n - i];
      && Seen(Reference(c, i)).entries == Seen(c).entries[n - i := Entry(f, true, false)]
      && Seen(Unreference(c, i)).entries == Seen(c).entries[n - i := Entry(f, false, false)]
  {
    FewFields(c.t);
    SwitchIndex(c.t, i);
    var n := |c.t.fields|;
    hide Sound, Live, Switch;
    forall k | 0 <= k < n
      ensures EntryAt(Reference(c, i), k) == if k == n - i then Entry(c.t.fields[k], true, false) else EntryAt(c, k)
      ensures EntryAt(Unreference(c, i), k) == if k == n - i then Entry(c.t.fields[k], false, false) else EntryAt(c, k)
    {
      SameSlot(c.t, k, n - i);
    }
  }

  /** Dropping the oldest fields and their references drops the oldest entries. */
  lemma DropSeen(c: Ctx, n: nat, k: nat)
    requires Inv(c) && n + k < |c.t.fields| < SLOTS
    ensures var e := Oldest(c.t, n); var d := c.(t := Drop(c.t, n), refs := c.refs - e, pending := c.pending - e);
      EntryAt(d, k) == EntryAt(c, n + k)
  {
    assert c.t.head < SLOTS;
    hide Sound, Live;
    assert SlotOf(Drop(c.t, n), k) == SlotOf(c.t, n + k);
    SlotPlace(c.t, n + k);
  }

  /** A new entry behind the newest. */
  lemma PushSeen(c: Ctx, f: Field, k: nat)
    requires c.t.head < SLOTS && k <= |c.t.fields| && |c.t.fields| + 1 < SLOTS
    ensures var s := SlotOf(c.t, |c.t.fields|);
      var d := c.(t := c.t.(fields := c.t.fields + [f]), refs := c.refs + {s}, pending := c.pending - {s});
      EntryAt(d, k) == if k < |c.t.fields| then EntryAt(c, k) else Entry(f, true, false)
  {
    SameSlot(c.t, k, |c.t.fields|);
  }

  /** What an addition that fits leaves behind. */
  lemma InsertedCtx(c: Ctx, f: Field) returns (e: nat, kept: Ctx)
    requires Inv(c) && !IsEmpty(f) && Size(f) <= c.t.max
    ensures |c.t.fields| <= 124 && e == Excess(c.t.fields, c.t.max - Size(f))
    ensures var o := Oldest(c.t, e);
      kept == c.(t := Drop(c.t, e), refs := c.refs - o, pending := c.pending - o)
    ensures kept.t.head < SLOTS && |kept.t.fields| == |c.t.fields| - e && kept.t.max == c.t.max
    ensures var s := SlotOf(kept.t, |kept.t.fields|); var a := AddField(c, f).ctx;
      && Sound(a.t) && Reference(a, 1) ==
        kept.(t := kept.t.(fields := kept.t.fields + [f]), refs := kept.refs + {s}, pending := kept.pending - {s})
  {
    FewFields(c.t);
    AddSound(c.t, f);
    assert c.t.head < SLOTS;
    hide Sound, Excess, Live, Switch, Oldest, Used, Filled;
    e := Excess(c.t.fields, c.t.max - Size(f));
    var o := Oldest(c.t, e);
    kept := c.(t := Drop(c.t, e), refs := c.refs - o, pending := c.pending - o);
    var a := AddField(c, f).ctx;
    assert a.t == kept.t.(fields := kept.t.fields + [f]);
    FewFields(a.t);
    SwitchIndex(a.t, 1);
  }

  lemma FitsSeen(c: Ctx, f: Field)
    requires Inv(c) && !IsEmpty(f) && Size(f) <= c.t.max
    ensures Sound(AddField(c, f).ctx.t) && Sound(Reference(AddField(c, f).ctx, 1).t)
    ensures Seen(Reference(AddField(c, f).ctx, 1)) == Insert(Seen(c), f)
  {
    hide Excess, Live, Drop, AddField, Switch, EntryAt;
    AddFieldInv(c, f);
    SeenFields(c);
    var e, kept := InsertedCtx(c, f);
    var d, n := Reference(AddField(c, f).ctx, 1), |kept.t.fields|;
    assert Sound(d.t) && |d.t.fields| == n + 1 < SLOTS && d.t.max == c.t.max;
    var entries := Seen(c).entries[e..] + [Entry(f, true, false)];
    hide Sound, Reference;
    forall k | 0 <= k <= n ensures EntryAt(d, k) == entries[k] {
      PushSeen(kept, f, k);
      if k < n {
        DropSeen(c, e, k);
        SeenAt(c, e + k);
      }
    }
    SeenIs(d, entries);
    hide Seen;
  }

  /** A field that enters the table appears as the newest entry, referenced and emitted, and one that does
      not fit empties the list; but for the limit, which is then the largest one again. */
  lemma InsertSeen(c: Ctx, f: Field)
    requires Inv(c) && !IsEmpty(f)
    ensures Sound(AddField(c, f).ctx.t)
    ensures var a := AddField(c, f); var d := if a.added then Reference(a.ctx, 1) else a.ctx;
      && Sound(d.t) && (a.added <==> Size(f) <= c.t.max)
      && Seen(d).entries == Insert(Seen(c), f).entries
      && (Seen(d) == Insert(Seen(c), f) <==> !LimitRaised(c, f))
  {
    AddFieldInv(c, f);
    if Size(f) <= c.t.max {
      FitsSeen(c, f);
    } else {
      assert AddField(c, f).ctx.t == Table([], 0, MAX_SIZE);
    }
    hide Excess, Live, Switch, Oldest;
  }

  /** A field that does not fit makes the parser forget its limit. */
  predicate LimitRaised(c: Ctx, f: Field) {
    Size(f) > c.t.max && c.t.max != MAX_SIZE
  }

  lemma LimitSeen(c: Ctx, max: nat)
    requires Inv(c) && max <= MAX_SIZE && (max == 0 ==> c.refs == {})
    ensures var a := SetMax(c.t, max);
      var d := c.(t := a.t, refs := c.refs - a.evicted, pending := c.pending - a.evicted);
      Sound(d.t) && Seen(d) == Context(if max == 0 then [] else Within(Seen(c).entries, max), max)
  {
    SetMaxSound(c.t, max);
    SeenFields(c);
    FewFields(c.t);
    var a := SetMax(c.t, max);
    var d := c.(t := a.t, refs := c.refs - a.evicted, pending := c.pending - a.evicted);
    if max > 0 {
      var e := Excess(c.t.fields, max);
      assert a == Added(Drop(c.t, e).(max := max), Oldest(c.t, e)) && |d.t.fields| == |c.t.fields| - e;
      hide Sound, Excess, Live, SetMax, Drop, Oldest;
      var entries := Seen(c).entries[e..];
      forall k | 0 <= k < |c.t.fields| - e ensures EntryAt(d, k) == entries[k] {
        DropSeen(c, e, k);
        SameEntry(c.(t := Drop(c.t, e), refs := d.refs, pending := d.pending), d, k);
        SeenAt(c, e + k);
      }
      SeenIs(d, entries);
      hide Seen, EntryAt;
    }
  }

  lemma SameEntry(c: Ctx, d: Ctx, k: nat)
    requires c.t.head == d.t.head < SLOTS && c.t.fields == d.t.fields && c.refs == d.refs && c.pending == d.pending
    requires k < |c.t.fields| < SLOTS
    ensures EntryAt(c, k) == EntryAt(d, k)
  {
  }

  // --- The steps ------------------------------------------------------------------------------

  /** A step is the answer of the specification to what is asked for. */
  ghost predicate Meets(c: Ctx, statics: seq<Field>, s: Step, a: Asked) {
    && Sound(c.t) && s.Ok? && Sound(s.ctx.t) && |statics| == STATIC_ENTRIES
    && a.Asks? && a.consumed == s.consumed
    && (a.r.Indexed? ==> 1 <= a.r.i <= |Seen(c).entries| + STATIC_ENTRIES)
    && Answer(Seen(s.ctx), s.field) == Answered(Seen(c), statics, a.r)
  }

  // Integers and strings

  lemma {:induction false} GroupsMeant(mem: seq<Byte>, m: nat, i: nat, acc: nat)
    requires 1 <= i && m <= |mem| && Integers.DecodeGroups(mem + [0], m, i, acc).Decoded?
    ensures MeantGroups(mem, i, acc) == Integers.DecodeGroups(mem + [0], m, i, acc)
    decreases m - i
  {
    if i < m {
      assert (mem + [0])[i] == mem[i];
      if mem[i] >= 128 { GroupsMeant(mem, m, i + 1, acc + Shl(mem[i] % 128, 7 * (i - 1))); }
    }
  }

  /** An integer that the parser accepts is read as it is meant. */
  lemma IntAgrees(n: nat, b: seq<Byte>, offset: nat)
    requires 1 <= n <= 8 && offset < |b| && IntAt(n, b, offset).Decoded?
    ensures IntMeant(n, b, offset) == IntAt(n, b, offset)
  {
    hide IntAt;
    IntFirst(n, b, offset);
    Integers.LimitIs(n);
    Integers.AndMask(b[offset], n);
    hide And, Pow2, Integers.Limit, Integers.DecodeGroups, MeantGroups;
    var first, m := b[offset] % Pow2(n), Integers.Min((|b| - offset) % 256, Integers.VLQ_MAX_LEN);
    if first == Pow2(n) - 1 { GroupsMeant(b[offset..], m, 1, first); }
  }

  /** The octets of a Huffman-encoded string that the parser accepts end in something else than padding. */
  ghost predicate BadPadding(code: Code, b: seq<Byte>, offset: nat)
    requires HuffmanCode.Good(code) && offset <= |b|
  {
    match IntAt(7, b, offset)
    case Bad => false
    case Decoded(len, con) =>
      && Octet(b, offset) >= 128 && offset + con + len <= |b|
      && !HuffmanTable.Accepting(code, HuffmanCode.Decode(code, [], BytesBits(b[offset + con..offset + con + len])).at)
  }

  lemma TextAgrees(code: Code, raw: seq<Byte>)
    requires HuffmanCode.Good(code)
    requires HuffmanText(code, raw).Text?
    ensures TextMeant(code, raw) ==
      if HuffmanTable.Accepting(code, HuffmanCode.Decode(code, [], BytesBits(raw)).at) then HuffmanText(code, raw) else NoText
  {
    HuffmanCode.RootIsInner(code);
    hide HuffmanCode.Good, HuffmanCode.Inner, HuffmanCode.Decode, Huffman.DecodeNibbles, HuffmanTable.Accepting;
    Huffman.NibblesAgree(code, [], BytesBits(raw), 2 * |raw|);
  }

  lemma PlainAgrees(code: Code, b: seq<Byte>, offset: nat)
    requires HuffmanCode.Good(code) && offset < |b| && StringAt(code, b, offset).Str? && b[offset] < 128
    ensures !BadPadding(code, b, offset) && StringMeant(code, b, offset) == StringAt(code, b, offset)
  {
    hide HuffmanCode.Good, HuffmanText, TextMeant, IntAt, IntMeant, HuffmanTable.Accepting, HuffmanCode.Decode;
    IntAgrees(7, b, offset);
  }

  /** A Huffman-encoded string by its octets: as it is read, as it is meant, and its padding. */
  lemma EncodedRead(code: Code, b: seq<Byte>, offset: nat, len: nat, con: nat)
    requires offset < |b| && b[offset] >= 128 && offset + con + len <= |b| && IntAt(7, b, offset) == Integers.Decoded(len, con)
    ensures StringAt(code, b, offset) == FromText(HuffmanText(code, b[offset + con..offset + con + len]), con + len)
  {
    hide HuffmanText, IntAt, FromText;
  }

  lemma EncodedMeant(code: Code, b: seq<Byte>, offset: nat, len: nat, con: nat)
    requires HuffmanCode.Good(code)
    requires offset < |b| && b[offset] >= 128 && offset + con + len <= |b| && IntMeant(7, b, offset) == Integers.Decoded(len, con)
    ensures StringMeant(code, b, offset) == FromText(TextMeant(code, b[offset + con..offset + con + len]), con + len)
  {
    hide HuffmanCode.Good, TextMeant, IntMeant;
  }

  lemma EncodedPadding(code: Code, b: seq<Byte>, offset: nat, len: nat, con: nat)
    requires HuffmanCode.Good(code)
    requires offset < |b| && b[offset] >= 128 && offset + con + len <= |b| && IntAt(7, b, offset) == Integers.Decoded(len, con)
    ensures BadPadding(code, b, offset) <==>
      !HuffmanTable.Accepting(code, HuffmanCode.Decode(code, [], BytesBits(b[offset + con..offset + con + len])).at)
  {
    hide HuffmanCode.Good, IntAt, HuffmanTable.Accepting, HuffmanCode.Decode, BytesBits;
  }

  lemma EncodedAgrees(code: Code, b: seq<Byte>, offset: nat, d: Integers.Decoded)
    requires HuffmanCode.Good(code) && offset < |b| && StringAt(code, b, offset).Str? && b[offset] >= 128
    requires d == IntAt(7, b, offset) && d.Decoded? && offset + d.consumed + d.value <= |b|
    ensures StringMeant(code, b, offset) == if BadPadding(code, b, offset) then NoStr(Malformed) else StringAt(code, b, offset)
  {
    hide HuffmanCode.Good, HuffmanText, TextMeant, IntAt, IntMeant, HuffmanTable.Accepting, HuffmanCode.Decode, StringAt, StringMeant, BadPadding;
    IntAgrees(7, b, offset);
    EncodedRead(code, b, offset, d.value, d.consumed);
    EncodedMeant(code, b, offset, d.value, d.consumed);
    EncodedPadding(code, b, offset, d.value, d.consumed);
    TextAgrees(code, b[offset + d.consumed..offset + d.consumed + d.value]);
  }

  lemma StringInside(code: Code, b: seq<Byte>, offset: nat)
    requires offset <= |b| && StringAt(code, b, offset).Str?
    ensures var d := IntAt(7, b, offset); offset < |b| && d.Decoded? && offset + d.consumed + d.value <= |b|
  {
    hide IntAt, HuffmanText;
  }

  /** A string that the parser accepts is meant so unless its padding is none. */
  lemma StringAgrees(code: Code, b: seq<Byte>, offset: nat)
    requires HuffmanCode.Good(code) && offset <= |b| && StringAt(code, b, offset).Str?
    ensures offset < |b|
    ensures StringMeant(code, b, offset) == if BadPadding(code, b, offset) then NoStr(Malformed) else StringAt(code, b, offset)
  {
    hide HuffmanCode.Good, StringAt, StringMeant, BadPadding, IntAt;
    StringInside(code, b, offset);
    if b[offset] < 128 { PlainAgrees(code, b, offset); } else { EncodedAgrees(code, b, offset, IntAt(7, b, offset)); }
  }

  // Names and values

  /** An index of a name that needs more than sixteen bits. */
  predicate IndexCut(b: seq<Byte>, offset: nat)
    requires offset < |b|
  {
    && b[offset] % 16 != 0
    && var d := IntAt(if b[offset] / 64 != 0 then 6 else 4, b, offset);
      d.Decoded? && d.value > 0xFFFF
  }

  /** An index of a name of which the parser tests four of six bits. */
  predicate PrefixSplit(first: Byte) {
    first in {0x50, 0x60, 0x70}
  }

  /** The name or the value ends in something else than padding. */
  ghost predicate PaddingIgnored(code: Code, o: Outside, t: Table, b: seq<Byte>, offset: nat)
    requires HuffmanCode.Good(code) && |o.statics| == STATIC_ENTRIES && offset < |b|
  {
    var p := NameAt(code, o, t, b, offset);
    (b[offset] % 16 == 0 && BadPadding(code, b, offset + 1)) || (p.Pair? && BadPadding(code, b, offset + p.consumed))
  }

  predicate IsLiteral(first: Byte) {
    first < 32 || 64 <= first < 128
  }

  lemma NamesAgree(o: Outside, c: Ctx, i: nat, con: nat)
    requires |o.statics| == STATIC_ENTRIES && Sound(c.t) && 1 <= i
    ensures NameOf(Seen(c), o.statics, i, con) == NameFrom(Get(c.t, o, i), con)
  {
    FewFields(c.t);
    hide Sound;
    if i <= |c.t.fields| { SeenAt(c, |c.t.fields| - i); }
    assert |Seen(c).entries| == |c.t.fields|;
    hide Seen;
  }

  /** A prefix that is not zero is the index of an entry. */
  lemma IndexPositive(b: seq<Byte>, offset: nat)
    requires offset < |b| && IsLiteral(b[offset]) && b[offset] % 16 != 0
    ensures var n := if b[offset] / 64 != 0 then 6 else 4;
      HasIndex(b[offset]) && (IntAt(n, b, offset).Decoded? ==> IntAt(n, b, offset).value >= 1)
  {
    var n := if b[offset] / 64 != 0 then 6 else 4;
    assert Pow2(6) == 64 && Pow2(4) == 16;
    hide IntAt, And, Pow2, Integers.DecodeGroups, Integers.Limit;
    Integers.AndMask(b[offset], n);
    Integers.LimitIs(n);
    IntFirst(n, b, offset);
    var first := And(b[offset], Integers.Limit(n));
    GroupsGrow(b[offset..] + [0], Integers.Min((|b| - offset) % 256, Integers.VLQ_MAX_LEN), 1, first);
  }

  /** A name by its index, as it is read and as it is meant. */
  lemma IndexedIs(code: Code, o: Outside, c: Ctx, b: seq<Byte>, offset: nat, n: nat, i: nat, con: nat)
    requires HuffmanCode.Good(code) && |o.statics| == STATIC_ENTRIES && Sound(c.t) && offset < |b|
    requires IsLiteral(b[offset]) && b[offset] % 16 != 0 && HasIndex(b[offset]) && n == (if b[offset] / 64 != 0 then 6 else 4)
    requires IntAt(n, b, offset) == IntMeant(n, b, offset) == Integers.Decoded(i, con)
    ensures NameAt(code, o, c.t, b, offset) == NameFrom(Get(c.t, o, i % 0x1_0000), con)
    ensures NameMeant(code, o.statics, Seen(c), b, offset) == NameOf(Seen(c), o.statics, i, con)
    ensures IndexCut(b, offset) <==> i > 0xFFFF
  {
    hide IntAt, IntMeant, Sound, Seen, StringAt, StringMeant, Get, NameOf, NameFrom, HuffmanCode.Good, HasIndex;
  }

  lemma IndexRead(code: Code, o: Outside, t: Table, b: seq<Byte>, offset: nat)
    requires |o.statics| == STATIC_ENTRIES && offset < |b| && b[offset] % 16 != 0 && NameAt(code, o, t, b, offset).Pair?
    ensures IntAt(if b[offset] / 64 != 0 then 6 else 4, b, offset).Decoded?
  {
    hide IntAt, StringAt, Get;
  }

  lemma IndexedName(code: Code, o: Outside, c: Ctx, b: seq<Byte>, offset: nat)
    requires HuffmanCode.Good(code) && |o.statics| == STATIC_ENTRIES && Sound(c.t) && offset < |b|
    requires IsLiteral(b[offset]) && b[offset] % 16 != 0 && NameAt(code, o, c.t, b, offset).Pair?
    ensures var m := NameMeant(code, o.statics, Seen(c), b, offset);
      if IndexCut(b, offset) then m.NoPair? else m == NameAt(code, o, c.t, b, offset)
  {
    hide IntAt, IntMeant, Sound, Seen, NameAt, NameMeant, Get, NameOf, NameFrom, HuffmanCode.Good, HasIndex, IndexCut;
    IndexPositive(b, offset);
    IndexRead(code, o, c.t, b, offset);
    var n := if b[offset] / 64 != 0 then 6 else 4;
    IntAgrees(n, b, offset);
    var i, con := IntAt(n, b, offset).value, IntAt(n, b, offset).consumed;
    IndexedIs(code, o, c, b, offset, n, i, con);
    NamesAgree(o, c, i, con);
    if i > 0xFFFF { FarIndex(o, c, i, con); }
  }

  lemma FarIndex(o: Outside, c: Ctx, i: nat, con: nat)
    requires |o.statics| == STATIC_ENTRIES && Sound(c.t) && i > 0xFFFF
    ensures NameFrom(Get(c.t, o, i), con).NoPair?
  {
    FewFields(c.t);
  }

  lemma NewName(code: Code, o: Outside, c: Ctx, b: seq<Byte>, offset: nat)
    requires HuffmanCode.Good(code) && |o.statics| == STATIC_ENTRIES && Sound(c.t) && offset < |b|
    requires IsLiteral(b[offset]) && b[offset] % 16 == 0 && NameAt(code, o, c.t, b, offset).Pair?
    ensures StringAt(code, b, offset + 1).Str?
    ensures var p, m := NameAt(code, o, c.t, b, offset), NameMeant(code, o.statics, Seen(c), b, offset);
      && p.consumed == 1 + StringAt(code, b, offset + 1).consumed
      && if PrefixSplit(b[offset]) then m.NoPair? || m.consumed == 1
        else if BadPadding(code, b, offset + 1) then m.NoPair?
        else m == p
  {
    hide IntAt, Sound, Seen, StringAt, StringMeant, Get, BadPadding, HuffmanCode.Good;
    StringAgrees(code, b, offset + 1);
    assert Pow2(6) == 64;
  }

  /** Name and value that the parser accepts are meant so, but for three kinds of octets. */
  lemma PairAgrees(code: Code, o: Outside, c: Ctx, b: seq<Byte>, offset: nat)
    requires HuffmanCode.Good(code) && |o.statics| == STATIC_ENTRIES && Sound(c.t) && offset < |b|
    requires IsLiteral(b[offset]) && PairAt(code, o, c.t, b, offset).Pair?
    ensures var p, m := PairAt(code, o, c.t, b, offset), PairMeant(code, o.statics, Seen(c), b, offset);
      if IndexCut(b, offset) || PrefixSplit(b[offset]) || PaddingIgnored(code, o, c.t, b, offset)
      then m.NoPair? || m.consumed != p.consumed else m == p
  {
    hide Sound, StringAt, StringMeant, NameAt, NameMeant, BadPadding, HuffmanCode.Good, IntAt;
    var p := NameAt(code, o, c.t, b, offset);
    StringAgrees(code, b, offset + p.consumed);
    if b[offset] % 16 != 0 {
      IndexedName(code, o, c, b, offset);
    } else {
      NewName(code, o, c, b, offset);
      StringAgrees(code, b, offset + 1);
    }
  }

  // Literals

  lemma LiteralMeets(statics: seq<Field>, c: Ctx, first: Byte, f: Field, con: nat)
    requires Statics(statics) && Inv(c) && Literal(c, first, f, con).Ok?
    ensures Meets(c, statics, Literal(c, first, f, con), Asks(LiteralRequest(first, f), con)) <==>
      !(first / 64 == 1 && LimitRaised(c, f))
  {
    var g := f.(flags := f.flags.(rep := RepIncIndexed));
    if first / 64 == 1 { InsertSeen(c, g); }
    hide Sound, Live, AddField, Seen, Insert;
  }

  ghost predicate LiteralDeparts(code: Code, o: Outside, c: Ctx, b: seq<Byte>, offset: nat)
    requires HuffmanCode.Good(code) && |o.statics| == STATIC_ENTRIES && Sound(c.t) && offset < |b|
  {
    || IndexCut(b, offset) || PrefixSplit(b[offset]) || PaddingIgnored(code, o, c.t, b, offset)
    || (b[offset] / 64 == 1 && PairAt(code, o, c.t, b, offset).Pair? && LimitRaised(c, PairAt(code, o, c.t, b, offset).field))
  }

  lemma LiteralStep(code: Code, o: Outside, c: Ctx, b: seq<Byte>, offset: nat)
    requires HuffmanCode.Good(code) && Statics(o.statics) && Inv(c) && !c.finished && offset < |b|
    requires IsLiteral(b[offset]) && FieldAt(code, o, c, b, offset).Ok?
    ensures var s := FieldAt(code, o, c, b, offset);
      && Inv(s.ctx)
      && (Meets(c, o.statics, s, AskedAt(code, o.statics, Seen(c), b, offset)) <==> !LiteralDeparts(code, o, c, b, offset))
  {
    hide Sound, Live, Literal, IntAt, PairAt, PairMeant, IndexCut, PrefixSplit, PaddingIgnored, LimitRaised, HuffmanCode.Good, Seen, Answered;
    var p := PairAt(code, o, c.t, b, offset);
    assert c.(finished := false) == c;
    LiteralInv(c, b[offset], p.field, p.consumed);
    LiteralConsumes(c, b[offset], p.field, p.consumed);
    PairAgrees(code, o, c, b, offset);
    LiteralMeets(o.statics, c, b[offset], p.field, p.consumed);
  }

  lemma LiteralConsumes(c: Ctx, first: Byte, f: Field, con: nat)
    requires Sound(c.t)
    ensures var s := Literal(c, first, f, con); !s.Eof? && (s.Ok? ==> s.consumed == con)
  {
    hide Sound, AddField;
  }

  // Limits

  /** Bits are set behind the flag that empties the reference set. */
  predicate FlagIgnored(first: Byte) {
    0x31 <= first <= 0x3f
  }

  /** A limit that needs more than sixteen bits. */
  predicate LimitCut(b: seq<Byte>, offset: nat)
    requires offset < |b|
  {
    b[offset] / 32 == 1 && b[offset] != 0x30 && IntAt(4, b, offset).Decoded? && IntAt(4, b, offset).value > 0xFFFF
  }

  lemma LimitMeets(statics: seq<Field>, c: Ctx, limit: nat, con: nat)
    requires Statics(statics) && Inv(c) && limit <= MAX_SIZE && (limit == 0 ==> c.refs == {})
    ensures Meets(c, statics, Resize(c, limit, con), Asks(Limited(limit), con))
  {
    hide Sound, Live, SetMax, Seen, Within;
    LimitSeen(c, limit);
  }

  lemma EmptiedMeets(statics: seq<Field>, c: Ctx)
    requires Statics(statics) && Inv(c)
    ensures Meets(c, statics, Ok(c.(refs := {}, pending := {}), CLEAN, 1), Asks(Emptied, 1))
  {
    FewFields(c.t);
    hide Sound, Live;
    assert Seen(c.(refs := {}, pending := {})) == Seen(c).(entries := Unmarked(Seen(c).entries));
  }

  lemma UpdateStep(code: Code, statics: seq<Field>, c: Ctx, b: seq<Byte>, offset: nat)
    requires HuffmanCode.Good(code) && Statics(statics) && Inv(c) && offset < |b| && b[offset] / 32 == 1 && UpdateAt(c, b, offset).Ok?
    ensures var s := UpdateAt(c, b, offset);
      Inv(s.ctx) && Meets(c, statics, s, AskedAt(code, statics, Seen(c), b, offset)) <==>
        !(LimitZero(c, b, offset) || FlagIgnored(b[offset]) || LimitCut(b, offset))
  {
    hide Sound, Live, Resize, IntAt, IntMeant, HuffmanCode.Good, Seen, Answered;
    if b[offset] == 0x30 {
      EmptiedMeets(statics, c);
    } else {
      IntAgrees(4, b, offset);
      var limit, con := IntAt(4, b, offset).value, IntAt(4, b, offset).consumed;
      ResizeInv(c, limit, con);
      ResizeFits(c, limit, con);
      if limit <= 0xFFFF && !LimitZero(c, b, offset) { LimitMeets(statics, c, limit, con); }
    }
  }

  lemma ResizeFits(c: Ctx, limit: nat, con: nat)
    requires Sound(c.t) && Resize(c, limit, con).Ok?
    ensures limit % 0x1_0000 <= MAX_SIZE
  {
  }

  // Indices

  /** The index of an entry in the table, or of a static one, as the specification counts them. */
  lemma IndexKinds(o: Outside, c: Ctx, i: nat, con: nat)
    requires Statics(o.statics) && Inv(c) && Index(o, c, i, con).Ok? && 1 <= i
    requires |c.t.fields| < SLOTS && !(i > SLOTS && Switch(c.t, i) in c.refs)
    ensures var n, s := |c.t.fields|, Index(o, c, i, con);
      && i <= n + STATIC_ENTRIES
      && (i <= n ==>
          if SlotOf(c.t, n - i) in c.refs then s == Ok(Unreference(c, i), CLEAN, con)
          else s == Ok(Reference(c, i), c.t.fields[n - i], con))
      && (i > n ==> var f := o.statics[i - n - 1];
          !IsEmpty(f) && Sound(AddField(c, f).ctx.t) && s == Ok(Reference(AddField(c, f).ctx, 1), f, con))
  {
    FewFields(c.t);
    AliasedIndex(c, i);
    hide Sound, Live, AddField, Reference, Unreference;
    if i <= |c.t.fields| { SwitchIndex(c.t, i); }
    if |c.t.fields| < i <= |c.t.fields| + STATIC_ENTRIES { AddFieldSound(c, o.statics[i - |c.t.fields| - 1]); }
  }

  lemma EntryMeets(statics: seq<Field>, c: Ctx, i: nat, con: nat)
    requires |statics| == STATIC_ENTRIES && Inv(c) && 1 <= i <= |c.t.fields| < SLOTS
    ensures var k := |c.t.fields| - i;
      if SlotOf(c.t, k) in c.refs then Meets(c, statics, Ok(Unreference(c, i), CLEAN, con), Asks(Indexed(i), con))
      else Meets(c, statics, Ok(Reference(c, i), c.t.fields[k], con), Asks(Indexed(i), con))
  {
    MarkSeen(c, i);
    SeenFields(c);
    var k := |c.t.fields| - i;
    assert Seen(c).entries[k] == EntryAt(c, k);
    assert Sound(Unreference(c, i).t) && Sound(Reference(c, i).t);
    assert Seen(Unreference(c, i)).max == Seen(c).max && Seen(Reference(c, i)).max == Seen(c).max;
    hide Sound, Live, Switch, Seen, Reference, Unreference;
  }

  lemma StaticMeets(statics: seq<Field>, c: Ctx, i: nat, con: nat)
    requires Statics(statics) && Inv(c) && |c.t.fields| < i <= |c.t.fields| + STATIC_ENTRIES
    requires var f := statics[i - |c.t.fields| - 1]; Size(f) <= c.t.max && Sound(AddField(c, f).ctx.t)
    ensures var f := statics[i - |c.t.fields| - 1];
      Meets(c, statics, Ok(Reference(AddField(c, f).ctx, 1), f, con), Asks(Indexed(i), con))
  {
    var f := statics[i - |c.t.fields| - 1];
    SeenFields(c);
    FitsSeen(c, f);
    hide Sound, Live, Seen, AddField, Reference, Insert;
  }

  /** No reference stands at the place of an index behind the table. */
  lemma StaticFree(c: Ctx, i: nat)
    requires Inv(c) && |c.t.fields| < SLOTS && !(i > SLOTS && Switch(c.t, i) in c.refs)
    ensures i > |c.t.fields| ==> Switch(c.t, i) !in c.refs
  {
    if |c.t.fields| < i <= SLOTS { DeadIndex(c.t, i); }
  }

  lemma IndexMeets(o: Outside, c: Ctx, i: nat, con: nat)
    requires Statics(o.statics) && Inv(c) && Index(o, c, i, con).Ok? && 1 <= i
    requires |c.t.fields| < SLOTS && !(i > SLOTS && Switch(c.t, i) in c.refs) && !TooLarge(o.statics, c, i)
    ensures Meets(c, o.statics, Index(o, c, i, con), Asks(Indexed(i), con))
  {
    IndexKinds(o, c, i, con);
    StaticFree(c, i);
    hide Index, Get, Sound, Live, AddField, Switch, Reference, Unreference, Meets;
    if i <= |c.t.fields| {
      EntryMeets(o.statics, c, i, con);
    } else {
      StaticMeets(o.statics, c, i, con);
    }
  }

  /** An index above 128 that passes for a reference is silent where a static entry is to be emitted. */
  lemma AliasDiffers(o: Outside, c: Ctx, i: nat, con: nat)
    requires Statics(o.statics) && Inv(c) && Index(o, c, i, con).Ok?
    requires |c.t.fields| < SLOTS && i > SLOTS && Switch(c.t, i) in c.refs
    ensures !Meets(c, o.statics, Index(o, c, i, con), Asks(Indexed(i), con))
  {
    FewFields(c.t);
    SeenFields(c);
    hide Sound, Live, Seen, Unreference, Insert;
  }

  /** The index asked for is above 128 and its alias is referenced. */
  ghost predicate Aliased(c: Ctx, b: seq<Byte>, offset: nat)
    requires Sound(c.t) && offset < |b|
  {
    FewFields(c.t);
    && b[offset] >= 128 && IntAt(7, b, offset).Decoded?
    && IntAt(7, b, offset).value > SLOTS && Switch(c.t, IntAt(7, b, offset).value) in c.refs
  }

  lemma IndexConsumes(o: Outside, c: Ctx, i: nat, con: nat)
    requires Statics(o.statics) && Inv(c) && Index(o, c, i, con).Ok?
    ensures Index(o, c, i, con).consumed == con && i <= |c.t.fields| + STATIC_ENTRIES
  {
    FewFields(c.t);
    hide Sound, Live, AddField, Switch;
  }

  lemma IndexStep(code: Code, o: Outside, c: Ctx, b: seq<Byte>, offset: nat)
    requires HuffmanCode.Good(code) && Statics(o.statics) && Inv(c) && offset < |b| && b[offset] >= 128 && IndexedAt(o, c, b, offset).Ok?
    ensures var s := IndexedAt(o, c, b, offset);
      Inv(s.ctx) && Meets(c, o.statics, s, AskedAt(code, o.statics, Seen(c), b, offset)) <==>
        !(StaticTooLarge(o.statics, c, b, offset) || IndexZero(b, offset) || Aliased(c, b, offset))
  {
    FewFields(c.t);
    SeenFields(c);
    IndexedInv(o, c, b, offset);
    ZeroIndex(b, offset);
    IntAgrees(7, b, offset);
    var i, con := IntAt(7, b, offset).value, IntAt(7, b, offset).consumed;
    hide Sound, Live, Index, IntAt, IntMeant, HuffmanCode.Good, Seen, Answered, Switch, TooLarge, IndexZero;
    IndexConsumes(o, c, i, con);
    if i > SLOTS && Switch(c.t, i) in c.refs {
      AliasDiffers(o, c, i, con);
    } else if i > 0 && !TooLarge(o.statics, c, i) {
      IndexMeets(o, c, i, con);
    }
  }

  // All steps

  /** Where the parser does not do what is asked for. */
  ghost predicate Departs(code: Code, o: Outside, c: Ctx, b: seq<Byte>, offset: nat)
    requires HuffmanCode.Good(code) && Statics(o.statics) && Sound(c.t) && offset < |b|
  {
    || Upsets(o.statics, c, b, offset) || Aliased(c, b, offset) || FlagIgnored(b[offset]) || LimitCut(b, offset)
    || (IsLiteral(b[offset]) && LiteralDeparts(code, o, c, b, offset))
  }

  lemma KindsApart(statics: seq<Field>, c: Ctx, b: seq<Byte>, offset: nat)
    requires Statics(statics) && Sound(c.t) && offset < |b|
    ensures b[offset] / 32 != 1 ==> !LimitZero(c, b, offset) && !LimitCut(b, offset)
    ensures b[offset] < 128 ==> !StaticTooLarge(statics, c, b, offset) && !IndexZero(b, offset) && !Aliased(c, b, offset)
  {
    hide Sound, Statics, IntAt, TooLarge, Switch;
  }

  lemma UnfinishedStep(code: Code, o: Outside, c: Ctx, b: seq<Byte>, offset: nat)
    requires HuffmanCode.Good(code) && Statics(o.statics) && Inv(c) && offset < |b| && FieldAt(code, o, c, b, offset).Ok?
    requires !c.finished
    ensures var s := FieldAt(code, o, c, b, offset);
      Inv(s.ctx) && Meets(c, o.statics, s, AskedAt(code, o.statics, Seen(c), b, offset)) <==> !Departs(code, o, c, b, offset)
  {
    assert Sound(c.t) && c.(finished := false) == c;
    hide Inv, Sound, Seen, Meets, AskedAt, UpdateAt, IndexedAt, PairAt, Literal, IntAt, TooLarge, LiteralDeparts, HuffmanCode.Good;
    hide LimitZero, StaticTooLarge, IndexZero, Aliased, LimitCut;
    KindsApart(o.statics, c, b, offset);
    if b[offset] / 32 == 1 {
      UpdateStep(code, o.statics, c, b, offset);
    } else if b[offset] >= 128 {
      IndexStep(code, o, c, b, offset);
    } else {
      LiteralStep(code, o, c, b, offset);
    }
  }

  /** Whether the block before was finished does not matter. */
  lemma Unfinished(code: Code, o: Outside, c: Ctx, s: Step, a: Asked, b: seq<Byte>, offset: nat)
    requires HuffmanCode.Good(code) && Statics(o.statics) && Inv(c) && offset < |b|
    ensures var d := c.(finished := false);
      && Inv(d) && Seen(d) == Seen(c) && Meets(d, o.statics, s, a) == Meets(c, o.statics, s, a)
      && Departs(code, o, d, b, offset) == Departs(code, o, c, b, offset)
  {
    FewFields(c.t);
    var d := c.(finished := false);
    hide Sound, Live, IntAt, NameAt, PairAt, Switch, Answered, BadPadding, HuffmanCode.Good;
    assert Seen(d) == Seen(c);
    hide Seen;
  }

  /** A successful step of the parser is the answer of the specification to what its octets ask for, on the
      list of entries that the slots and bitmaps stand for, and leaves no dangling reference, if and only if
      it is none of the named departures. */
  lemma StepRefines(code: Code, o: Outside, c: Ctx, b: seq<Byte>, offset: nat)
    requires HuffmanCode.Good(code) && Statics(o.statics) && Inv(c) && offset < |b| && FieldAt(code, o, c, b, offset).Ok?
    ensures var s := FieldAt(code, o, c, b, offset);
      Inv(s.ctx) && Meets(c, o.statics, s, AskedAt(code, o.statics, Seen(c), b, offset)) <==> !Departs(code, o, c, b, offset)
  {
    hide Live, Sound, Seen, Meets, AskedAt, UpdateAt, IndexedAt, PairAt, Literal, Departs, HuffmanCode.Good;
    Unfinished(code, o, c, FieldAt(code, o, c, b, offset), AskedAt(code, o.statics, Seen(c), b, offset), b, offset);
    UnfinishedStep(code, o, c.(finished := false), b, offset);
  }

  // --- The end of a block ---------------------------------------------------------------------

  /** The fields of the entries that are still to be emitted, from the k-th on. */
  function PendingIn(entries: seq<Entry>, k: nat): seq<Field>
    requires k <= |entries|
    decreases |entries| - k
  {
    if k == |entries| then []
    else (if entries[k].pending then [entries[k].f] else []) + PendingIn(entries, k + 1)
  }

  /** The same fields by their slots, in a range of them. */
  ghost function InRange(t: Table, m: set<nat>, lo: nat, hi: nat): seq<Field>
    requires t.head < SLOTS && m <= Live(t) && hi <= SLOTS
    decreases hi - lo
  {
    if lo >= hi then []
    else
      LiveIs(t, lo);
      (if lo in m then [Denotes(t, lo)] else []) + InRange(t, m, lo + 1, hi)
  }

  lemma {:induction false} RangeSplits(t: Table, m: set<nat>, lo: nat, mid: nat, hi: nat)
    requires t.head < SLOTS && m <= Live(t) && lo <= mid <= hi <= SLOTS
    ensures InRange(t, m, lo, hi) == InRange(t, m, lo, mid) + InRange(t, m, mid, hi)
    decreases mid - lo
  {
    hide Live, Denotes;
    if lo < mid {
      RangeSplits(t, m, lo + 1, mid, hi);
      var x := InRange(t, m, lo, lo + 1);
      assert InRange(t, m, lo + 1, lo + 1) == [];
      Sequences.Associate(x, InRange(t, m, lo + 1, mid), InRange(t, m, mid, hi));
    }
  }

  lemma {:induction false} AllInRange(t: Table, m: set<nat>, at: nat)
    requires t.head < SLOTS && m <= Live(t) && at <= SLOTS
    ensures FieldsOf(t, m, at) == InRange(t, m, at, SLOTS)
    decreases SLOTS - at
  {
    hide Live, Denotes;
    if at < SLOTS { AllInRange(t, m, at + 1); }
  }

  /** The pending fields from the k-th on, by their slots: in one range, or in two if they wrap. */
  ghost function ByPlace(t: Table, m: set<nat>, k: nat): seq<Field>
    requires t.head < SLOTS && m <= Live(t) && k <= |t.fields| < SLOTS
  {
    var h, n := t.head, |t.fields|;
    if h + k >= SLOTS then InRange(t, m, h + k - SLOTS, h + n - SLOTS)
    else if h + n >= SLOTS then InRange(t, m, h + k, SLOTS) + InRange(t, m, 0, h + n - SLOTS)
    else InRange(t, m, h + k, h + n)
  }

  lemma ByPlaceStep(t: Table, m: set<nat>, k: nat)
    requires t.head < SLOTS && m <= Live(t) && k < |t.fields| < SLOTS
    ensures var s := SlotOf(t, k);
      PlaceOf(t, s) == k && ByPlace(t, m, k) == (if s in m then [t.fields[k]] else []) + ByPlace(t, m, k + 1)
  {
    SlotPlace(t, k);
    hide Live;
    var h, n := t.head, |t.fields|;
    if h + k < SLOTS <= h + n {
      var first := if h + k in m then [t.fields[k]] else [];
      Sequences.Associate(first, InRange(t, m, h + k + 1, SLOTS), InRange(t, m, 0, h + n - SLOTS));
    }
  }

  /** By place, the slots come in the same order but for where they begin. */
  lemma {:induction false} PlacesInRange(c: Ctx, k: nat)
    requires Inv(c) && k <= |c.t.fields| < SLOTS && |Seen(c).entries| == |c.t.fields|
    ensures c.t.head < SLOTS && c.pending <= Live(c.t)
    ensures PendingIn(Seen(c).entries, k) == ByPlace(c.t, c.pending, k)
    decreases |c.t.fields| - k
  {
    assert c.t.head < SLOTS && c.pending <= Live(c.t);
    hide Sound, Live, ByPlace, InRange;
    if k < |c.t.fields| {
      PlacesInRange(c, k + 1);
      ByPlaceStep(c.t, c.pending, k);
      SeenAt(c, k);
    } else {
      NoPlace(c.t, c.pending, k);
    }
  }

  lemma NoPlace(t: Table, m: set<nat>, k: nat)
    requires t.head < SLOTS && m <= Live(t) && k == |t.fields| < SLOTS
    ensures ByPlace(t, m, k) == []
  {
    hide Live;
  }

  /** Behind the last live slot nothing is pending. */
  lemma {:induction false} NothingIn(t: Table, m: set<nat>, lo: nat, hi: nat)
    requires t.head < SLOTS && m <= Live(t) && hi <= SLOTS && |t.fields| < SLOTS
    requires forall s :: lo <= s < hi ==> PlaceOf(t, s) >= |t.fields|
    ensures InRange(t, m, lo, hi) == []
    decreases hi - lo
  {
    if lo < hi {
      LiveIs(t, lo);
      hide Live;
      NothingIn(t, m, lo + 1, hi);
    }
  }

  lemma Rotated<T>(x: seq<T>, none: seq<T>, y: seq<T>)
    requires none == []
    ensures multiset(x + (none + y)) == multiset(y + x)
  {
    assert none + y == y;
  }

  lemma Padless<T>(none: seq<T>, s: seq<T>, nil: seq<T>)
    requires none == [] && nil == []
    ensures none + (s + nil) == s
  {
  }

  /** All slots in their order hold what the live ones hold, beginning with the oldest. */
  lemma Rotation(t: Table, m: set<nat>, p: seq<Field>)
    requires t.head < SLOTS && m <= Live(t) && |t.fields| < SLOTS
    requires p == ByPlace(t, m, 0)
    ensures multiset(InRange(t, m, 0, SLOTS)) == multiset(p)
  {
    hide Live, InRange;
    var h, n := t.head, |t.fields|;
    if h + n >= SLOTS {
      var e := h + n - SLOTS;
      RangeSplits(t, m, 0, e, SLOTS);
      RangeSplits(t, m, e, h, SLOTS);
      NothingIn(t, m, e, h);
      Rotated(InRange(t, m, 0, e), InRange(t, m, e, h), InRange(t, m, h, SLOTS));
    } else {
      RangeSplits(t, m, 0, h, SLOTS);
      RangeSplits(t, m, h, h + n, SLOTS);
      NothingIn(t, m, 0, h);
      NothingIn(t, m, h + n, SLOTS);
      Padless(InRange(t, m, 0, h), InRange(t, m, h, h + n), InRange(t, m, h + n, SLOTS));
    }
  }

  /** In slot order and in the order of the list, the pending fields are the same ones. */
  lemma SamePending(c: Ctx, out: seq<Field>, p: seq<Field>)
    requires Inv(c) && out == FieldsOf(c.t, c.pending, 0) && p == PendingIn(Seen(c).entries, 0)
    ensures multiset(out) == multiset(p)
  {
    FewFields(c.t);
    assert |Seen(c).entries| == |c.t.fields|;
    hide Sound, Live, Seen, FieldsOf, InRange, PendingIn, ByPlace;
    PlacesInRange(c, 0);
    AllInRange(c.t, c.pending, 0);
    Rotation(c.t, c.pending, p);
  }

  /** At the end of a block, exactly the fields of the pending entries of the list are emitted, each as
      often as it occurs there. */
  lemma EndRefines(code: Code, w: World, c: Ctx, b: seq<Byte>)
    requires Statics(w.statics) && Inv(c) && !c.finished && c.at == 0
    ensures var r := ParseAll(code, w, c, b, |b|);
      r.ok && multiset(r.out) == multiset(PendingIn(Seen(c).entries, 0))
  {
    assert Sound(c.t) && c.t.head < SLOTS && c.pending <= Live(c.t);
    hide Sound, Live, ParseAll, Seen, FieldsOf, PendingIn;
    FinalEmits(code, w, c, b);
    SamePending(c, FieldsOf(c.t, c.pending, 0), PendingIn(Seen(c).entries, 0));
  }

  // --- Whole blocks ---------------------------------------------------------------------------

  /** The context behind the octets of a block and what they emit, if all requests are in order. */
  datatype Told = Told(c: Context, out: seq<Field>) | Broken

  ghost function TellAll(code: Code, statics: seq<Field>, c: Context, b: seq<Byte>, offset: nat): Told
    requires HuffmanCode.Good(code) && Statics(statics) && offset <= |b|
    decreases |b| - offset
  {
    if offset == |b| then Told(c, [])
    else
      match AskedAt(code, statics, c, b, offset)
      case Refused => Broken
      case Asks(r, con) =>
        if con == 0 || |b| < offset + con then Broken
        else
          var a := Answered(c, statics, r);
          match TellAll(code, statics, a.context, b, offset + con)
          case Broken => Broken
          case Told(d, out) => Told(d, (if a.emitted.name == [] && a.emitted.value == [] then [] else [a.emitted]) + out)
  }

  /** All steps over the octets of a block succeed, and none departs from what is asked for. */
  ghost predicate Plain(code: Code, w: World, c: Ctx, b: seq<Byte>, offset: nat)
    requires HuffmanCode.Good(code) && Statics(w.statics) && Sound(c.t) && offset <= |b|
    decreases |b| - offset
  {
    FieldAtProgress(code, Around(w, c, b, offset), c, b, offset);
    offset < |b| ==>
      var s := StepAt(code, w, c, b, offset);
      s.Ok? && !Departs(code, Around(w, c, b, offset), c, b, offset) && Plain(code, w, s.ctx, b, offset + s.consumed)
  }

  lemma PlainStep(code: Code, w: World, c: Ctx, b: seq<Byte>, offset: nat) returns (s: Step)
    requires HuffmanCode.Good(code) && Statics(w.statics) && Inv(c) && offset < |b| && Plain(code, w, c, b, offset)
    ensures s == StepAt(code, w, c, b, offset) && s.Ok? && s.consumed >= 1 && offset + s.consumed <= |b| && Inv(s.ctx)
    ensures !Upsets(w.statics, c, b, offset) && Plain(code, w, s.ctx, b, offset + s.consumed)
    ensures Meets(c, w.statics, s, AskedAt(code, w.statics, Seen(c), b, offset))
  {
    hide FieldAt, Live, Sound, Seen, Meets, AskedAt, Upsets, Aliased, LimitCut, LiteralDeparts, HuffmanCode.Good, Statics, Around;
    s := StepAt(code, w, c, b, offset);
    FieldAtProgress(code, Around(w, c, b, offset), c, b, offset);
    StepRefines(code, Around(w, c, b, offset), c, b, offset);
  }

  lemma {:induction false} PlainIsCalm(code: Code, w: World, c: Ctx, b: seq<Byte>, offset: nat)
    requires HuffmanCode.Good(code) && Statics(w.statics) && Inv(c) && offset <= |b| && Plain(code, w, c, b, offset)
    ensures Calm(code, w, c, b, offset)
    decreases |b| - offset
  {
    hide StepAt, Inv, Sound, Plain, Meets, AskedAt, Upsets, HuffmanCode.Good, Statics, Around;
    if offset < |b| {
      var s := PlainStep(code, w, c, b, offset);
      PlainIsCalm(code, w, s.ctx, b, offset + s.consumed);
    }
  }

  lemma TellStep(code: Code, statics: seq<Field>, c: Ctx, s: Step, b: seq<Byte>, offset: nat)
    requires HuffmanCode.Good(code) && Statics(statics) && Sound(c.t) && offset < |b|
    requires Meets(c, statics, s, AskedAt(code, statics, Seen(c), b, offset)) && s.consumed >= 1 && offset + s.consumed <= |b|
    ensures var t := TellAll(code, statics, Seen(s.ctx), b, offset + s.consumed);
      t.Told? ==> TellAll(code, statics, Seen(c), b, offset) == Told(t.c, Emit(s.field) + t.out)
  {
    hide Sound, Seen, AskedAt, Answered, HuffmanCode.Good;
  }

  lemma DataStep(code: Code, w: World, c: Ctx, b: seq<Byte>, offset: nat)
    requires Statics(w.statics) && Sound(c.t) && offset < |b| && StepAt(code, w, c, b, offset).Ok?
    ensures var s := StepAt(code, w, c, b, offset);
      && Sound(s.ctx.t) && offset + s.consumed <= |b|
      && var rest := Data(code, w, s.ctx, b, offset + s.consumed);
        Data(code, w, c, b, offset) == Run(rest.ok, rest.ctx, Emit(s.field) + rest.out, s.consumed + rest.consumed)
  {
    hide FieldAt, Sound, Statics, Around, Emit;
    FieldAtProgress(code, Around(w, c, b, offset), c, b, offset);
  }

  /** Such a block from an offset on, what its octets emit, and what the specification says of them. */
  ghost predicate PlainIs(code: Code, w: World, c: Ctx, b: seq<Byte>, offset: nat, r: Run, t: Told) {
    && HuffmanCode.Good(code) && Statics(w.statics) && Inv(c) && offset <= |b| && Plain(code, w, c, b, offset)
    && r == Data(code, w, c, b, offset) && t == TellAll(code, w.statics, Seen(c), b, offset)
  }

  lemma NextPlain(code: Code, w: World, c: Ctx, b: seq<Byte>, offset: nat, r: Run, t: Told)
    returns (next: nat, d: Ctx, q: Run, u: Told, f: Field)
    requires PlainIs(code, w, c, b, offset, r, t) && offset < |b|
    ensures offset < next <= |b| && PlainIs(code, w, d, b, next, q, u)
    ensures r.ctx == q.ctx && r.out == Emit(f) + q.out && (u.Told? ==> t == Told(u.c, Emit(f) + u.out))
  {
    hide StepAt, Live, Sound, Plain, Upsets, HuffmanCode.Good, Statics, Around, Seen, AskedAt, Meets, Emit, Data, TellAll;
    var s := PlainStep(code, w, c, b, offset);
    DataStep(code, w, c, b, offset);
    TellStep(code, w.statics, c, s, b, offset);
    next, d, f := offset + s.consumed, s.ctx, s.field;
    q, u := Data(code, w, d, b, next), TellAll(code, w.statics, Seen(d), b, next);
  }

  lemma PlainEnd(code: Code, w: World, c: Ctx, b: seq<Byte>, offset: nat, r: Run, t: Told)
    requires PlainIs(code, w, c, b, offset, r, t) && offset >= |b|
    ensures Inv(c) && r == Run(true, c, [], 0) && t == Told(Seen(c), [])
  {
    hide Inv, Sound, HuffmanCode.Good, Statics, Seen;
  }

  /** What the octets of such a block emit, and the context behind them, are what the specification says of
      the list of entries. */
  lemma {:induction false} DataRefines(code: Code, w: World, c: Ctx, b: seq<Byte>, offset: nat, r: Run, t: Told)
    requires PlainIs(code, w, c, b, offset, r, t)
    ensures Inv(r.ctx) && t == Told(Seen(r.ctx), r.out)
    decreases |b| - offset
  {
    if offset < |b| {
      hide PlainIs, Inv, Sound, Seen, Emit;
      var next, d, q, u, f := NextPlain(code, w, c, b, offset, r, t);
      DataRefines(code, w, d, b, next, q, u);
    } else {
      hide PlainIs, Inv, Sound, Seen;
      PlainEnd(code, w, c, b, offset, r, t);
    }
  }

  /** Between blocks every referenced entry is to be emitted. */
  function Renewed(entries: seq<Entry>): (s: seq<Entry>)
    ensures |s| == |entries|
  {
    seq(|entries|, k requires 0 <= k < |entries| => Entry(entries[k].f, entries[k].referenced, entries[k].referenced))
  }

  lemma RenewedSeen(c: Ctx)
    requires Sound(c.t)
    ensures Seen(c.(finished := true, pending := c.refs, at := 0)) == Seen(c).(entries := Renewed(Seen(c).entries))
  {
    FewFields(c.t);
    hide Sound;
  }

  /** Such a block emits what the specification says of its octets and then, each as often as it occurs, the
      fields of the entries that are still pending; behind it the list is ready for the next block. */
  lemma BlockRefines(code: Code, w: World, c: Ctx, b: seq<Byte>, offset: nat)
    requires HuffmanCode.Good(code) && Statics(w.statics) && AtStart(c) && offset <= |b| && Plain(code, w, c, b, offset)
    requires offset < |b| || !c.finished
    ensures Sound(c.t)
    ensures var r, t := ParseAll(code, w, c, b, offset), TellAll(code, w.statics, Seen(c), b, offset);
      && t.Told? && r.ok && r.consumed == |b| - offset && AtStart(r.ctx)
      && t.out <= r.out && multiset(r.out[|t.out|..]) == multiset(PendingIn(t.c.entries, 0))
      && Seen(r.ctx) == t.c.(entries := Renewed(t.c.entries))
  {
    assert Sound(c.t);
    PlainIsCalm(code, w, c, b, offset);
    DataRefines(code, w, c, b, offset, Data(code, w, c, b, offset), TellAll(code, w.statics, Seen(c), b, offset));
    BlockEmits(code, w, c, b, offset);
    ParseIsDataThenFinal(code, w, c, b, offset);
    var d := Data(code, w, c, b, offset);
    DataKeeps(code, w, c, b, offset, 0, d, Stays(code, w, c, b, offset));
    FinalEmits(code, w, d.ctx, b);
    RenewedSeen(d.ctx);
    hide Inv, Sound, Plain, Calm, Data, Stays, ParseAll, TellAll, HuffmanCode.Good, Statics, Seen, FieldsOf, PendingIn, Renewed;
    SamePending(d.ctx, FieldsOf(d.ctx.t, d.ctx.pending, 0), PendingIn(Seen(d.ctx).entries, 0));
  }

  // --- What is left in the free slot ----------------------------------------------------------

  /** Only index 0, and indices of names that are cut to it, look at the free slot. */
  lemma LookupIgnores(t: Table, o: Outside, p: Outside, i: nat)
    requires |o.statics| == STATIC_ENTRIES && o.statics == p.statics && i > 0
    ensures Get(t, o, i) == Get(t, p, i)
  {
  }

  lemma NameIgnores(code: Code, o: Outside, p: Outside, t: Table, b: seq<Byte>, offset: nat)
    requires |o.statics| == STATIC_ENTRIES && o.statics == p.statics && offset < |b|
    requires IsLiteral(b[offset]) && !IndexCut(b, offset)
    ensures NameAt(code, o, t, b, offset) == NameAt(code, p, t, b, offset)
  {
    hide IntAt, StringAt, Get, NameFrom;
    if b[offset] % 16 != 0 {
      IndexPositive(b, offset);
      var d := IntAt(if b[offset] / 64 != 0 then 6 else 4, b, offset);
      if d.Decoded? { LookupIgnores(t, o, p, d.value); }
    }
  }

  lemma IndexIgnores(o: Outside, p: Outside, c: Ctx, b: seq<Byte>, offset: nat)
    requires Statics(o.statics) && o.statics == p.statics && Sound(c.t) && offset < |b| && b[offset] >= 128 && !IndexZero(b, offset)
    ensures IndexedAt(o, c, b, offset) == IndexedAt(p, c, b, offset)
  {
    ZeroIndex(b, offset);
    hide IntAt, Get, Sound, AddField, Reference, Unreference, Switch;
    var d := IntAt(7, b, offset);
    if d.Decoded? { LookupIgnores(c.t, o, p, d.value); }
  }

  lemma StepIgnores(code: Code, o: Outside, p: Outside, c: Ctx, b: seq<Byte>, offset: nat)
    requires Statics(o.statics) && o.statics == p.statics && Sound(c.t) && offset < |b|
    requires !IndexZero(b, offset) && (IsLiteral(b[offset]) ==> !IndexCut(b, offset))
    ensures FieldAt(code, o, c, b, offset) == FieldAt(code, p, c, b, offset)
  {
    var ctx := c.(finished := false);
    hide Statics, Sound, IntAt, StringAt, NameAt, IndexedAt, UpdateAt, Literal, IndexCut;
    if b[offset] >= 128 {
      IndexIgnores(o, p, ctx, b, offset);
    } else if b[offset] / 32 != 1 {
      assert |o.statics| == STATIC_ENTRIES by { StaticsCount(o.statics); }
      NameIgnores(code, o, p, c.t, b, offset);
    }
  }

  lemma StaticsCount(statics: seq<Field>)
    requires Statics(statics)
    ensures |statics| == STATIC_ENTRIES
  {
  }

  ghost predicate Alike(code: Code, w: World, v: World, c: Ctx, b: seq<Byte>, offset: nat) {
    && Statics(w.statics) && v.statics == w.statics && Sound(c.t) && offset <= |b|
    && ParseAll(code, w, c, b, offset) == ParseAll(code, v, c, b, offset)
  }

  lemma EndIgnores(code: Code, w: World, v: World, c: Ctx, b: seq<Byte>)
    requires Statics(w.statics) && v.statics == w.statics && Inv(c)
    ensures Alike(code, w, v, c, b, |b|)
  {
    if !c.finished {
      FinalEmits(code, w, c, b);
      FinalEmits(code, v, c, b);
      hide ParseAll;
    }
  }

  lemma AlikeStep(code: Code, w: World, v: World, c: Ctx, b: seq<Byte>, offset: nat, s: Step)
    requires Statics(w.statics) && v.statics == w.statics && Sound(c.t) && offset < |b| && s.Ok?
    requires s == StepAt(code, w, c, b, offset) == StepAt(code, v, c, b, offset)
    requires Alike(code, w, v, s.ctx, b, offset + s.consumed)
    ensures Alike(code, w, v, c, b, offset)
  {
    hide StepAt, Sound, Statics, ParseAll;
    ParseStep(code, w, c, b, offset);
    ParseStep(code, v, c, b, offset);
  }

  /** A block without departures is parsed in the same way whatever is left in the free slot. */
  lemma {:induction false} LeftoversIgnored(code: Code, w: World, v: World, c: Ctx, b: seq<Byte>, offset: nat)
    requires HuffmanCode.Good(code) && Statics(w.statics) && v.statics == w.statics
    requires Inv(c) && offset <= |b| && Plain(code, w, c, b, offset)
    ensures Alike(code, w, v, c, b, offset)
    decreases |b| - offset
  {
    hide StepAt, Live, Sound, Plain, Upsets, HuffmanCode.Good, Statics, Seen, AskedAt, Meets, Alike;
    if offset < |b| {
      var s := PlainStep(code, w, c, b, offset);
      NextIgnores(code, w, v, c, b, offset);
      LeftoversIgnored(code, w, v, s.ctx, b, offset + s.consumed);
      AlikeStep(code, w, v, c, b, offset, s);
    } else {
      EndIgnores(code, w, v, c, b);
    }
  }

  lemma NextIgnores(code: Code, w: World, v: World, c: Ctx, b: seq<Byte>, offset: nat)
    requires HuffmanCode.Good(code) && Statics(w.statics) && v.statics == w.statics
    requires Sound(c.t) && offset < |b| && Plain(code, w, c, b, offset)
    ensures StepAt(code, w, c, b, offset) == StepAt(code, v, c, b, offset)
  {
    hide FieldAt, Sound, HuffmanCode.Good, Statics, Around, LimitZero, StaticTooLarge, Aliased, LimitCut, IndexCut, PaddingIgnored, PairAt;
    StepIgnores(code, Around(w, c, b, offset), Around(v, c, b, offset), c, b, offset);
  }

  lemma ParseStep(code: Code, w: World, c: Ctx, b: seq<Byte>, offset: nat)
    requires Statics(w.statics) && Sound(c.t) && offset < |b| && StepAt(code, w, c, b, offset).Ok?
    ensures var s := StepAt(code, w, c, b, offset);
      && Sound(s.ctx.t) && offset + s.consumed <= |b|
      && var rest := ParseAll(code, w, s.ctx, b, offset + s.consumed);
        ParseAll(code, w, c, b, offset) == Run(rest.ok, rest.ctx, Emit(s.field) + rest.out, s.consumed + rest.consumed)
  {
    hide FieldAt, Sound, Statics, Around, Emit;
    FieldAtProgress(code, Around(w, c, b, offset), c, b, offset);
  }
}
