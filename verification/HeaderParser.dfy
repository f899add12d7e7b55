/** libhpack/header_parser.c: the parser of header blocks over its mutable decoding context. */
module HeaderParsers {
  import Sequences
  import opened Bits
  import opened BitmapSets
  import opened HeaderFifo
  import opened HeaderTables
  import opened HeaderBlocks
  import HeaderRuns
  import Integers
  import HuffmanCode
  import HuffmanTable
  import Huffman

  /** hpack_header_store_t */
  class Store {
    var headers: seq<Field>

    constructor ()
      ensures headers == []
    {
      headers := [];
    }
  }

  datatype Result = Done | AtEnd | Failed(why: Failure)

  /** What a method returns and leaves behind is what a step says. */
  ghost predicate Follows(s: Step, r: Result, f: Field, consumed: nat, ctx: Ctx) {
    match s
    case Ok(c, g, n) => r == Done && f == g && consumed == n && ctx == c
    case Eof(c) => r == AtEnd && ctx == c
    case Stop(c, why) => r == Failed(why) && ctx == c
  }

  /** hpack_header_parser_t with its context. */
  class HeaderParser {
    const table: HeaderTable
    const referenceSet: BitSet
    const refNotEmitted: BitSet
    const iter: SetIterator            // iter_not_emitted
    const huff: HuffmanTable.Table
    ghost const code: Code
    var finished: bool

    ghost function Repr(): set<object> {
      {this, referenceSet, referenceSet.words, refNotEmitted, refNotEmitted.words, iter} + table.Repr()
    }

    ghost predicate Apart() {
      && referenceSet != refNotEmitted && referenceSet.words != refNotEmitted.words
      && referenceSet !in table.Repr() && referenceSet.words !in table.Repr()
      && refNotEmitted !in table.Repr() && refNotEmitted.words !in table.Repr()
      && iter.over == refNotEmitted && this !in table.Repr() && iter !in table.Repr()
    }

    ghost predicate Valid()
      reads Repr()
    {
      && Apart() && table.Valid() && referenceSet.Valid() && refNotEmitted.Valid() && iter.Valid()
      && Statics(table.statics) && HuffmanCode.Good(code) && HuffmanTable.TableOf(code, huff)
    }

    ghost function Model(): Ctx
      reads Repr()
    {
      Ctx(table.Model(), referenceSet.members, refNotEmitted.members, iter.Position(), finished)
    }

    /** What a lookup finds besides the entries of the table. */
    ghost function Beside(): Outside
      requires Valid()
      reads Repr()
    {
      Outside(table.statics, table.Left())
    }

    /** hpack_header_parser_init */
    constructor (statics: seq<Field>, huff: HuffmanTable.Table, ghost code: Code)
      requires Statics(statics) && HuffmanCode.Good(code) && HuffmanTable.TableOf(code, huff)
      ensures Valid() && fresh(Repr()) && Model() == Ctx(Fresh(), {}, {}, 0, false)
      ensures this.code == code && table.statics == statics
    {
      hide HuffmanCode.Good, HuffmanTable.TableOf, BitSet.Valid, HeaderTable.Valid;
      this.code, this.huff, finished := code, huff, false;
      table := new HeaderTable(statics);
      referenceSet := new BitSet(false);
      var pending := new BitSet(false);
      refNotEmitted := pending;
      iter := new SetIterator(pending);
    }

    /** What is evicted can no longer be referenced. */
    method DropReferences(evicted: BitSet)
      requires Valid() && evicted.Valid() && evicted !in Repr() && evicted.words !in Repr()
      modifies referenceSet`members, referenceSet.words, refNotEmitted`members, refNotEmitted.words
      ensures Valid()
      ensures Model() == old(Model()).(refs := old(Model()).refs - evicted.members,
                                       pending := old(Model()).pending - evicted.members)
    {
      hide HuffmanCode.Good, HuffmanTable.TableOf, Statics, BitSet.Valid;
      referenceSet.RelativeComp(evicted);
      refNotEmitted.RelativeComp(evicted);
    }

    /** add_field_process_evictions */
    method AddFieldProcessEvictions(f: Field) returns (ok: bool, added: bool)
      requires Valid() && !IsEmpty(f)
      modifies Repr()
      ensures Valid() && ok && Sound(old(Model()).t)
      ensures Model() == AddField(old(Model()), f).ctx && added == AddField(old(Model()), f).added
    {
      hide HuffmanCode.Good, HuffmanTable.TableOf, Statics, HeaderFifo.Add, BitSet.Valid;
      assert Sound(table.Model());
      var evicted := new BitSet(false);
      ok := table.Add(f, evicted);
      if !ok { return; }
      DropReferences(evicted);
      var full := evicted.IsFull();
      added := !full;
    }

    method ReadInt(n: nat, b: seq<Byte>, offset: nat) returns (d: Integers.Decoded)
      requires 1 <= n <= 8 && offset <= |b|
      ensures d == IntAt(n, b, offset)
    {
      d := Integers.Decode(n, b[offset..] + [0], (|b| - offset) % 256);
    }

    /** parse_string */
    method ParseString(b: seq<Byte>, offset: nat) returns (s: Str)
      requires offset <= |b| && HuffmanCode.Good(code) && HuffmanTable.TableOf(code, huff)
      ensures s == StringAt(code, b, offset)
    {
      hide HuffmanCode.Good, HuffmanTable.TableOf, IntAt, HuffmanText;
      var huffman := (if offset < |b| then b[offset] else 0) >= 128;
      var d := ReadInt(7, b, offset);
      if d.Bad? { return NoStr(Malformed); }
      var n := offset + d.consumed;
      if |b| < n + d.value { return NoStr(TryAgain); }
      var raw := b[n..n + d.value];
      if huffman {
        var ok, text := DecodeText(raw);
        if !ok { return NoStr(Malformed); }
        s := Str(text, true, d.consumed + d.value);
      } else {
        s := Str(raw, false, d.consumed + d.value);
      }
    }

    /** The call of hpack_huffman_decode with a new context. */
    method DecodeText(raw: seq<Byte>) returns (ok: bool, text: seq<Byte>)
      requires HuffmanCode.Good(code) && HuffmanTable.TableOf(code, huff)
      ensures HuffmanText(code, raw) == if ok then Text(text) else NoText
    {
      hide HuffmanCode.Good, HuffmanTable.TableOf, Huffman.DecodeNibbles, Huffman.Synced;
      var context := new Huffman.Context();
      var out := new Huffman.Buffer();
      Huffman.FreshContext(code, context);
      ok := Huffman.HuffmanDecode(raw, out, context, huff, code, []);
      text := out.data;
      assert [] + Huffman.DecodeNibbles(code, [], BytesBits(raw)).out == text;
      BytesSame(Huffman.DecodeNibbles(code, [], BytesBits(raw)).out, text);
    }

    /** The slot of an HPACK index becomes a reference, and is emitted. */
    method AddReference(i: nat)
      requires Valid()
      modifies referenceSet`members, referenceSet.words, refNotEmitted`members, refNotEmitted.words
      ensures Valid() && Sound(old(Model()).t) && Model() == Reference(old(Model()), i)
    {
      table.IndexSwitchIs(i);
      hide HuffmanCode.Good, HuffmanTable.TableOf, Statics, BitSet.Valid;
      var s := table.IndexSwitch(i);
      var a := referenceSet.Add(s);
      var b := refNotEmitted.Remove(s);
    }

    method RemoveReference(i: nat)
      requires Valid()
      modifies referenceSet`members, referenceSet.words, refNotEmitted`members, refNotEmitted.words
      ensures Valid() && Sound(old(Model()).t) && Model() == Unreference(old(Model()), i)
    {
      table.IndexSwitchIs(i);
      hide HuffmanCode.Good, HuffmanTable.TableOf, Statics, BitSet.Valid;
      var s := table.IndexSwitch(i);
      var a := referenceSet.Remove(s);
      var b := refNotEmitted.Remove(s);
    }

    /** A static entry enters the table and is referenced there. */
    method AddStatic(f: Field, ghost c: Ctx) returns (ok: bool)
      requires Valid() && Model() == c && Sound(c.t) && !IsEmpty(f)
      modifies Repr()
      ensures Valid() && ok && Sound(AddField(c, f).ctx.t) && Model() == Reference(AddField(c, f).ctx, 1)
    {
      hide HuffmanCode.Good, HuffmanTable.TableOf, Statics, BitSet.Valid, HeaderTable.Valid, Sound, AddField, Reference;
      AddFieldSound(c, f);
      var added;
      ok, added := AddFieldProcessEvictions(f);
      if !ok { return; }
      AddReference(1);
    }

    /** The entry of an index that is not referenced. */
    method EmitIndexed(num: nat, con: nat, ghost o: Outside, ghost c: Ctx) returns (r: Result, f: Field, consumed: nat)
      requires Valid() && Model() == c && Beside() == o && Statics(o.statics) && Sound(c.t)
      requires num <= STATIC_ENTRIES + |c.t.fields| < SLOTS + STATIC_ENTRIES && Switch(c.t, num) !in c.refs
      modifies Repr()
      ensures Valid() && Follows(Index(o, c, num, con), r, f, consumed, Model())
    {
      hide HuffmanCode.Good, HuffmanTable.TableOf, BitSet.Valid, HeaderTable.Valid, Sound, AddField, Reference, ReadAt, Switch;
      consumed := 0;
      var got, g, isStatic := table.Get(num, false);
      f := g;
      if got != RetOk { return Failed(if got == RetNotFound then NotFound else Malformed), f, consumed; }
      if isStatic {
        var ok := AddStatic(g, c);
        if !ok { return Failed(Malformed), f, consumed; }
      } else {
        AddReference(num);
      }
      r, consumed := Done, con;
    }

    /** parse_indexed, once the index is read. */
    method ParseIndex(num: nat, con: nat, ghost o: Outside, ghost c: Ctx) returns (r: Result, f: Field, consumed: nat)
      requires Valid() && Model() == c && Beside() == o && Statics(o.statics) && Sound(c.t)
      modifies Repr()
      ensures Valid() && Follows(Index(o, c, num, con), r, f, consumed, Model())
    {
      FewFields(c.t);
      hide HuffmanCode.Good, HuffmanTable.TableOf, BitSet.Valid, Sound, AddField, Reference, Unreference, ReadAt, Switch;
      f, consumed := CLEAN, 0;
      table.IndexSwitchIs(num);
      if num > STATIC_ENTRIES + table.numHeaders { return Failed(Malformed), f, consumed; }
      var known := referenceSet.Exists(table.IndexSwitch(num));
      if known {
        RemoveReference(num);
        r, consumed := Done, con;
      } else {
        r, f, consumed := EmitIndexed(num, con, o, c);
      }
    }

    /** parse_indexed */
    method ParseIndexed(b: seq<Byte>, offset: nat) returns (r: Result, f: Field, consumed: nat)
      requires Valid() && offset <= |b|
      modifies Repr()
      ensures Valid() && Statics(table.statics) && Sound(old(Model()).t)
      ensures Follows(IndexedAt(old(Beside()), old(Model()), b, offset), r, f, consumed, Model())
    {
      f, consumed := CLEAN, 0;
      assert Sound(table.Model());
      hide HuffmanCode.Good, HuffmanTable.TableOf, BitSet.Valid, HeaderTable.Valid, Sound, Index, IntAt;
      var d := ReadInt(7, b, offset);
      if d.Bad? { return Failed(Malformed), f, consumed; }
      r, f, consumed := ParseIndex(d.value, d.consumed, Beside(), Model());
    }

    /** The name of a literal. */
    method ParseName(b: seq<Byte>, offset: nat) returns (p: Pair)
      requires Valid() && offset < |b|
      ensures p == NameAt(code, Beside(), table.Model(), b, offset)
    {
      hide HuffmanCode.Good, HuffmanTable.TableOf, BitSet.Valid, HeaderTable.Valid, IntAt, StringAt;
      if b[offset] % 16 != 0 {
        var n := if b[offset] / 64 != 0 then 6 else 4;
        var d := ReadInt(n, b, offset);
        if d.Bad? { return NoPair(Malformed); }
        var got, f, isStatic := table.Get(d.value % 0x1_0000, true);
        if got != RetOk { return NoPair(if got == RetNotFound then NotFound else Malformed); }
        p := Pair(f.(flags := f.flags.(name := if isStatic then IsIndexedStatic else IsIndexedTable)), d.consumed);
      } else {
        var s := ParseString(b, offset + 1);
        if s.NoStr? { return NoPair(s.why); }
        p := Pair(Field(s.bytes, [], CLEAN.flags.(name := if s.huffman then IsNewHuffman else IsNew)), 1 + s.consumed);
      }
    }

    /** parse_header_pair */
    method ParseHeaderPair(b: seq<Byte>, offset: nat) returns (p: Pair)
      requires Valid() && offset < |b|
      ensures p == PairAt(code, Beside(), table.Model(), b, offset)
    {
      hide HuffmanCode.Good, HuffmanTable.TableOf, BitSet.Valid, HeaderTable.Valid, NameAt, StringAt;
      p := ParseName(b, offset);
      if p.NoPair? { return; }
      var s := ParseString(b, offset + p.consumed);
      if s.NoStr? { return NoPair(s.why); }
      var flags := p.field.flags.(value := if s.huffman then IsNewHuffman else IsNew);
      p := Pair(p.field.(value := s.bytes, flags := flags), p.consumed + s.consumed);
    }

    /** A new limit; references to what it evicts are dropped. */
    method SetMax(max: nat, ghost c: Ctx) returns (ok: bool)
      requires Valid() && Model() == c && Sound(c.t)
      modifies Repr()
      ensures Valid() && (ok <==> max <= MAX_SIZE) && (!ok ==> Model() == c)
      ensures ok ==> var a := HeaderFifo.SetMax(c.t, max);
        Model() == c.(t := a.t, refs := c.refs - a.evicted, pending := c.pending - a.evicted)
    {
      hide HuffmanCode.Good, HuffmanTable.TableOf, Statics, BitSet.Valid, HeaderTable.Valid, HeaderFifo.SetMax, Sound;
      var evicted := new BitSet(false);
      ok := table.SetMax(max, evicted);
      if !ok { return; }
      DropReferences(evicted);
    }

    method SetLimit(limit: nat, con: nat, ghost c: Ctx) returns (r: Result, consumed: nat)
      requires Valid() && Model() == c && Sound(c.t)
      modifies Repr()
      ensures Valid() && Follows(Resize(c, limit, con), r, CLEAN, consumed, Model())
    {
      hide HeaderFifo.SetMax, Sound, Valid;
      var ok := SetMax(limit % 0x1_0000, c);
      r, consumed := if ok then Done else Failed(Malformed), con;
    }

    method ClearReferences()
      requires Valid()
      modifies Repr()
      ensures Valid() && Model() == old(Model()).(refs := {}, pending := {})
    {
      hide HuffmanCode.Good, HuffmanTable.TableOf, Statics, BitSet.Valid, HeaderTable.Valid;
      referenceSet.Clear();
      refNotEmitted.Clear();
    }

    /** parse_context_update */
    method ParseContextUpdate(b: seq<Byte>, offset: nat) returns (r: Result, consumed: nat)
      requires Valid() && offset < |b|
      modifies Repr()
      ensures Valid() && Sound(old(Model()).t)
      ensures Follows(UpdateAt(old(Model()), b, offset), r, CLEAN, consumed, Model())
    {
      consumed := 0;
      assert Sound(table.Model());
      hide HuffmanCode.Good, HuffmanTable.TableOf, Statics, BitSet.Valid, HeaderTable.Valid, IntAt, Resize, Sound;
      if b[offset] == 0x30 {
        ClearReferences();
        return Done, 1;
      }
      var d := ReadInt(4, b, offset);
      if d.Bad? { return Failed(Malformed), consumed; }
      r, consumed := SetLimit(d.value, d.consumed, Model());
    }

    /** A literal field; with incremental indexing it enters the table. */
    method AddLiteral(first: Byte, pair: Field, con: nat) returns (r: Result, f: Field, consumed: nat)
      requires Valid()
      modifies Repr()
      ensures Valid() && Sound(old(Model()).t)
      ensures Follows(Literal(old(Model()), first, pair, con), r, f, consumed, Model())
    {
      consumed := 0;
      assert Sound(table.Model());
      hide HuffmanCode.Good, HuffmanTable.TableOf, Statics, BitSet.Valid, HeaderTable.Valid, Sound, AddField, Reference;
      if first / 64 == 1 {
        f := pair.(flags := pair.flags.(rep := RepIncIndexed));
        if f.name == [] { return Failed(Malformed), f, consumed; }
        AddSound(table.Model(), f);
        var ok, added := AddFieldProcessEvictions(f);
        if !ok { return; }
        if added { AddReference(1); }
      } else {
        f := pair.(flags := pair.flags.(rep := if first >= 16 then RepNeverIndexed else RepWithoutIndexing));
      }
      r, consumed := Done, con;
    }

    /** final_reference_set_process */
    method FinalReferenceSetProcess() returns (r: Result, f: Field, consumed: nat)
      requires Valid()
      modifies Repr()
      ensures Valid() && Sound(old(Model()).t)
      ensures Follows(Final(old(Beside()), old(Model())), r, f, consumed, Model())
    {
      f, consumed := CLEAN, 0;
      assert Sound(table.Model());
      hide HuffmanCode.Good, HuffmanTable.TableOf, Statics, BitSet.Valid, HeaderTable.Valid, Sound, Next;
      if finished { return AtEnd, f, consumed; }
      ghost var m, at := refNotEmitted.members, iter.Position();
      var s := iter.Next();
      NextUnique(m, at, s);
      if s == -1 {
        StartOver();
        return AtEnd, f, consumed;
      }
      f := EmitSlot(s);
      r := Done;
    }

    /** All references are pending in the next block. */
    method StartOver()
      requires Valid()
      modifies Repr()
      ensures Valid() && Model() == old(Model()).(finished := true, pending := old(Model()).refs, at := 0)
    {
      hide HuffmanCode.Good, HuffmanTable.TableOf, Statics, BitSet.Valid, HeaderTable.Valid, Sound;
      finished := true;
      refNotEmitted.Assign(referenceSet);
      iter.Reset();
    }

    /** The field in a slot, by its HPACK index. */
    method EmitSlot(s: nat) returns (f: Field)
      requires Valid() && s < SLOTS
      modifies refNotEmitted`members, refNotEmitted.words
      ensures Valid() && Sound(old(Model()).t) && |old(Model()).t.fields| < SLOTS
      ensures var t := old(Model()).t; var i := Switch(t, s);
        && Model() == old(Model()).(pending := old(Model()).pending - {Switch(t, i)})
        && f == FieldFound(Get(t, old(Beside()), i))
    {
      table.IndexSwitchIs(s);
      var i := table.IndexSwitch(s);
      table.IndexSwitchIs(i);
      hide HuffmanCode.Good, HuffmanTable.TableOf, Statics, BitSet.Valid, HeaderTable.Valid, Sound;
      var got, g, isStatic := table.Get(i, false);
      f := g;
      var removed := refNotEmitted.Remove(table.IndexSwitch(i));
    }

    /** hpack_header_parser_field */
    method ParseField(b: seq<Byte>, offset: nat) returns (r: Result, f: Field, consumed: nat)
      requires Valid() && offset <= |b|
      modifies Repr()
      ensures Valid() && Statics(table.statics) && Sound(old(Model()).t)
      ensures Follows(FieldAt(code, old(Beside()), old(Model()), b, offset), r, f, consumed, Model())
    {
      f, consumed := CLEAN, 0;
      assert Sound(table.Model()) && Statics(table.statics);
      hide HuffmanCode.Good, HuffmanTable.TableOf, Statics, BitSet.Valid, HeaderTable.Valid, Sound, Final, UpdateAt;
      hide IndexedAt, PairAt, Literal;
      if offset == |b| {
        r, f, consumed := FinalReferenceSetProcess();
        return;
      }
      finished := false;
      var first := b[offset];
      if first / 32 == 1 {
        r, consumed := ParseContextUpdate(b, offset);
      } else if first >= 128 {
        r, f, consumed := ParseIndexed(b, offset);
      } else {
        var p := ParseHeaderPair(b, offset);
        if p.NoPair? { return Failed(p.why), f, consumed; }
        r, f, consumed := AddLiteral(first, p.field, p.consumed);
      }
    }

    /** One round of hpack_header_parser_all: a field is parsed and emitted. */
    method ParseNext(b: seq<Byte>, offset: nat, store: Store?, ghost k: Block, ghost w: HeaderRuns.World, ghost out: seq<Field>, ghost consumed: nat)
      returns (r: Result, con: nat, ghost more: seq<Field>, ghost v: HeaderRuns.World)
      requires Valid() && k.code == code && k.b == b && w.statics == table.statics && Ahead(k, w, Model(), offset, out, consumed)
      modifies Repr(), store
      ensures Valid() && offset <= |k.b| && v.statics == table.statics && (r == AtEnd ==> offset == |k.b|)
      ensures r != Done ==> more == [] && RunIs(k, v, HeaderRuns.Run(r == AtEnd, Model(), out, consumed))
      ensures r == Done ==> Ahead(k, v, Model(), offset + con, out + more, consumed + con)
      ensures r == Done ==> offset + con <= |b| && (con > 0 || (old(Model()).at < Model().at && old(Model()).at < SLOTS))
      ensures store != null ==> Emitted(store) == old(Emitted(store)) + more
    {
      hide HuffmanCode.Good, HuffmanTable.TableOf, Statics, BitSet.Valid, HeaderTable.Valid, Sound, FieldAt, Ahead, RunIs;
      ghost var left := table.Left();
      AheadStep(k, w, Model(), offset, out, consumed, left);
      v := Learned(w, Model(), k.b, offset, left);
      var f;
      r, f, con := ParseField(b, offset);
      more := [];
      if r == Done {
        more := HeaderRuns.Emit(f);
        EmitTo(store, f);
      }
    }

    /** hpack_header_parser_all: parses a block and emits its fields to the store, if there is one.
        It terminates on every buffer, and on success it consumes exactly the block.  w tells what lay in the
        free slot of the table when each field was parsed. */
    method ParseAll(b: seq<Byte>, start: nat, store: Store?, ghost c: Ctx)
      returns (r: Result, consumed: nat, ghost w: HeaderRuns.World)
      requires Valid() && start <= |b| && c == Model() && Statics(table.statics) && Sound(c.t)
      modifies Repr(), store
      ensures Valid() && w.statics == table.statics && start + consumed <= |b| && (r == Done ==> start + consumed == |b|)
      ensures var run := HeaderRuns.ParseAll(code, w, c, b, start);
        && (r == Done <==> run.ok) && Model() == run.ctx && consumed == run.consumed
        && (store != null ==> Emitted(store) == old(Emitted(store)) + run.out)
    {
      hide HuffmanCode.Good, HuffmanTable.TableOf, Statics, BitSet.Valid, HeaderTable.Valid, Sound, FieldAt;
      hide Ahead, HeaderRuns.ParseAll, HeaderRuns.Emit, Emitted;
      ghost var k := Block(code, c, b, start);
      ghost var was, out: seq<Field> := Emitted(store), [];
      consumed, w := 0, HeaderRuns.World(table.statics, map[]);
      AheadStart(k, w);
      r := Done;
      while r == Done
        invariant Valid() && start + consumed <= |b| && w.statics == table.statics
        invariant r == Done ==> Ahead(k, w, Model(), start + consumed, out, consumed)
        invariant r != Done ==> RunIs(k, w, HeaderRuns.Run(r == AtEnd, Model(), out, consumed))
        invariant r == AtEnd ==> start + consumed == |b|
        invariant store != null ==> Emitted(store) == was + out
        decreases r == Done, |b| - consumed, SLOTS - Model().at
      {
        ghost var more;
        var con;
        r, con, more, w := ParseNext(b, start + consumed, store, k, w, out, consumed);
        if r == Done { consumed := consumed + con; }
        Sequences.Associate(was, out, more);
        out := out + more;
      }
      if r == AtEnd { r := Done; }
    }

    /** hpack_header_store_emit of a field that is not empty, if there is a store. */
    method EmitTo(store: Store?, f: Field)
      modifies store
      ensures Emitted(store) == if store == null then [] else old(Emitted(store)) + HeaderRuns.Emit(f)
    {
      if store != null && !IsEmpty(f) {
        store.headers := store.headers + [f];
      }
    }
  }

  ghost function Emitted(store: Store?): seq<Field>
    reads store
  {
    if store == null then [] else store.headers
  }

  // --- Runs of the parser ---------------------------------------------------------------------

  /** The octets of a block from a position on, and the context that they meet. */
  datatype Block = Block(code: Code, c: Ctx, b: seq<Byte>, start: nat)

  /** The run of a whole block. */
  ghost predicate RunIs(k: Block, w: HeaderRuns.World, run: HeaderRuns.Run) {
    && Statics(w.statics) && Sound(k.c.t) && k.start <= |k.b|
    && run == HeaderRuns.ParseAll(k.code, w, k.c, k.b, k.start)
  }

  /** What is still to come from a context completes what was emitted and consumed. */
  ghost predicate Completes(k: Block, w: HeaderRuns.World, c: Ctx, offset: nat, out: seq<Field>, consumed: nat) {
    && Statics(w.statics) && Sound(c.t) && offset <= |k.b|
    && var rest := HeaderRuns.ParseAll(k.code, w, c, k.b, offset);
      RunIs(k, w, HeaderRuns.Run(rest.ok, rest.ctx, out + rest.out, consumed + rest.consumed))
  }

  ghost predicate Agrees(lefts: map<nat, Reading>, more: map<nat, Reading>) {
    forall m :: m in lefts ==> m in more && more[m] == lefts[m]
  }

  /** So it does whatever the free slot will hold from now on. */
  ghost predicate Ahead(k: Block, w: HeaderRuns.World, c: Ctx, offset: nat, out: seq<Field>, consumed: nat) {
    && Statics(w.statics) && Sound(c.t) && offset <= |k.b|
    && (forall m :: m in w.lefts ==> m < HeaderRuns.Moment(c, k.b, offset))
    && forall more :: Agrees(w.lefts, more) ==> Completes(k, HeaderRuns.World(w.statics, more), c, offset, out, consumed)
  }

  /** One more moment is known. */
  ghost function Learned(w: HeaderRuns.World, c: Ctx, b: seq<Byte>, offset: nat, left: Reading): HeaderRuns.World {
    w.(lefts := w.lefts[HeaderRuns.Moment(c, b, offset) := left])
  }

  lemma AheadStart(k: Block, w: HeaderRuns.World)
    requires Statics(w.statics) && Sound(k.c.t) && k.start <= |k.b| && w.lefts == map[]
    ensures Ahead(k, w, k.c, k.start, [], 0)
  {
    hide FieldAt, HeaderRuns.ParseAll, Sound, Statics;
    forall more | Agrees(w.lefts, more) ensures Completes(k, HeaderRuns.World(w.statics, more), k.c, k.start, [], 0) {
      var r := HeaderRuns.ParseAll(k.code, HeaderRuns.World(w.statics, more), k.c, k.b, k.start);
      assert [] + r.out == r.out;
    }
  }

  lemma AheadStep(k: Block, w: HeaderRuns.World, c: Ctx, offset: nat, out: seq<Field>, consumed: nat, left: Reading)
    requires Ahead(k, w, c, offset, out, consumed)
    ensures Statics(w.statics) && Sound(c.t) && offset <= |k.b|
    ensures var s := FieldAt(k.code, Outside(w.statics, left), c, k.b, offset); var v := Learned(w, c, k.b, offset, left);
      && (s.Ok? ==> offset + s.consumed <= |k.b| && (s.consumed > 0 || (c.at < s.ctx.at && c.at < SLOTS)))
      && (s.Ok? ==> Ahead(k, v, s.ctx, offset + s.consumed, out + HeaderRuns.Emit(s.field), consumed + s.consumed))
      && (!s.Ok? ==> RunIs(k, v, HeaderRuns.Run(s.Eof?, s.ctx, out, consumed)) && (s.Eof? ==> offset == |k.b|))
  {
    hide FieldAt, Sound, Statics, Completes, HeaderRuns.Emit;
    FieldAtProgress(k.code, Outside(w.statics, left), c, k.b, offset);
    var s := FieldAt(k.code, Outside(w.statics, left), c, k.b, offset);
    var v := Learned(w, c, k.b, offset, left);
    if s.Ok? {
      forall more | Agrees(v.lefts, more)
        ensures Completes(k, HeaderRuns.World(w.statics, more), s.ctx, offset + s.consumed,
                          out + HeaderRuns.Emit(s.field), consumed + s.consumed)
      {
        CompletesStep(k, HeaderRuns.World(w.statics, more), c, offset, out, consumed, left);
      }
    } else {
      CompletesStep(k, v, c, offset, out, consumed, left);
    }
  }

  lemma CompletesStep(k: Block, w: HeaderRuns.World, c: Ctx, offset: nat, out: seq<Field>, consumed: nat, left: Reading)
    requires Completes(k, w, c, offset, out, consumed) && HeaderRuns.Around(w, c, k.b, offset).left == left
    ensures Statics(w.statics) && Sound(c.t) && offset <= |k.b|
    ensures var s := FieldAt(k.code, Outside(w.statics, left), c, k.b, offset);
      && (s.Ok? ==> Completes(k, w, s.ctx, offset + s.consumed, out + HeaderRuns.Emit(s.field), consumed + s.consumed))
      && (!s.Ok? ==> RunIs(k, w, HeaderRuns.Run(s.Eof?, s.ctx, out, consumed)))
  {
    hide FieldAt, Sound, Statics, HeaderRuns.Around, RunIs, HeaderRuns.Emit;
    FieldAtProgress(k.code, Outside(w.statics, left), c, k.b, offset);
    assert HeaderRuns.Around(w, c, k.b, offset) == Outside(w.statics, left);
    var s := FieldAt(k.code, Outside(w.statics, left), c, k.b, offset);
    if s.Ok? {
      var rest := HeaderRuns.ParseAll(k.code, w, s.ctx, k.b, offset + s.consumed);
      Sequences.Associate(out, HeaderRuns.Emit(s.field), rest.out);
    } else {
      assert out + [] == out;
    }
  }

  lemma {:induction false} NextUnique(m: set<nat>, at: nat, r: int)
    requires NextFrom(m, at, r)
    ensures r == Next(m, at)
    decreases SLOTS - at
  {
  }
}
