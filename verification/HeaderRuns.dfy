/** Whole header blocks: what every step keeps, and what a block emits. */
module HeaderRuns {
  import Sequences
  import opened Bits
  import opened BitmapSets
  import opened HeaderFifo
  import opened HeaderBlocks
  import Integers

  // --- The reference set -----------------------------------------------------------------

  /** References denote entries of the table, and what is pending is referenced. */
  ghost predicate Inv(c: Ctx) {
    Sound(c.t) && c.pending <= c.refs && c.refs <= Live(c.t)
  }

  /** The three steps after which references may dangle: a table emptied by a limit of zero reports no
      evictions, a static entry that does not fit is referenced all the same, and index 0 is that of a slot
      without an entry. */
  ghost predicate Upsets(statics: seq<Field>, c: Ctx, b: seq<Byte>, offset: nat)
    requires Statics(statics) && Sound(c.t) && offset <= |b|
  {
    offset < |b| && (LimitZero(c, b, offset) || StaticTooLarge(statics, c, b, offset) || IndexZero(b, offset))
  }

  predicate IndexZero(b: seq<Byte>, offset: nat)
    requires offset < |b|
  {
    b[offset] == 0x80
  }

  ghost predicate LimitZero(c: Ctx, b: seq<Byte>, offset: nat)
    requires offset < |b|
  {
    && b[offset] / 32 == 1 && b[offset] != 0x30 && c.refs != {}
    && IntAt(4, b, offset).Decoded? && IntAt(4, b, offset).value % 0x1_0000 == 0
  }

  ghost predicate StaticTooLarge(statics: seq<Field>, c: Ctx, b: seq<Byte>, offset: nat)
    requires Statics(statics) && Sound(c.t) && offset < |b|
  {
    b[offset] >= 128 && IntAt(7, b, offset).Decoded? && TooLarge(statics, c, IntAt(7, b, offset).value)
  }

  /** The index of a static entry that does not fit, unless it passes for a reference. */
  ghost predicate TooLarge(statics: seq<Field>, c: Ctx, i: nat)
    requires |statics| == STATIC_ENTRIES && Sound(c.t)
  {
    FewFields(c.t);
    var n := |c.t.fields|;
    n < i <= n + STATIC_ENTRIES && Switch(c.t, i) !in c.refs && Size(statics[i - n - 1]) > c.t.max
  }

  /** An index is zero only if its first octet says so. */
  lemma ZeroIndex(b: seq<Byte>, offset: nat)
    requires offset < |b| && b[offset] >= 128
    ensures IntAt(7, b, offset) == Integers.Decoded(0, 1) <==> IndexZero(b, offset)
    ensures IntAt(7, b, offset).Decoded? && IntAt(7, b, offset).value == 0 ==> IndexZero(b, offset)
  {
    hide IntAt, And, Integers.Limit, Integers.DecodeGroups;
    Integers.LowSeven(b[offset]);
    IntFirst(7, b, offset);
    GroupsGrow(b[offset..] + [0], Integers.Min((|b| - offset) % 256, Integers.VLQ_MAX_LEN), 1, And(b[offset], 127));
  }

  lemma IntFirst(n: nat, b: seq<Byte>, offset: nat)
    requires 1 <= n <= 8 && offset < |b|
    ensures var first := And(b[offset], Integers.Limit(n));
      IntAt(n, b, offset) == if first < Integers.Limit(n) then Integers.Decoded(first, 1)
        else Integers.DecodeGroups(b[offset..] + [0], Integers.Min((|b| - offset) % 256, Integers.VLQ_MAX_LEN), 1, first)
  {
    hide And, Integers.Limit, Integers.DecodeGroups;
    assert (b[offset..] + [0])[0] == b[offset];
  }

  lemma {:induction false} GroupsGrow(mem: seq<Byte>, m: nat, i: nat, acc: nat)
    requires 1 <= i && m <= |mem|
    ensures var d := Integers.DecodeGroups(mem, m, i, acc); d.Decoded? ==> d.value >= acc
    decreases m - i
  {
    if i < m && mem[i] >= 128 { GroupsGrow(mem, m, i + 1, acc + Shl(mem[i] % 128, 7 * (i - 1))); }
  }

  lemma AddFieldInv(c: Ctx, f: Field)
    requires Inv(c) && !IsEmpty(f)
    ensures var a := AddField(c, f);
      && Inv(a.ctx) && (a.added <==> Size(f) <= c.t.max)
      && (a.added ==> Inv(Reference(a.ctx, 1)))
      && (!a.added ==> a.ctx.refs == {} && !Inv(Reference(a.ctx, 1)))
  {
    AddSound(c.t, f);
    var a := AddField(c, f);
    FewFields(a.ctx.t);
    if Size(f) <= c.t.max {
      AddKeepsSlots(c.t, f, 0);
      hide Sound, Add, Switch, Live;
    } else {
      assert forall s :: s in c.refs ==> Slot(s);
      assert Switch(a.ctx.t, 1) !in Live(a.ctx.t);
    }
  }

  lemma IndexInv(o: Outside, c: Ctx, i: nat, con: nat)
    requires Statics(o.statics) && Inv(c)
    ensures var s := Index(o, c, i, con);
      && (s.Stop? ==> s.ctx == c)
      && (s.Ok? ==> (!Inv(s.ctx) <==> TooLarge(o.statics, c, i) || i == 0))
  {
    FewFields(c.t);
    var g := Get(c.t, o, i);
    if i == 0 {
      IndexZeroDangles(o, c, con);
    } else if Switch(c.t, i) !in c.refs {
      if g.InStatic? {
        AddFieldInv(c, g.f);
      } else if g.InTable? {
        ReferenceInv(c, i);
      }
    }
    hide Sound, AddField, Live, Switch, Size, Reference;
  }

  /** A slot may be referenced exactly if it is that of an entry. */
  lemma ReferenceInv(c: Ctx, i: nat)
    requires Inv(c) && i <= |c.t.fields|
    ensures Inv(Reference(c, i)) <==> 1 <= i
  {
    FewFields(c.t);
    if i == 0 { DeadIndex(c.t, 0); } else { LiveIndex(c.t, i); }
    hide Sound, Live, Switch;
  }

  /** Index 0 emits what is left in the free slot and references that slot, so that the reference dangles. */
  lemma IndexZeroDangles(o: Outside, c: Ctx, con: nat)
    requires Statics(o.statics) && Inv(c)
    ensures var s := Index(o, c, 0, con);
      if o.left.Whole? then s == Ok(Reference(c, 0), o.left.f, con) && !Inv(s.ctx) else s == Stop(c, Malformed)
  {
    FewFields(c.t);
    DeadIndex(c.t, 0);
    ReferenceInv(c, 0);
    hide Sound, Live, Switch, Reference;
  }

  lemma LiveIndex(t: Table, i: nat)
    requires Sound(t) && 1 <= i <= |t.fields|
    ensures |t.fields| < SLOTS && Switch(t, i) in Live(t)
  {
    SwitchIndex(t, i);
    FewFields(t);
    SlotPlace(t, |t.fields| - i);
    assert Slot(Switch(t, i));
  }

  lemma ResizeInv(c: Ctx, limit: nat, con: nat)
    requires Inv(c)
    ensures var s := Resize(c, limit, con);
      && (!s.Ok? ==> s.ctx == c)
      && (s.Ok? ==> (!Inv(s.ctx) <==> limit % 0x1_0000 == 0 && c.refs != {}))
  {
    var max := limit % 0x1_0000;
    if max <= MAX_SIZE {
      SetMaxSound(c.t, max);
      if max > 0 {
        SetMaxKeepsSlots(c.t, max, 0);
      }
      hide Sound, Live, Excess, Drop;
      assert max == 0 ==> SetMax(c.t, max).t.fields == [];
      if max == 0 { NoneLive(SetMax(c.t, max).t); }
    }
  }

  lemma NoneLive(t: Table)
    requires t.head < SLOTS && t.fields == []
    ensures Live(t) == {}
  {
  }

  lemma LiteralInv(c: Ctx, first: Byte, f: Field, con: nat)
    requires Inv(c)
    ensures Inv(Literal(c, first, f, con).ctx)
  {
    var g := f.(flags := f.flags.(rep := RepIncIndexed));
    if g.name != [] { AddFieldInv(c, g); }
    hide Sound, AddField, Live;
  }

  lemma IndexedInv(o: Outside, c: Ctx, b: seq<Byte>, offset: nat)
    requires Statics(o.statics) && Inv(c) && offset < |b| && b[offset] >= 128
    ensures var s := IndexedAt(o, c, b, offset);
      && (s.Ok? ==> (!Inv(s.ctx) <==> StaticTooLarge(o.statics, c, b, offset) || IndexZero(b, offset)))
      && (!s.Ok? ==> Inv(s.ctx))
  {
    ZeroIndex(b, offset);
    hide Inv, Index, IntAt, TooLarge, Statics;
    match IntAt(7, b, offset) {
      case Bad =>
      case Decoded(i, con) => IndexInv(o, c, i, con);
    }
  }

  lemma SameTooLarge(statics: seq<Field>, c: Ctx, b: seq<Byte>, offset: nat)
    requires Statics(statics) && Sound(c.t) && offset < |b|
    ensures StaticTooLarge(statics, c.(finished := false), b, offset) == StaticTooLarge(statics, c, b, offset)
  {
    hide Sound, Statics, IntAt, Switch;
  }

  lemma FinalInv(o: Outside, c: Ctx)
    requires Statics(o.statics) && Inv(c)
    ensures Inv(Final(o, c).ctx)
  {
    hide Sound, Live, Get, Switch, Next;
  }

  /** Of all successful steps only these three break the invariant, and they always do. */
  lemma StepInv(code: Code, o: Outside, c: Ctx, b: seq<Byte>, offset: nat)
    requires Statics(o.statics) && Inv(c) && offset <= |b|
    ensures var s := FieldAt(code, o, c, b, offset);
      && (s.Ok? ==> (Inv(s.ctx) <==> !Upsets(o.statics, c, b, offset)))
      && (!s.Ok? ==> Inv(s.ctx))
  {
    hide Sound, Live, Resize, Index, Literal, IntAt, PairAt, TooLarge;
    if offset < |b| {
      var ctx := c.(finished := false);
      if b[offset] / 32 == 1 {
        match IntAt(4, b, offset) {
          case Bad =>
          case Decoded(limit, con) => ResizeInv(ctx, limit, con);
        }
      } else if b[offset] >= 128 {
        IndexedInv(o, ctx, b, offset);
        SameTooLarge(o.statics, c, b, offset);
      } else {
        match PairAt(code, o, ctx.t, b, offset) {
          case NoPair(why) =>
          case Pair(f, con) => LiteralInv(ctx, b[offset], f, con);
        }
      }
    } else {
      FinalInv(o, c);
    }
  }

  /** The slot of an index above 128 is that of an entry in the table; the test for a reference is
      right exactly when that entry is not referenced. */
  lemma AliasedIndex(c: Ctx, i: nat)
    requires Inv(c) && i <= STATIC_ENTRIES + |c.t.fields|
    ensures |c.t.fields| < SLOTS
    ensures var n, s := |c.t.fields|, Switch(c.t, i);
      (s in c.refs <==> 1 <= i <= n && SlotOf(c.t, n - i) in c.refs) <==> !(i > SLOTS && s in c.refs)
  {
    FewFields(c.t);
    var n, s := |c.t.fields|, Switch(c.t, i);
    if 1 <= i <= n {
      SwitchIndex(c.t, i);
    } else if i <= SLOTS {
      DeadIndex(c.t, i);
    }
  }

  lemma DeadIndex(t: Table, i: nat)
    requires Sound(t) && |t.fields| < SLOTS && (i == 0 || |t.fields| < i <= SLOTS)
    ensures Switch(t, i) !in Live(t)
  {
    FewFields(t);
    hide Sound;
    assert PlaceOf(t, Switch(t, i)) >= |t.fields|;
  }

  // --- Blocks --------------------------------------------------------------------------------

  /** What a whole run depends on: the static entries, and at each of its moments what lies in the free slot. */
  datatype World = World(statics: seq<Field>, lefts: map<nat, Reading>)

  /** No two steps of a run have the same moment. */
  function Moment(c: Ctx, b: seq<Byte>, offset: nat): nat {
    if offset < |b| then offset else |b| + c.at
  }

  function Around(w: World, c: Ctx, b: seq<Byte>, offset: nat): (o: Outside)
    ensures o.statics == w.statics
  {
    var m := Moment(c, b, offset);
    Outside(w.statics, if m in w.lefts then w.lefts[m] else Unreadable)
  }

  ghost function StepAt(code: Code, w: World, c: Ctx, b: seq<Byte>, offset: nat): Step
    requires Statics(w.statics) && Sound(c.t) && offset <= |b|
  {
    FieldAt(code, Around(w, c, b, offset), c, b, offset)
  }

  /** ok: the block was parsed to its end; out: the fields emitted; consumed: the octets read. */
  datatype Run = Run(ok: bool, ctx: Ctx, out: seq<Field>, consumed: nat)

  function Emit(f: Field): seq<Field> {
    if IsEmpty(f) then [] else [f]
  }

  /** hpack_header_parser_all */
  ghost function ParseAll(code: Code, w: World, c: Ctx, b: seq<Byte>, offset: nat): (r: Run)
    requires Statics(w.statics) && Sound(c.t) && offset <= |b|
    ensures Sound(r.ctx.t) && offset + r.consumed <= |b|
    ensures r.ok ==> offset + r.consumed == |b| && r.ctx.finished
    decreases |b| - offset, SLOTS - c.at
  {
    FieldAtProgress(code, Around(w, c, b, offset), c, b, offset);
    match StepAt(code, w, c, b, offset)
    case Eof(next) => Run(true, next, [], 0)
    case Stop(next, why) => Run(false, next, [], 0)
    case Ok(next, f, con) =>
      var rest := ParseAll(code, w, next, b, offset + con);
      Run(rest.ok, rest.ctx, Emit(f) + rest.out, con + rest.consumed)
  }

  /** None of the steps over the octets of the block upsets the references. */
  ghost predicate Calm(code: Code, w: World, c: Ctx, b: seq<Byte>, offset: nat)
    requires Statics(w.statics) && Sound(c.t) && offset <= |b|
    decreases |b| - offset
  {
    FieldAtProgress(code, Around(w, c, b, offset), c, b, offset);
    offset < |b| ==>
      var s := StepAt(code, w, c, b, offset);
      s.Ok? && !Upsets(w.statics, c, b, offset) && Calm(code, w, s.ctx, b, offset + s.consumed)
  }

  /** What the octets of the block emit by themselves, and the context behind them. */
  ghost function Data(code: Code, w: World, c: Ctx, b: seq<Byte>, offset: nat): (r: Run)
    requires Statics(w.statics) && Sound(c.t) && offset <= |b|
    ensures Sound(r.ctx.t)
    decreases |b| - offset
  {
    FieldAtProgress(code, Around(w, c, b, offset), c, b, offset);
    if offset == |b| then Run(true, c, [], 0)
    else
      var s := StepAt(code, w, c, b, offset);
      if s.Ok? then
        var rest := Data(code, w, s.ctx, b, offset + s.consumed);
        Run(rest.ok, rest.ctx, Emit(s.field) + rest.out, s.consumed + rest.consumed)
      else Run(false, c, [], 0)
  }

  /** The slots that are referenced all through the block: not toggled off, cleared or evicted. */
  ghost function Stays(code: Code, w: World, c: Ctx, b: seq<Byte>, offset: nat): set<nat>
    requires Statics(w.statics) && Sound(c.t) && offset <= |b|
    decreases |b| - offset
  {
    FieldAtProgress(code, Around(w, c, b, offset), c, b, offset);
    if offset == |b| then c.refs
    else
      var s := StepAt(code, w, c, b, offset);
      if s.Ok? then c.refs * Stays(code, w, s.ctx, b, offset + s.consumed) else {}
  }

  /** The fields of a set of slots, each once, in the order of the slots. */
  ghost function FieldsOf(t: Table, m: set<nat>, at: nat): seq<Field>
    requires t.head < SLOTS && m <= Live(t)
    decreases SLOTS - at
  {
    if at >= SLOTS then []
    else if at in m then
      assert Slot(at);
      [Denotes(t, at)] + FieldsOf(t, m, at + 1)
    else FieldsOf(t, m, at + 1)
  }

  ghost function From(m: set<nat>, at: nat): set<nat> {
    set s | s in m && at <= s
  }

  lemma FromStep(m: set<nat>, at: nat)
    ensures at in m ==> From(m, at) == From(m, at + 1) + {at}
    ensures at !in m ==> From(m, at) == From(m, at + 1)
    ensures (forall s :: s in m ==> s < at) ==> From(m, at) == {}
  {
  }

  lemma {:induction false} FieldsOfCount(t: Table, m: set<nat>, at: nat)
    requires t.head < SLOTS && m <= Live(t)
    ensures |FieldsOf(t, m, at)| == |From(m, at)|
    decreases SLOTS - at
  {
    FromStep(m, at);
    if at >= SLOTS {
      assert forall s :: s in m ==> Slot(s);
    } else {
      hide Live, Denotes, PlaceOf;
      FieldsOfCount(t, m, at + 1);
      assert at !in From(m, at + 1);
      hide From;
    }
  }

  ghost predicate Same(t: Table, u: Table, x: nat)
    requires t.head < SLOTS && u.head < SLOTS && Slot(x)
  {
    PlaceOf(t, x) < |t.fields| && PlaceOf(u, x) < |u.fields| && Denotes(t, x) == Denotes(u, x)
  }

  /** What stays referenced stays pending if it was, and denotes the same field. */
  ghost predicate Kept(c: Ctx, d: Ctx, x: nat) {
    && c.t.head < SLOTS && d.t.head < SLOTS
    && d.pending == c.pending * d.refs && d.at == c.at
    && (Slot(x) && x in c.refs && x in d.refs ==> Same(c.t, d.t, x))
  }

  lemma AddFieldKeeps(c: Ctx, f: Field, x: nat)
    requires Inv(c) && !IsEmpty(f)
    ensures var a := AddField(c, f);
      && Sound(a.ctx.t) && (a.added <==> Size(f) <= c.t.max)
      && Kept(c, if a.added then Reference(a.ctx, 1) else a.ctx, x)
  {
    AddSound(c.t, f);
    var a := AddField(c, f);
    LiveIs(c.t, x);
    if Size(f) <= c.t.max {
      AddKeepsSlots(c.t, f, x);
      hide Sound, Add, Switch, Live;
    } else {
      assert forall s :: s in c.refs ==> Slot(s);
    }
  }

  lemma IndexKeeps(o: Outside, c: Ctx, i: nat, con: nat, x: nat)
    requires Statics(o.statics) && Inv(c) && !TooLarge(o.statics, c, i)
    ensures var s := Index(o, c, i, con); s.Ok? ==> Kept(c, s.ctx, x)
  {
    FewFields(c.t);
    LiveIs(c.t, x);
    var g := Get(c.t, o, i);
    if Switch(c.t, i) !in c.refs {
      if g.InStatic? { AddFieldKeeps(c, g.f, x); }
    }
    hide AddField, Live, Switch, Size;
  }

  lemma ResizeKeeps(c: Ctx, limit: nat, con: nat, x: nat)
    requires Inv(c) && !(limit % 0x1_0000 == 0 && c.refs != {})
    ensures var s := Resize(c, limit, con); s.Ok? ==> Kept(c, s.ctx, x)
  {
    var max := limit % 0x1_0000;
    LiveIs(c.t, x);
    if 0 < max <= MAX_SIZE { SetMaxKeepsSlots(c.t, max, x); }
    hide Live, Excess, Drop;
  }

  lemma LiteralKeeps(c: Ctx, first: Byte, f: Field, con: nat, x: nat)
    requires Inv(c)
    ensures var s := Literal(c, first, f, con); s.Ok? ==> Kept(c, s.ctx, x)
  {
    LiveIs(c.t, x);
    var g := f.(flags := f.flags.(rep := RepIncIndexed));
    if g.name != [] { AddFieldKeeps(c, g, x); }
    hide AddField, Live;
  }

  /** One step over octets. */
  lemma StepKeeps(code: Code, o: Outside, c: Ctx, b: seq<Byte>, offset: nat, x: nat)
    requires Statics(o.statics) && Inv(c) && offset < |b| && FieldAt(code, o, c, b, offset).Ok?
    requires !Upsets(o.statics, c, b, offset)
    ensures var d := FieldAt(code, o, c, b, offset).ctx;
      Kept(c, d, x) && !d.finished
  {
    var ctx := c.(finished := false);
    LiveIs(c.t, x);
    if b[offset] / 32 == 1 {
      if b[offset] != 0x30 { ResizeKeeps(ctx, IntAt(4, b, offset).value, IntAt(4, b, offset).consumed, x); }
    } else if b[offset] >= 128 {
      IndexKeeps(o, ctx, IntAt(7, b, offset).value, IntAt(7, b, offset).consumed, x);
    } else {
      var p := PairAt(code, o, ctx.t, b, offset);
      LiteralKeeps(ctx, b[offset], p.field, p.consumed, x);
    }
    hide Sound, Live, IntAt, PairAt, Switch, Size, Get;
  }

  lemma {:induction false} StaysReferenced(code: Code, w: World, c: Ctx, b: seq<Byte>, offset: nat)
    requires Statics(w.statics) && Sound(c.t) && offset <= |b|
    ensures Stays(code, w, c, b, offset) <= c.refs
  {
  }

  lemma BlockStep(code: Code, w: World, c: Ctx, b: seq<Byte>, offset: nat)
    requires Statics(w.statics) && Sound(c.t) && offset < |b| && Calm(code, w, c, b, offset)
    ensures var s := StepAt(code, w, c, b, offset); var next := offset + s.consumed;
      && s.Ok? && s.consumed >= 1 && next <= |b| && Sound(s.ctx.t)
      && !Upsets(w.statics, c, b, offset) && Calm(code, w, s.ctx, b, next)
      && Stays(code, w, c, b, offset) == c.refs * Stays(code, w, s.ctx, b, next)
      && Data(code, w, c, b, offset).ctx == Data(code, w, s.ctx, b, next).ctx
      && Data(code, w, c, b, offset).ok == Data(code, w, s.ctx, b, next).ok
  {
    hide FieldAt, Upsets, Sound, Statics, Around;
    FieldAtProgress(code, Around(w, c, b, offset), c, b, offset);
  }

  /** The context e behind the octets of a block that began with c: of what was pending, the slots
      of m still are, and they denote the same fields. */
  ghost predicate Outlives(c: Ctx, e: Ctx, m: set<nat>, x: nat)
    requires Inv(c) && Inv(e)
  {
    e.at == c.at && e.pending == c.pending * m && (Slot(x) && x in m ==> Same(c.t, e.t, x))
  }

  lemma KeptThen(c: Ctx, d: Ctx, e: Ctx, n: set<nat>, x: nat)
    requires Inv(c) && Inv(d) && Inv(e) && Kept(c, d, x) && n <= d.refs && Outlives(d, e, n, x)
    ensures Outlives(c, e, c.refs * n, x)
  {
    hide Sound, Live;
  }

  lemma BlockEnd(code: Code, w: World, c: Ctx, b: seq<Byte>, x: nat)
    requires Statics(w.statics) && Inv(c)
    ensures Data(code, w, c, b, |b|) == Run(true, c, [], 0) && Outlives(c, c, Stays(code, w, c, b, |b|), x)
  {
    LiveIs(c.t, x);
    hide Live, StepAt;
  }

  /** A calm block from offset on, what its octets emit, and the slots that stay referenced. */
  ghost predicate BlockIs(code: Code, w: World, c: Ctx, b: seq<Byte>, offset: nat, e: Run, m: set<nat>) {
    && Statics(w.statics) && Inv(c) && offset <= |b| && Calm(code, w, c, b, offset)
    && e == Data(code, w, c, b, offset) && m == Stays(code, w, c, b, offset)
  }

  lemma NextBlock(code: Code, w: World, c: Ctx, b: seq<Byte>, offset: nat, x: nat, e: Run, m: set<nat>)
    returns (next: nat, d: Ctx, f: Run, n: set<nat>)
    requires BlockIs(code, w, c, b, offset, e, m) && offset < |b|
    ensures offset < next <= |b| && BlockIs(code, w, d, b, next, f, n)
    ensures Inv(c) && Inv(d) && !d.finished && Kept(c, d, x) && e.ctx == f.ctx && e.ok == f.ok
    ensures m == c.refs * n && n <= d.refs
  {
    hide FieldAt, Around, Upsets, Sound, Statics, Live, Kept, Switch, Calm, Data, Stays;
    var s := StepAt(code, w, c, b, offset);
    BlockStep(code, w, c, b, offset);
    StepKeeps(code, Around(w, c, b, offset), c, b, offset, x);
    StepInv(code, Around(w, c, b, offset), c, b, offset);
    next, d := offset + s.consumed, s.ctx;
    StaysReferenced(code, w, d, b, next);
    f, n := Data(code, w, d, b, next), Stays(code, w, d, b, next);
  }

  /** The octets of a block leave pending what was pending and stayed referenced. */
  lemma {:induction false} DataKeeps(code: Code, w: World, c: Ctx, b: seq<Byte>, offset: nat, x: nat, e: Run, m: set<nat>)
    requires BlockIs(code, w, c, b, offset, e, m)
    ensures e.ok && Inv(c) && Inv(e.ctx) && e.ctx.finished == (c.finished && offset == |b|) && Outlives(c, e.ctx, m, x)
    decreases |b| - offset
  {
    hide StepAt, Upsets, Sound, Statics, Live, Kept, Switch, Calm, Data, Stays, Outlives;
    if offset < |b| {
      var next, d, f, n := NextBlock(code, w, c, b, offset, x, e, m);
      DataKeeps(code, w, d, b, next, x, f, n);
      KeptThen(c, d, e.ctx, n, x);
    } else {
      BlockEnd(code, w, c, b, x);
    }
  }

  lemma {:induction false} ParseIsDataThenFinal(code: Code, w: World, c: Ctx, b: seq<Byte>, offset: nat)
    requires Statics(w.statics) && Sound(c.t) && offset <= |b| && Calm(code, w, c, b, offset)
    ensures var e := Data(code, w, c, b, offset); var f := ParseAll(code, w, e.ctx, b, |b|);
      ParseAll(code, w, c, b, offset) == Run(f.ok, f.ctx, e.out + f.out, |b| - offset)
    decreases |b| - offset
  {
    hide FieldAt, Upsets, Sound, Statics, Around;
    FieldAtProgress(code, Around(w, c, b, offset), c, b, offset);
    var r := ParseAll(code, w, c, b, offset);
    if offset < |b| {
      var s := StepAt(code, w, c, b, offset);
      ParseIsDataThenFinal(code, w, s.ctx, b, offset + s.consumed);
      var e := Data(code, w, s.ctx, b, offset + s.consumed);
      Sequences.Associate(Emit(s.field), e.out, ParseAll(code, w, e.ctx, b, |b|).out);
    } else {
      assert [] + r.out == r.out;
    }
  }

  lemma {:induction false} FieldsOfNext(t: Table, m: set<nat>, at: nat)
    requires t.head < SLOTS && m <= Live(t)
    ensures var r := Next(m, at);
      if r == -1 then FieldsOf(t, m, at) == []
      else Slot(r) && PlaceOf(t, r) < |t.fields| && FieldsOf(t, m, at) == [Denotes(t, r)] + FieldsOf(t, m - {r}, r + 1)
    decreases SLOTS - at
  {
    if at < SLOTS {
      LiveIs(t, at);
      if at in m {
        FieldsOfAbove(t, m, m - {at}, at + 1);
      } else {
        FieldsOfNext(t, m, at + 1);
      }
    }
  }

  lemma {:induction false} FieldsOfAbove(t: Table, m: set<nat>, n: set<nat>, at: nat)
    requires t.head < SLOTS && m <= Live(t) && n <= Live(t)
    requires forall s :: s in m && at <= s ==> s in n
    requires forall s :: s in n && at <= s ==> s in m
    ensures FieldsOf(t, m, at) == FieldsOf(t, n, at)
    decreases SLOTS - at
  {
    if at < SLOTS { FieldsOfAbove(t, m, n, at + 1); }
  }

  /** At the end of the block each pending field is emitted once. */
  lemma {:induction false} FinalEmits(code: Code, w: World, c: Ctx, b: seq<Byte>)
    requires Statics(w.statics) && Inv(c) && !c.finished
    ensures ParseAll(code, w, c, b, |b|) ==
      Run(true, c.(finished := true, pending := c.refs, at := 0), FieldsOf(c.t, c.pending, c.at), 0)
    decreases SLOTS - c.at
  {
    assert c.t.head < SLOTS;
    hide Live, Sound, Denotes, FieldAt, Around, Switch, Next, Statics, FieldsOf, PlaceOf;
    FieldAtProgress(code, Around(w, c, b, |b|), c, b, |b|);
    FieldsOfNext(c.t, c.pending, c.at);
    var r := Next(c.pending, c.at);
    if r != -1 {
      FinalStep(code, w, c, b, r);
      hide StepAt;
      FinalEmits(code, w, c.(pending := c.pending - {r}, at := r + 1), b);
    } else {
      FinalStop(code, w, c, b);
      hide StepAt;
    }
  }

  lemma FinalStop(code: Code, w: World, c: Ctx, b: seq<Byte>)
    requires Statics(w.statics) && Inv(c) && !c.finished && Next(c.pending, c.at) == -1
    ensures StepAt(code, w, c, b, |b|) == Eof(c.(finished := true, pending := c.refs, at := 0))
  {
    hide Live, Sound, Switch, Statics, Get;
  }

  lemma FinalStep(code: Code, w: World, c: Ctx, b: seq<Byte>, r: nat)
    requires Statics(w.statics) && Inv(c) && !c.finished && r == Next(c.pending, c.at)
    ensures Slot(r) && c.t.head < SLOTS && PlaceOf(c.t, r) < |c.t.fields|
    ensures StepAt(code, w, c, b, |b|) == Ok(c.(pending := c.pending - {r}, at := r + 1), Denotes(c.t, r), 0)
    ensures !IsEmpty(Denotes(c.t, r))
  {
    FewFields(c.t);
    LiveIs(c.t, r);
    SwitchSlot(c.t, r);
    assert !IsEmpty(c.t.fields[PlaceOf(c.t, r)]);
    hide Live, Used;
  }

  /** Between blocks every reference is pending. */
  ghost predicate AtStart(c: Ctx) {
    Inv(c) && c.pending == c.refs && c.at == 0
  }

  /** A block emits what its octets say and then, each exactly once, the fields that were referenced
      when it began and stayed so, as they were when it began; and it leaves the context ready for
      the next block. */
  lemma BlockEmits(code: Code, w: World, c: Ctx, b: seq<Byte>, offset: nat)
    requires Statics(w.statics) && AtStart(c) && offset <= |b| && Calm(code, w, c, b, offset)
    requires offset < |b| || !c.finished
    ensures var r, d, m := ParseAll(code, w, c, b, offset), Data(code, w, c, b, offset), Stays(code, w, c, b, offset);
      && m <= c.refs && m <= Live(c.t)
      && r.ok && r.out == d.out + FieldsOf(c.t, m, 0) && |FieldsOf(c.t, m, 0)| == |m|
      && r.consumed == |b| - offset && AtStart(r.ctx) && r.ctx.refs == d.ctx.refs && r.ctx.t == d.ctx.t
  {
    var d, m := Data(code, w, c, b, offset), Stays(code, w, c, b, offset);
    StaysReferenced(code, w, c, b, offset);
    ParseIsDataThenFinal(code, w, c, b, offset);
    DataKeeps(code, w, c, b, offset, 0, d, m);
    FinalEmits(code, w, d.ctx, b);
    forall x: nat | Slot(x) && x in m ensures Same(c.t, d.ctx.t, x) { DataKeeps(code, w, c, b, offset, x, d, m); }
    assert d.ctx.pending == m;
    hide ParseAll, Data, Stays, Calm, Sound, Live;
    FieldsOfSame(c.t, d.ctx.t, m, 0);
    FieldsOfCount(c.t, m, 0);
    assert From(m, 0) == m;
  }

  lemma {:induction false} FieldsOfSame(t: Table, u: Table, m: set<nat>, at: nat)
    requires t.head < SLOTS && u.head < SLOTS && m <= Live(t) && m <= Live(u)
    requires forall x: nat :: Slot(x) && x in m ==> Same(t, u, x)
    ensures FieldsOf(t, m, at) == FieldsOf(u, m, at)
    decreases SLOTS - at
  {
    if at < SLOTS {
      FieldsOfSame(t, u, m, at + 1);
      assert at in m ==> Slot(at) && Same(t, u, at);
    }
  }

  /** Between blocks a block without octets emits nothing, whatever is referenced. */
  lemma EmptyBlockAfterBlock(code: Code, w: World, c: Ctx, b: seq<Byte>)
    requires Statics(w.statics) && AtStart(c)
    ensures ParseAll(code, w, c, b, |b|).out == FieldsOf(c.t, c.refs, 0) <==> !c.finished || c.refs == {}
  {
    if c.finished {
      FieldsOfCount(c.t, c.refs, 0);
      assert From(c.refs, 0) == c.refs;
    } else {
      FinalEmits(code, w, c, b);
    }
  }

  // --- The end of a block with the iterator as it is written --------------------------------

  /** What is emitted, and whether no call was undefined. */
  datatype Emission = Emission(out: seq<Field>, defined: bool)

  ghost function FinalAsWritten(t: Table, m: set<nat>, at: nat): Emission
    requires t.head < SLOTS && m <= Live(t)
    decreases SLOTS - at
  {
    match NextIn(m, at)
    case Exhausted => Emission([], true)
    case Undefined => Emission([], false)
    case Found(r) =>
      LiveIs(t, r);
      var rest := FinalAsWritten(t, m - {r}, r + 1);
      Emission([Denotes(t, r)] + rest.out, rest.defined)
  }

  /** out has the fields of the slots. */
  ghost predicate Along(t: Table, slots: seq<nat>, out: seq<Field>)
    requires t.head < SLOTS
  {
    |slots| == |out| && forall k :: 0 <= k < |slots| ==> FieldIs(t, slots[k], out[k])
  }

  ghost predicate FieldIs(t: Table, s: nat, f: Field)
    requires t.head < SLOTS
  {
    Slot(s) && PlaceOf(t, s) < |t.fields| && f == Denotes(t, s)
  }

  lemma AlongMore(t: Table, slots: seq<nat>, out: seq<Field>, s: nat, f: Field)
    requires t.head < SLOTS && Along(t, slots, out) && FieldIs(t, s, f)
    ensures Along(t, [s] + slots, [f] + out)
  {
    hide FieldIs;
  }

  lemma AlongSame(t: Table, slots: seq<nat>, a: seq<Field>, b: seq<Field>)
    requires t.head < SLOTS && Along(t, slots, a) && Along(t, slots, b)
    ensures a == b
  {
    forall k | 0 <= k < |a| ensures a[k] == b[k] { assert FieldIs(t, slots[k], a[k]) && FieldIs(t, slots[k], b[k]); }
  }

  lemma {:induction false} FinalAlong(t: Table, m: set<nat>, at: nat)
    requires t.head < SLOTS && m <= Live(t)
    ensures FinalAsWritten(t, m, at).defined == Listed(m, at).defined
    ensures Along(t, Listed(m, at).slots, FinalAsWritten(t, m, at).out)
    decreases SLOTS - at
  {
    hide Live, Denotes, NextIn, Along, FieldIs;
    match NextIn(m, at)
    case Exhausted => NoneAlong(t);
    case Undefined => NoneAlong(t);
    case Found(r) =>
      LiveField(t, r);
      FinalAlong(t, m - {r}, r + 1);
      ListedAbove(m - {r}, m, r + 1);
      AlongMore(t, Listed(m, r + 1).slots, FinalAsWritten(t, m - {r}, r + 1).out, r, Denotes(t, r));
  }

  lemma NoneAlong(t: Table)
    requires t.head < SLOTS
    ensures Along(t, [], [])
  {
  }

  lemma LiveField(t: Table, s: nat)
    requires t.head < SLOTS && s in Live(t)
    ensures Slot(s) && PlaceOf(t, s) < |t.fields| && FieldIs(t, s, Denotes(t, s))
  {
  }

  lemma {:induction false} FieldsAlong(t: Table, m: set<nat>, at: nat)
    requires t.head < SLOTS && m <= Live(t)
    ensures Along(t, Ascending(m, at), FieldsOf(t, m, at))
    decreases SLOTS - at
  {
    hide Live, Denotes, Along, FieldIs;
    if at >= SLOTS {
      NoneAlong(t);
    } else {
      FieldsAlong(t, m, at + 1);
      if at in m {
        LiveField(t, at);
        AlongMore(t, Ascending(m, at + 1), FieldsOf(t, m, at + 1), at, Denotes(t, at));
      }
    }
  }

  /** With the iterator as it is written, the end of a block emits each pending field once, in slot order, if
      and only if the pending slots are safe. */
  lemma EmitsAsWritten(t: Table, m: set<nat>)
    requires t.head < SLOTS && m <= Live(t)
    ensures FinalAsWritten(t, m, 0) == Emission(FieldsOf(t, m, 0), true) <==> Safe(m)
  {
    FinalAlong(t, m, 0);
    FieldsAlong(t, m, 0);
    WholeIteration(m);
    hide Live, FinalAsWritten, FieldsOf, Listed, Ascending, Safe, FieldIs;
    if Safe(m) { AlongSame(t, Ascending(m, 0), FinalAsWritten(t, m, 0).out, FieldsOf(t, m, 0)); }
  }

  /** So what BlockEmits says of a block holds of the code if and only if the slots that were referenced when
      the block began and stayed so are safe. */
  lemma BlockAsWritten(code: Code, w: World, c: Ctx, b: seq<Byte>, offset: nat)
    requires Statics(w.statics) && AtStart(c) && offset <= |b| && Calm(code, w, c, b, offset)
    ensures var d, m := Data(code, w, c, b, offset), Stays(code, w, c, b, offset);
      && d.ok && d.ctx.pending == m && d.ctx.at == 0 && m <= Live(c.t) && m <= Live(d.ctx.t)
      && (FinalAsWritten(d.ctx.t, m, 0) == Emission(FieldsOf(c.t, m, 0), true) <==> Safe(m))
  {
    var d, m := Data(code, w, c, b, offset), Stays(code, w, c, b, offset);
    StaysReferenced(code, w, c, b, offset);
    DataKeeps(code, w, c, b, offset, 0, d, m);
    forall x: nat | Slot(x) && x in m ensures Same(c.t, d.ctx.t, x) { DataKeeps(code, w, c, b, offset, x, d, m); }
    assert d.ctx.pending == m;
    hide Data, Stays, Calm, Sound, Live, FinalAsWritten, FieldsOf, Safe;
    EmitsAsWritten(d.ctx.t, m);
    FieldsOfSame(c.t, d.ctx.t, m, 0);
  }
}
