/** Which blocks the parser of libhpack/header_parser.c accepts, in terms of the specification alone: what
    the octets of a block ask for is done, unless the parser gives up on one of the listed encodings or one
    of the listed requests falls into a pit. */
module HeaderAccepts {
  import Integers
  import HuffmanCode
  import HuffmanTable
  import Huffman
  import opened Bits
  import opened BitmapSets
  import opened HeaderFifo
  import opened HeaderBlocks
  import opened HeaderRuns
  import opened HeaderDrafts

  // --- Integers -----------------------------------------------------------------------------------

  /** An integer that the parser gives up on: it does not end within what is left, modulo 256, or within six
      octets, or it needs more than 32 bits. */
  predicate IntLost(n: nat, b: seq<Byte>, offset: nat)
    requires 1 <= n <= 8 && offset <= |b|
  {
    match IntMeant(n, b, offset)
    case Bad => false
    case Decoded(v, con) => con > 1 && (con > (|b| - offset) % 256 || con > 6 || v > 0xFFFF_FFFF)
  }

  lemma {:induction false} GroupsComplete(mem: seq<Byte>, m: nat, i: nat, acc: nat)
    requires 1 <= i && m <= |mem| && MeantGroups(mem, i, acc).Decoded?
    ensures var d := MeantGroups(mem, i, acc);
      && d.consumed > i
      && Integers.DecodeGroups(mem + [0], m, i, acc) ==
        if d.consumed <= m && d.value <= 0xFFFF_FFFF then d else Integers.Bad
    decreases |mem| - i
  {
    if i < |mem| {
      assert (mem + [0])[i] == mem[i];
      if mem[i] >= 128 { GroupsComplete(mem, m, i + 1, acc + Shl(mem[i] % 128, 7 * (i - 1))); }
    }
  }

  /** The parser reads exactly the integers that it does not give up on, and as they are meant. */
  lemma IntCompletes(n: nat, b: seq<Byte>, offset: nat)
    requires 1 <= n <= 8 && offset < |b|
    ensures IntAt(n, b, offset) == if IntLost(n, b, offset) then Integers.Bad else IntMeant(n, b, offset)
  {
    if IntMeant(n, b, offset).Decoded? { IntRead(n, b, offset); }
    hide IntAt, IntMeant;
    if IntAt(n, b, offset).Decoded? { IntAgrees(n, b, offset); }
  }

  lemma IntRead(n: nat, b: seq<Byte>, offset: nat)
    requires 1 <= n <= 8 && offset < |b| && IntMeant(n, b, offset).Decoded?
    ensures IntAt(n, b, offset) == if IntLost(n, b, offset) then Integers.Bad else IntMeant(n, b, offset)
  {
    hide IntAt;
    IntFirst(n, b, offset);
    Integers.LimitIs(n);
    Integers.AndMask(b[offset], n);
    hide And, Pow2, Integers.Limit, Integers.DecodeGroups, MeantGroups;
    var first, m := b[offset] % Pow2(n), Integers.Min((|b| - offset) % 256, Integers.VLQ_MAX_LEN);
    if first == Pow2(n) - 1 { GroupsComplete(b[offset..], m, 1, first); }
  }

  // --- Strings ------------------------------------------------------------------------------------

  lemma TextCompletes(code: Code, raw: seq<Byte>)
    requires HuffmanCode.Good(code) && TextMeant(code, raw).Text?
    ensures HuffmanText(code, raw) == TextMeant(code, raw)
  {
    HuffmanCode.RootIsInner(code);
    hide HuffmanCode.Good, HuffmanCode.Inner, HuffmanCode.Decode, Huffman.DecodeNibbles, HuffmanTable.Accepting;
    Huffman.NibblesAgree(code, [], BytesBits(raw), 2 * |raw|);
  }

  lemma StringMeantInside(code: Code, b: seq<Byte>, offset: nat)
    requires HuffmanCode.Good(code) && offset <= |b| && StringMeant(code, b, offset).Str?
    ensures var d := IntMeant(7, b, offset); offset < |b| && d.Decoded? && offset + d.consumed + d.value <= |b|
  {
    hide HuffmanCode.Good, TextMeant, MeantGroups;
  }

  /** The parser reads every string that is meant unless it gives up on its length. */
  lemma StringCompletes(code: Code, b: seq<Byte>, offset: nat)
    requires HuffmanCode.Good(code) && offset <= |b| && StringMeant(code, b, offset).Str?
    ensures StringAt(code, b, offset) == if IntLost(7, b, offset) then NoStr(Malformed) else StringMeant(code, b, offset)
  {
    StringMeantInside(code, b, offset);
    IntCompletes(7, b, offset);
    var len, con := IntMeant(7, b, offset).value, IntMeant(7, b, offset).consumed;
    if !IntLost(7, b, offset) && b[offset] >= 128 {
      EncodedMeant(code, b, offset, len, con);
      EncodedRead(code, b, offset, len, con);
      hide HuffmanCode.Good, HuffmanText, TextMeant, IntAt, IntMeant, IntLost, StringAt, StringMeant;
      TextCompletes(code, b[offset + con..offset + con + len]);
    } else {
      hide HuffmanCode.Good, HuffmanText, TextMeant, IntAt, IntMeant, IntLost;
    }
  }

  // --- Names and values -----------------------------------------------------------------------------

  /** The parser gives up on the index of a name, or on the length of a new one. */
  predicate NameLost(b: seq<Byte>, offset: nat)
    requires offset < |b|
  {
    if HasIndex(b[offset]) then IntLost(if b[offset] >= 64 then 6 else 4, b, offset) else IntLost(7, b, offset + 1)
  }

  lemma IndexBits(first: Byte)
    requires IsLiteral(first) && !PrefixSplit(first)
    ensures HasIndex(first) <==> first % 16 != 0
    ensures first >= 64 <==> first / 64 != 0
  {
  }

  lemma NameByIndex(code: Code, o: Outside, c: Ctx, b: seq<Byte>, offset: nat)
    requires HuffmanCode.Good(code) && |o.statics| == STATIC_ENTRIES && Sound(c.t) && offset < |b|
    requires IsLiteral(b[offset]) && !PrefixSplit(b[offset]) && HasIndex(b[offset])
    requires NameMeant(code, o.statics, Seen(c), b, offset).Pair?
    ensures NameAt(code, o, c.t, b, offset) ==
      if NameLost(b, offset) then NoPair(Malformed) else NameMeant(code, o.statics, Seen(c), b, offset)
  {
    hide HuffmanCode.Good, Sound, Seen, Get, NameFrom, IntAt, IntMeant, IntLost, StringAt, StringMeant, HasIndex;
    IndexBits(b[offset]);
    var n := if b[offset] >= 64 then 6 else 4;
    var i, con := MeantIndex(code, o.statics, Seen(c), b, offset);
    IntCompletes(n, b, offset);
    FewEntries(c);
    NamesAgree(o, c, i, con);
    hide NameMeant, NameOf, PrefixSplit, IsLiteral;
  }

  lemma MeantIndex(code: Code, statics: seq<Field>, c: Context, b: seq<Byte>, offset: nat) returns (i: nat, con: nat)
    requires HuffmanCode.Good(code) && |statics| == STATIC_ENTRIES && offset < |b|
    requires HasIndex(b[offset]) && NameMeant(code, statics, c, b, offset).Pair?
    ensures IntMeant(if b[offset] >= 64 then 6 else 4, b, offset) == Integers.Decoded(i, con)
    ensures 1 <= i <= |c.entries| + STATIC_ENTRIES && NameMeant(code, statics, c, b, offset) == NameOf(c, statics, i, con)
  {
    hide HuffmanCode.Good, IntMeant, StringMeant, HasIndex;
    var d := IntMeant(if b[offset] >= 64 then 6 else 4, b, offset);
    i, con := d.value, d.consumed;
  }

  lemma FewEntries(c: Ctx)
    requires Sound(c.t)
    ensures |Seen(c).entries| == |c.t.fields| <= 124
  {
    FewFields(c.t);
  }

  lemma NameAnew(code: Code, o: Outside, c: Ctx, b: seq<Byte>, offset: nat)
    requires HuffmanCode.Good(code) && |o.statics| == STATIC_ENTRIES && Sound(c.t) && offset < |b|
    requires IsLiteral(b[offset]) && !PrefixSplit(b[offset]) && !HasIndex(b[offset])
    requires NameMeant(code, o.statics, Seen(c), b, offset).Pair?
    ensures NameAt(code, o, c.t, b, offset) ==
      if NameLost(b, offset) then NoPair(Malformed) else NameMeant(code, o.statics, Seen(c), b, offset)
  {
    IndexBits(b[offset]);
    hide HuffmanCode.Good, Sound, Seen, Get, NameFrom, NameOf, IntAt, IntMeant, IntLost, StringAt, StringMeant, HasIndex;
    StringCompletes(code, b, offset + 1);
  }

  lemma NameCompletes(code: Code, o: Outside, c: Ctx, b: seq<Byte>, offset: nat)
    requires HuffmanCode.Good(code) && |o.statics| == STATIC_ENTRIES && Sound(c.t) && offset < |b|
    requires IsLiteral(b[offset]) && !PrefixSplit(b[offset]) && NameMeant(code, o.statics, Seen(c), b, offset).Pair?
    ensures NameAt(code, o, c.t, b, offset) ==
      if NameLost(b, offset) then NoPair(Malformed) else NameMeant(code, o.statics, Seen(c), b, offset)
  {
    hide *;
    if HasIndex(b[offset]) { NameByIndex(code, o, c, b, offset); } else { NameAnew(code, o, c, b, offset); }
  }

  /** A pair that is meant by its name and its value. */
  lemma MeantParts(code: Code, statics: seq<Field>, c: Context, b: seq<Byte>, offset: nat)
    requires HuffmanCode.Good(code) && |statics| == STATIC_ENTRIES && offset < |b| && PairMeant(code, statics, c, b, offset).Pair?
    ensures var name, p := NameMeant(code, statics, c, b, offset), PairMeant(code, statics, c, b, offset);
      && name.Pair? && offset + name.consumed <= |b| && StringMeant(code, b, offset + name.consumed).Str?
      && p == WithValue(name, StringMeant(code, b, offset + name.consumed))
  {
    hide HuffmanCode.Good, NameMeant, StringMeant;
  }

  function WithValue(name: Pair, v: Str): (p: Pair)
    requires name.Pair? && v.Str?
    ensures p.Pair? && p.field.name == name.field.name
  {
    var f := name.field;
    Pair(f.(value := v.bytes, flags := f.flags.(value := if v.huffman then IsNewHuffman else IsNew)), name.consumed + v.consumed)
  }

  lemma ReadParts(code: Code, o: Outside, t: Table, b: seq<Byte>, offset: nat)
    requires |o.statics| == STATIC_ENTRIES && offset < |b|
    ensures var name := NameAt(code, o, t, b, offset);
      PairAt(code, o, t, b, offset) ==
        if name.NoPair? then NoPair(name.why)
        else if StringAt(code, b, offset + name.consumed).NoStr? then NoPair(StringAt(code, b, offset + name.consumed).why)
        else WithValue(name, StringAt(code, b, offset + name.consumed))
  {
    hide NameAt, StringAt;
  }

  /** The parser reads every name and value that are meant unless it gives up on one of their integers. */
  lemma PairCompletes(code: Code, o: Outside, c: Ctx, b: seq<Byte>, offset: nat)
    requires HuffmanCode.Good(code) && |o.statics| == STATIC_ENTRIES && Sound(c.t) && offset < |b|
    requires IsLiteral(b[offset]) && !PrefixSplit(b[offset])
    requires PairMeant(code, o.statics, Seen(c), b, offset).Pair?
    ensures var name := NameMeant(code, o.statics, Seen(c), b, offset);
      && name.Pair? && offset + name.consumed <= |b|
      && PairAt(code, o, c.t, b, offset) ==
        if NameLost(b, offset) || IntLost(7, b, offset + name.consumed) then NoPair(Malformed)
        else PairMeant(code, o.statics, Seen(c), b, offset)
  {
    hide *;
    MeantParts(code, o.statics, Seen(c), b, offset);
    NameCompletes(code, o, c, b, offset);
    StringCompletes(code, b, offset + NameMeant(code, o.statics, Seen(c), b, offset).consumed);
    ReadParts(code, o, c.t, b, offset);
  }

  // --- What the parser refuses ----------------------------------------------------------------------

  /** The parser gives up on an integer of a literal, or on a field without a name that is to be inserted. */
  ghost predicate LiteralLost(code: Code, statics: seq<Field>, c: Context, b: seq<Byte>, offset: nat)
    requires HuffmanCode.Good(code) && |statics| == STATIC_ENTRIES && offset < |b|
  {
    NameLost(b, offset) ||
    match NameMeant(code, statics, c, b, offset)
    case NoPair(why) => false
    case Pair(f, n) => offset + n <= |b| && (IntLost(7, b, offset + n) || (b[offset] / 64 == 1 && f.name == []))
  }

  /** Requests that are in order and that the parser refuses all the same. */
  ghost predicate Refuses(code: Code, statics: seq<Field>, c: Context, b: seq<Byte>, offset: nat)
    requires HuffmanCode.Good(code) && |statics| == STATIC_ENTRIES && offset < |b|
  {
    var first := b[offset];
    if first == 0x30 then false
    else if first / 32 == 1 then IntLost(4, b, offset)
    else if first >= 128 then IntLost(7, b, offset)
    else LiteralLost(code, statics, c, b, offset)
  }

  lemma UpdateCompletes(code: Code, statics: seq<Field>, c: Ctx, b: seq<Byte>, offset: nat)
    requires HuffmanCode.Good(code) && Statics(statics) && Inv(c) && offset < |b| && b[offset] / 32 == 1
    requires AskedAt(code, statics, Seen(c), b, offset).Asks?
    ensures UpdateAt(c, b, offset).Ok? <==> !Refuses(code, statics, Seen(c), b, offset)
  {
    hide HuffmanCode.Good, Sound, Live, Seen, SetMax, IntAt, IntMeant, IntLost, PairMeant;
    if b[offset] != 0x30 { IntCompletes(4, b, offset); }
  }

  /** Every index of an entry is accepted. */
  lemma IndexCompletes(o: Outside, c: Ctx, i: nat, con: nat)
    requires Statics(o.statics) && Inv(c) && 1 <= i <= |c.t.fields| + STATIC_ENTRIES
    ensures Index(o, c, i, con).Ok?
  {
    hide Sound, Live, Switch, AddField, Reference, Unreference;
  }

  lemma IndexedCompletes(code: Code, o: Outside, c: Ctx, b: seq<Byte>, offset: nat)
    requires HuffmanCode.Good(code) && Statics(o.statics) && Inv(c) && offset < |b| && b[offset] >= 128
    requires AskedAt(code, o.statics, Seen(c), b, offset).Asks?
    ensures IndexedAt(o, c, b, offset).Ok? <==> !Refuses(code, o.statics, Seen(c), b, offset)
  {
    FewEntries(c);
    hide HuffmanCode.Good, Inv, Sound, Seen, Index, IntAt, IntMeant, IntLost, PairMeant;
    IntCompletes(7, b, offset);
    if !IntLost(7, b, offset) {
      assert Sound(c.t) by { assert Inv(c); }
      var d := IntMeant(7, b, offset);
      IndexCompletes(o, c, d.value, d.consumed);
    }
  }

  lemma LiteralAccepted(c: Ctx, first: Byte, f: Field, con: nat)
    requires Sound(c.t)
    ensures Literal(c, first, f, con).Ok? <==> !(first / 64 == 1 && f.name == [])
  {
    hide Sound, AddField, Reference;
  }

  lemma LiteralCompletes(code: Code, o: Outside, c: Ctx, b: seq<Byte>, offset: nat)
    requires HuffmanCode.Good(code) && Statics(o.statics) && Sound(c.t) && offset < |b|
    requires IsLiteral(b[offset]) && !PrefixSplit(b[offset])
    requires PairMeant(code, o.statics, Seen(c), b, offset).Pair?
    ensures var p := PairAt(code, o, c.t, b, offset);
      p.Pair? && Literal(c, b[offset], p.field, p.consumed).Ok? <==> !LiteralLost(code, o.statics, Seen(c), b, offset)
  {
    hide HuffmanCode.Good, Sound, Seen, NameMeant, NameLost, IntLost, PairAt, PairMeant, Literal, WithValue, StringMeant;
    PairCompletes(code, o, c, b, offset);
    MeantParts(code, o.statics, Seen(c), b, offset);
    var p := PairMeant(code, o.statics, Seen(c), b, offset);
    LiteralAccepted(c, b[offset], p.field, p.consumed);
  }

  /** A request that is in order is carried out if and only if it is not one of those the parser refuses.
      Only the three octets whose index is misread are left out. */
  lemma StepCompletes(code: Code, o: Outside, c: Ctx, b: seq<Byte>, offset: nat)
    requires HuffmanCode.Good(code) && Statics(o.statics) && Inv(c) && offset < |b| && !PrefixSplit(b[offset])
    requires AskedAt(code, o.statics, Seen(c), b, offset).Asks?
    ensures FieldAt(code, o, c, b, offset).Ok? <==> !Refuses(code, o.statics, Seen(c), b, offset)
  {
    SeenUnfinished(c);
    var d := c.(finished := false);
    hide Live, Sound, Seen, UpdateAt, IndexedAt, PairAt, PairMeant, Literal, LiteralLost, IntLost, IntMeant, HuffmanCode.Good;
    if b[offset] / 32 == 1 {
      UpdateCompletes(code, o.statics, d, b, offset);
    } else if b[offset] >= 128 {
      IndexedCompletes(code, o, d, b, offset);
    } else {
      LiteralCompletes(code, o, d, b, offset);
    }
  }

  lemma SeenUnfinished(c: Ctx)
    requires Sound(c.t)
    ensures Seen(c.(finished := false)) == Seen(c)
  {
    hide Sound;
  }

  /** A step that is none of the departures succeeds exactly on a request that is in order and not refused. */
  lemma StepDecides(code: Code, o: Outside, c: Ctx, b: seq<Byte>, offset: nat)
    requires HuffmanCode.Good(code) && Statics(o.statics) && Inv(c) && offset < |b| && !Departs(code, o, c, b, offset)
    ensures FieldAt(code, o, c, b, offset).Ok? <==>
      AskedAt(code, o.statics, Seen(c), b, offset).Asks? && !Refuses(code, o.statics, Seen(c), b, offset)
  {
    assert !PrefixSplit(b[offset]) by { hide Sound, Upsets, Aliased, LimitCut, IndexCut, PaddingIgnored, PairAt; }
    hide Inv, Sound, Seen, AskedAt, FieldAt, Departs, Refuses, HuffmanCode.Good;
    if AskedAt(code, o.statics, Seen(c), b, offset).Asks? { StepCompletes(code, o, c, b, offset); }
    if FieldAt(code, o, c, b, offset).Ok? { StepRefines(code, o, c, b, offset); }
  }

  // --- Where the parser departs ---------------------------------------------------------------------

  ghost predicate AnyReferenced(c: Context) {
    exists k :: 0 <= k < |c.entries| && c.entries[k].referenced
  }

  /** The requests that the parser carries out in another way than it is meant: a limit of zero while there
      are references, an index above 128 that passes for the one 128 below it, a static entry that is too
      large, and a field that is too large for a limit that is not the largest one. */
  ghost predicate Pitfall(statics: seq<Field>, c: Context, r: Request)
    requires |statics| == STATIC_ENTRIES
    requires r.Indexed? ==> 1 <= r.i <= |c.entries| + STATIC_ENTRIES
  {
    match r
    case Emptied => false
    case Literally(f) => false
    case Limited(max) => max == 0 && AnyReferenced(c)
    case Inserted(f) => Size(f) > c.max && c.max != MAX_SIZE
    case Indexed(i) =>
      var n := |c.entries|;
      (i > n && Size(statics[i - n - 1]) > c.max) || (i > 128 && c.entries[n + 128 - i].referenced)
  }

  lemma ReferencedSeen(c: Ctx)
    requires Inv(c)
    ensures AnyReferenced(Seen(c)) <==> c.refs != {}
  {
    FewFields(c.t);
    assert c.refs <= Live(c.t) && c.t.head < SLOTS;
    if c.refs != {} {
      var s :| s in c.refs;
      LiveIs(c.t, s);
      hide Sound, Live;
      SeenAt(c, PlaceOf(c.t, s));
      assert Seen(c).entries[PlaceOf(c.t, s)].referenced;
    } else {
      hide Sound, Live;
      forall k | 0 <= k < |Seen(c).entries| ensures !Seen(c).entries[k].referenced { SeenAt(c, k); }
    }
  }

  /** An index above 128 stands for the one 128 below it. */
  lemma AliasSeen(c: Ctx, i: nat)
    requires Inv(c) && SLOTS < i <= |c.t.fields| + STATIC_ENTRIES
    ensures |c.t.fields| < SLOTS && |Seen(c).entries| == |c.t.fields|
    ensures var n := |c.t.fields|;
      Switch(c.t, i) in c.refs <==> Seen(c).entries[n + SLOTS - i].referenced
  {
    FewFields(c.t);
    var n, j := |c.t.fields|, i - SLOTS;
    SameSwitch(c.t, j);
    SwitchIndex(c.t, j);
    hide Sound, Live;
    SeenAt(c, n - j);
  }

  lemma SameSwitch(t: Table, j: nat)
    requires t.head < SLOTS && |t.fields| < SLOTS && j <= SLOTS
    ensures Switch(t, j + SLOTS) == Switch(t, j)
  {
  }

  lemma IndexPitfall(o: Outside, c: Ctx, i: nat)
    requires Statics(o.statics) && Inv(c) && 1 <= i <= |c.t.fields| + STATIC_ENTRIES
    ensures |c.t.fields| < SLOTS && |Seen(c).entries| == |c.t.fields|
    ensures TooLarge(o.statics, c, i) || (i > SLOTS && Switch(c.t, i) in c.refs) <==> Pitfall(o.statics, Seen(c), Indexed(i))
  {
    FewEntries(c);
    if i > SLOTS { AliasSeen(c, i); } else if i > |c.t.fields| { DeadIndex(c.t, i); }
    assert Seen(c).max == c.t.max;
    assert c.refs <= Live(c.t) && c.t.head < SLOTS;
    hide Sound, Live, Seen, Switch;
  }

  lemma IndexedPitfall(code: Code, o: Outside, c: Ctx, b: seq<Byte>, offset: nat)
    requires HuffmanCode.Good(code) && Statics(o.statics) && Inv(c) && offset < |b| && b[offset] >= 128
    requires AskedAt(code, o.statics, Seen(c), b, offset).Asks? && !IntLost(7, b, offset)
    ensures AskedAt(code, o.statics, Seen(c), b, offset).r.Indexed?
    ensures StaticTooLarge(o.statics, c, b, offset) || Aliased(c, b, offset) || IndexZero(b, offset) <==>
      Pitfall(o.statics, Seen(c), AskedAt(code, o.statics, Seen(c), b, offset).r)
  {
    assert Sound(c.t);
    hide HuffmanCode.Good, Inv, Sound, Seen, TooLarge, Switch, IntAt, IntMeant, IntLost, PairMeant, Pitfall;
    FewEntries(c);
    IntCompletes(7, b, offset);
    ZeroIndex(b, offset);
    IndexPitfall(o, c, IntMeant(7, b, offset).value);
  }

  lemma LimitPitfall(code: Code, statics: seq<Field>, c: Ctx, b: seq<Byte>, offset: nat)
    requires HuffmanCode.Good(code) && Statics(statics) && Inv(c) && offset < |b| && b[offset] / 32 == 1
    requires AskedAt(code, statics, Seen(c), b, offset).Asks? && !Refuses(code, statics, Seen(c), b, offset)
    ensures !AskedAt(code, statics, Seen(c), b, offset).r.Indexed?
    ensures LimitZero(c, b, offset) || FlagIgnored(b[offset]) || LimitCut(b, offset) <==>
      Pitfall(statics, Seen(c), AskedAt(code, statics, Seen(c), b, offset).r)
  {
    hide HuffmanCode.Good, Sound, Live, Seen, IntAt, IntMeant, IntLost, PairMeant, AnyReferenced;
    ReferencedSeen(c);
    if b[offset] != 0x30 { IntCompletes(4, b, offset); }
  }

  /** Nothing that is meant and read has an index that is cut or ends in something else than padding. */
  lemma LiteralSafe(code: Code, o: Outside, c: Ctx, b: seq<Byte>, offset: nat)
    requires HuffmanCode.Good(code) && |o.statics| == STATIC_ENTRIES && Sound(c.t) && offset < |b|
    requires IsLiteral(b[offset]) && !PrefixSplit(b[offset])
    requires PairMeant(code, o.statics, Seen(c), b, offset).Pair? && PairAt(code, o, c.t, b, offset).Pair?
    ensures PairAt(code, o, c.t, b, offset) == PairMeant(code, o.statics, Seen(c), b, offset)
    ensures !IndexCut(b, offset) && !PaddingIgnored(code, o, c.t, b, offset)
  {
    hide *;
    PairCompletes(code, o, c, b, offset);
    PairAgrees(code, o, c, b, offset);
  }

  lemma LiteralPitfall(code: Code, o: Outside, c: Ctx, b: seq<Byte>, offset: nat)
    requires HuffmanCode.Good(code) && Statics(o.statics) && Sound(c.t) && offset < |b|
    requires IsLiteral(b[offset]) && !PrefixSplit(b[offset])
    requires PairMeant(code, o.statics, Seen(c), b, offset).Pair? && PairAt(code, o, c.t, b, offset).Pair?
    ensures LiteralDeparts(code, o, c, b, offset) <==>
      Pitfall(o.statics, Seen(c), LiteralRequest(b[offset], PairMeant(code, o.statics, Seen(c), b, offset).field))
  {
    assert Seen(c).max == c.t.max;
    hide HuffmanCode.Good, Sound, Seen, PairAt, PairMeant, IndexCut, PaddingIgnored;
    LiteralSafe(code, o, c, b, offset);
  }

  /** A request that is in order and not refused is carried out in another way exactly if it is one of those
      requests. */
  lemma StepPitfall(code: Code, o: Outside, c: Ctx, b: seq<Byte>, offset: nat)
    requires HuffmanCode.Good(code) && Statics(o.statics) && Inv(c) && offset < |b| && !PrefixSplit(b[offset])
    requires AskedAt(code, o.statics, Seen(c), b, offset).Asks? && !Refuses(code, o.statics, Seen(c), b, offset)
    ensures var r := AskedAt(code, o.statics, Seen(c), b, offset).r;
      && (r.Indexed? ==> 1 <= r.i <= |Seen(c).entries| + STATIC_ENTRIES)
      && (Departs(code, o, c, b, offset) <==> Pitfall(o.statics, Seen(c), r))
  {
    assert Sound(c.t);
    hide HuffmanCode.Good, Inv, Sound, Live, Seen, PairAt, PairMeant, Literal, LiteralLost, IntLost, IntAt, IntMeant;
    hide LimitZero, StaticTooLarge, IndexZero, Aliased, LimitCut, LiteralDeparts, Pitfall;
    KindsApart(o.statics, c, b, offset);
    if b[offset] / 32 == 1 {
      LimitPitfall(code, o.statics, c, b, offset);
    } else if b[offset] >= 128 {
      IndexedPitfall(code, o, c, b, offset);
    } else {
      LiteralCompletes(code, o, c, b, offset);
      LiteralPitfall(code, o, c, b, offset);
    }
  }

  // --- Whole blocks -----------------------------------------------------------------------------------

  /** Somewhere in what the octets of a block ask for, the parser refuses a request or departs from it. */
  ghost predicate Hindered(code: Code, statics: seq<Field>, c: Context, b: seq<Byte>, offset: nat)
    requires HuffmanCode.Good(code) && Statics(statics) && offset <= |b|
    decreases |b| - offset
  {
    offset < |b| &&
    match AskedAt(code, statics, c, b, offset)
    case Refused => false
    case Asks(r, con) =>
      || PrefixSplit(b[offset]) || Refuses(code, statics, c, b, offset) || Pitfall(statics, c, r)
      || (con > 0 && offset + con <= |b| && Hindered(code, statics, Answered(c, statics, r).context, b, offset + con))
  }

  /** A block is in order and nothing hinders the parser. */
  ghost predicate Unhindered(code: Code, statics: seq<Field>, c: Context, b: seq<Byte>, offset: nat)
    requires HuffmanCode.Good(code) && Statics(statics) && offset <= |b|
  {
    TellAll(code, statics, c, b, offset).Told? && !Hindered(code, statics, c, b, offset)
  }

  /** The same one step on. */
  lemma UnhinderedStep(code: Code, statics: seq<Field>, c: Context, b: seq<Byte>, offset: nat)
    requires HuffmanCode.Good(code) && Statics(statics) && offset < |b|
    ensures var a := AskedAt(code, statics, c, b, offset);
      && (a.Asks? && a.r.Indexed? ==> 1 <= a.r.i <= |c.entries| + STATIC_ENTRIES)
      && (Unhindered(code, statics, c, b, offset) <==>
          a.Asks? && a.consumed > 0 && offset + a.consumed <= |b| && !PrefixSplit(b[offset])
          && !Refuses(code, statics, c, b, offset) && !Pitfall(statics, c, a.r)
          && Unhindered(code, statics, Answered(c, statics, a.r).context, b, offset + a.consumed))
  {
    hide HuffmanCode.Good, Refuses, Pitfall, Answered, IntMeant, PairMeant;
  }

  lemma InvSound(c: Ctx)
    requires Inv(c)
    ensures Sound(c.t)
  {
    hide Sound, Live;
  }

  /** One step of the parser over octets that are in order. */
  lemma PlainNext(code: Code, w: World, c: Ctx, b: seq<Byte>, offset: nat) returns (s: Step)
    requires HuffmanCode.Good(code) && Statics(w.statics) && Inv(c) && offset < |b|
    requires Unhindered(code, w.statics, Seen(c), b, offset)
    ensures s == StepAt(code, w, c, b, offset) && s.Ok? && !Departs(code, Around(w, c, b, offset), c, b, offset)
    ensures Inv(s.ctx) && s.consumed > 0 && offset + s.consumed <= |b|
    ensures Unhindered(code, w.statics, Seen(s.ctx), b, offset + s.consumed)
  {
    hide HuffmanCode.Good, Statics, Inv, Sound, Seen, FieldAt, AskedAt, Answered, Departs, Refuses, Pitfall, Unhindered, Around, PrefixSplit;
    InvSound(c);
    var o := Around(w, c, b, offset);
    s := StepAt(code, w, c, b, offset);
    UnhinderedStep(code, w.statics, Seen(c), b, offset);
    StepCompletes(code, o, c, b, offset);
    StepPitfall(code, o, c, b, offset);
    StepRefines(code, o, c, b, offset);
  }

  /** A step that succeeds without departing is not hindered. */
  lemma PlainStepUnhindered(code: Code, w: World, c: Ctx, b: seq<Byte>, offset: nat) returns (s: Step)
    requires HuffmanCode.Good(code) && Statics(w.statics) && Inv(c) && offset < |b| && Plain(code, w, c, b, offset)
    ensures s == StepAt(code, w, c, b, offset) && s.Ok? && Inv(s.ctx) && s.consumed > 0 && offset + s.consumed <= |b|
    ensures Plain(code, w, s.ctx, b, offset + s.consumed)
    ensures Unhindered(code, w.statics, Seen(s.ctx), b, offset + s.consumed) ==> Unhindered(code, w.statics, Seen(c), b, offset)
  {
    hide HuffmanCode.Good, Statics, Inv, Sound, Seen, FieldAt, AskedAt, Answered, Departs, Refuses, Pitfall, Unhindered, Around, PrefixSplit, Upsets;
    InvSound(c);
    var o := Around(w, c, b, offset);
    s := PlainStep(code, w, c, b, offset);
    PlainNotDeparts(code, w, c, b, offset);
    SplitDeparts(code, o, c, b, offset);
    UnhinderedStep(code, w.statics, Seen(c), b, offset);
    StepCompletes(code, o, c, b, offset);
    StepPitfall(code, o, c, b, offset);
  }

  lemma PlainNotDeparts(code: Code, w: World, c: Ctx, b: seq<Byte>, offset: nat)
    requires HuffmanCode.Good(code) && Statics(w.statics) && Sound(c.t) && offset < |b| && Plain(code, w, c, b, offset)
    ensures !Departs(code, Around(w, c, b, offset), c, b, offset)
  {
    hide HuffmanCode.Good, Statics, Sound, FieldAt, Departs, Around;
  }

  lemma SplitDeparts(code: Code, o: Outside, c: Ctx, b: seq<Byte>, offset: nat)
    requires HuffmanCode.Good(code) && Statics(o.statics) && Sound(c.t) && offset < |b|
    ensures PrefixSplit(b[offset]) ==> Departs(code, o, c, b, offset)
  {
    hide Sound, Upsets, Aliased, LimitCut, IndexCut, PaddingIgnored, PairAt;
  }

  /** The parser takes all steps of a block without departing if and only if the block is in order and
      nothing hinders the parser: a condition on the list of entries and the octets alone. */
  lemma {:induction false} PlainIsUnhindered(code: Code, w: World, c: Ctx, b: seq<Byte>, offset: nat)
    requires HuffmanCode.Good(code) && Statics(w.statics) && Inv(c) && offset <= |b|
    ensures Sound(c.t) && (Plain(code, w, c, b, offset) <==> Unhindered(code, w.statics, Seen(c), b, offset))
    decreases |b| - offset
  {
    hide *;
    InvSound(c);
    if offset == |b| {
      PlainAtEnd(code, w, c, b);
    } else if Unhindered(code, w.statics, Seen(c), b, offset) {
      var s := PlainNext(code, w, c, b, offset);
      PlainIsUnhindered(code, w, s.ctx, b, offset + s.consumed);
      PlainFrom(code, w, c, b, offset);
    } else if Plain(code, w, c, b, offset) {
      var s := PlainStepUnhindered(code, w, c, b, offset);
      PlainIsUnhindered(code, w, s.ctx, b, offset + s.consumed);
    }
  }

  lemma StartSound(c: Ctx)
    requires AtStart(c)
    ensures Inv(c) && Sound(c.t)
  {
    hide Sound, Live;
  }

  lemma PlainAtEnd(code: Code, w: World, c: Ctx, b: seq<Byte>)
    requires HuffmanCode.Good(code) && Statics(w.statics) && Sound(c.t)
    ensures Plain(code, w, c, b, |b|) && Unhindered(code, w.statics, Seen(c), b, |b|)
  {
    hide HuffmanCode.Good, Statics, Sound, Seen, StepAt, AskedAt;
  }

  lemma PlainFrom(code: Code, w: World, c: Ctx, b: seq<Byte>, offset: nat)
    requires HuffmanCode.Good(code) && Statics(w.statics) && Sound(c.t) && offset < |b|
    requires var s := StepAt(code, w, c, b, offset);
      && s.Ok? && !Departs(code, Around(w, c, b, offset), c, b, offset)
      && Sound(s.ctx.t) && offset + s.consumed <= |b| && Plain(code, w, s.ctx, b, offset + s.consumed)
    ensures Plain(code, w, c, b, offset)
  {
    hide HuffmanCode.Good, Statics, Sound, StepAt, Departs, Around;
    FieldAtProgress(code, Around(w, c, b, offset), c, b, offset);
  }

  /** A block that is in order and that nothing hinders is parsed to its end, whatever is left in the free
      slot: it emits what the specification says of its octets and then, each as often as it occurs, the
      fields of the entries that are still pending; behind it the list is ready for the next block. */
  lemma BlockCompletes(code: Code, w: World, c: Ctx, b: seq<Byte>, offset: nat)
    requires HuffmanCode.Good(code) && Statics(w.statics) && AtStart(c) && offset <= |b|
    requires Unhindered(code, w.statics, Seen(c), b, offset) && (offset < |b| || !c.finished)
    ensures Sound(c.t)
    ensures var r, t := ParseAll(code, w, c, b, offset), TellAll(code, w.statics, Seen(c), b, offset);
      && r.ok && r.consumed == |b| - offset && AtStart(r.ctx)
      && t.out <= r.out && multiset(r.out[|t.out|..]) == multiset(PendingIn(t.c.entries, 0))
      && Seen(r.ctx) == t.c.(entries := Renewed(t.c.entries))
  {
    hide *;
    StartSound(c);
    PlainIsUnhindered(code, w, c, b, offset);
    BlockRefines(code, w, c, b, offset);
  }
}
