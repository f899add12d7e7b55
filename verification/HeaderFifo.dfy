/** The dynamic table of HPACK as a bounded queue of fields: sections 4.1 to 4.4 of RFC 7541.
    Each field keeps the slot in which it was stored (an index of the offsets buffer of
    libhpack/header_table.c) while its HPACK index grows with every insertion. */
module HeaderFifo {
  import opened Bits
  import opened BitmapSets

  datatype Origin = IsNew | IsNewHuffman | IsIndexedStatic | IsIndexedTable
  datatype Rep = RepEmpty | RepUserSupplied | RepIndexed | RepIncIndexed | RepWithoutIndexing | RepNeverIndexed
  datatype Flags = Flags(rep: Rep, name: Origin, value: Origin)
  datatype Field = Field(name: seq<Byte>, value: seq<Byte>, flags: Flags)

  const CLEAN := Field([], [], Flags(RepEmpty, IsIndexedTable, IsIndexedTable))   // hpack_header_field_clean

  const OVERHEAD := 32            // HPACK_HEADER_ENTRY_OVERHEAD
  const MAX_SIZE := 4096          // SETTINGS_HEADER_TABLE_SIZE
  const STATIC_ENTRIES := 61

  /** hpack_header_field_is_empty */
  predicate IsEmpty(f: Field) {
    f.name == [] && f.value == []
  }

  /** What an eviction takes off the account. */
  function Size(f: Field): nat {
    |f.name| + |f.value| + OVERHEAD
  }

  /** hpack_header_field_get_size: what an addition puts on it. */
  function AddedSize(f: Field): nat {
    if IsEmpty(f) then 0 else Size(f)
  }

  /** The account is right for every field but those without a single octet. */
  lemma SizesAgree(f: Field)
    ensures AddedSize(f) == Size(f) <==> !IsEmpty(f)
  {
  }

  function Used(fields: seq<Field>): nat {
    if fields == [] then 0 else Size(fields[0]) + Used(fields[1..])
  }

  ghost predicate Filled(fields: seq<Field>) {
    forall k :: 0 <= k < |fields| ==> !IsEmpty(fields[k])
  }

  lemma {:induction false} UsedAppend(a: seq<Field>, f: Field)
    ensures Used(a + [f]) == Used(a) + Size(f)
  {
    if a == [] {
      assert (a + [f])[1..] == [];
    } else {
      assert (a + [f])[0] == a[0] && (a + [f])[1..] == a[1..] + [f];
      UsedAppend(a[1..], f);
    }
  }

  lemma {:induction false} UsedMany(fields: seq<Field>)
    requires Filled(fields)
    ensures Used(fields) >= 33 * |fields|
  {
    if fields != [] { UsedMany(fields[1..]); }
  }

  // --- Eviction -----------------------------------------------------------------------

  /** How many of the oldest fields have to go. */
  function Excess(fields: seq<Field>, limit: nat): (n: nat)
    ensures n <= |fields|
  {
    if Used(fields) <= limit then 0 else 1 + Excess(fields[1..], limit)
  }

  /** What is kept fits, and it is the longest run of newest fields that does. */
  lemma {:induction false} ExcessIsLeast(fields: seq<Field>, limit: nat, m: nat)
    requires m <= |fields|
    ensures Used(fields[m..]) <= limit <==> Excess(fields, limit) <= m
    decreases |fields|
  {
    if m > 0 && Used(fields) > limit {
      ExcessIsLeast(fields[1..], limit, m - 1);
      assert fields[1..][m - 1..] == fields[m..];
    } else if m > 0 {
      UsedSuffix(fields, m);
    } else {
      assert fields[0..] == fields;
    }
  }

  lemma {:induction false} UsedSuffix(fields: seq<Field>, m: nat)
    requires m <= |fields|
    ensures Used(fields[m..]) <= Used(fields)
  {
    if m > 0 {
      UsedSuffix(fields[1..], m - 1);
      assert fields[1..][m - 1..] == fields[m..];
    } else {
      assert fields[0..] == fields;
    }
  }

  // --- The queue ------------------------------------------------------------------------

  /** fields: the oldest first; head: the slot of the oldest; max: the size limit. */
  datatype Table = Table(fields: seq<Field>, head: nat, max: nat)

  ghost predicate Sound(t: Table) {
    && t.head < SLOTS && t.max <= MAX_SIZE && Used(t.fields) <= t.max && Filled(t.fields)
  }

  /** At least one octet and an overhead of 32: at most 124 entries. */
  lemma FewFields(t: Table)
    requires Sound(t)
    ensures |t.fields| <= 124
  {
    UsedMany(t.fields);
  }

  function Wrap(i: nat): (s: nat)
    requires i < 2 * SLOTS
    ensures s < SLOTS
  {
    if i < SLOTS then i else i - SLOTS
  }

  /** The slot of the k-th oldest field. */
  function SlotOf(t: Table, k: nat): (s: nat)
    requires t.head < SLOTS && k < SLOTS
    ensures s < SLOTS
  {
    Wrap(t.head + k)
  }

  /** The place in the queue that a slot stands for. */
  function PlaceOf(t: Table, s: nat): (k: nat)
    requires t.head < SLOTS && s < SLOTS
    ensures k < SLOTS && SlotOf(t, k) == s
  {
    if s >= t.head then s - t.head else s + SLOTS - t.head
  }

  lemma SlotPlace(t: Table, k: nat)
    requires t.head < SLOTS && k < SLOTS
    ensures PlaceOf(t, SlotOf(t, k)) == k
  {
  }

  /** The slots of the n oldest fields. */
  ghost function Oldest(t: Table, n: nat): (m: set<nat>)
    requires t.head < SLOTS
    ensures forall s :: s in m <==> Slot(s) && PlaceOf(t, s) < n
  {
    set s: nat | s < SLOTS && Slot(s) && PlaceOf(t, s) < n
  }

  ghost function Live(t: Table): (m: set<nat>)
    requires t.head < SLOTS
  {
    Oldest(t, |t.fields|)
  }

  /** The field that a live slot denotes. */
  function Denotes(t: Table, s: nat): Field
    requires t.head < SLOTS && s < SLOTS && PlaceOf(t, s) < |t.fields|
  {
    t.fields[PlaceOf(t, s)]
  }

  /** INDEX_SWITCH_HT_HPACK: between HPACK indices and slots, in both directions. */
  function Switch(t: Table, i: nat): (s: nat)
    requires t.head < SLOTS && |t.fields| < SLOTS
    ensures s < SLOTS
  {
    (Wrap(t.head + |t.fields|) - i + SLOTS) % SLOTS
  }

  lemma SwitchIndex(t: Table, i: nat)
    requires Sound(t) && 1 <= i <= |t.fields|
    ensures |t.fields| < SLOTS && Switch(t, i) == SlotOf(t, |t.fields| - i)
  {
    FewFields(t);
  }

  lemma SwitchSlot(t: Table, s: nat)
    requires Sound(t) && s in Live(t)
    ensures |t.fields| < SLOTS && Switch(t, s) == |t.fields| - PlaceOf(t, s)
    ensures 1 <= Switch(t, s) <= |t.fields| && Switch(t, Switch(t, s)) == s
  {
    FewFields(t);
    assert Slot(s);
  }

  /** What the table drops when it has to fit in a limit. */
  function Drop(t: Table, n: nat): Table
    requires t.head < SLOTS && n <= |t.fields| && n < SLOTS
  {
    Table(t.fields[n..], Wrap(t.head + n), t.max)
  }

  datatype Added = Added(t: Table, evicted: set<nat>)

  /** hpack_header_table_add: a field that cannot fit empties the table (and restores the largest
      limit); otherwise the oldest fields make room. */
  ghost function Add(t: Table, f: Field): Added
    requires Sound(t) && !IsEmpty(f)
  {
    FewFields(t);
    if Size(f) > t.max then Added(Table([], 0, MAX_SIZE), AllSlots())
    else
      var n := Excess(t.fields, t.max - Size(f));
      var kept := Drop(t, n);
      Added(kept.(fields := kept.fields + [f]), Oldest(t, n))
  }

  /** hpack_header_table_set_max within the allowed range: the evictions of an emptied table are
      not reported. */
  ghost function SetMax(t: Table, max: nat): Added
    requires Sound(t) && max <= MAX_SIZE
  {
    FewFields(t);
    if max == 0 then Added(Table([], 0, 0), {})
    else
      var n := Excess(t.fields, max);
      Added(Drop(t, n).(max := max), Oldest(t, n))
  }

  lemma {:induction false} FilledSuffix(fields: seq<Field>, n: nat)
    requires Filled(fields) && n <= |fields|
    ensures Filled(fields[n..])
  {
  }

  lemma AddSound(t: Table, f: Field)
    requires Sound(t) && !IsEmpty(f)
    ensures Sound(Add(t, f).t)
    ensures Size(f) <= t.max ==> Add(t, f).t.fields != [] && Add(t, f).evicted != AllSlots()
    ensures Size(f) > t.max ==> Add(t, f).evicted == AllSlots()
  {
    FewFields(t);
    if Size(f) <= t.max {
      var n := Excess(t.fields, t.max - Size(f));
      ExcessIsLeast(t.fields, t.max - Size(f), n);
      UsedAppend(t.fields[n..], f);
      hide Excess, Used, Size;
      NotAllSlots(t, n);
    }
  }

  lemma NotAllSlots(t: Table, n: nat)
    requires t.head < SLOTS && n < SLOTS
    ensures Oldest(t, n) != AllSlots()
  {
    var free := SlotOf(t, SLOTS - 1);
    SlotPlace(t, SLOTS - 1);
    assert Slot(free) && free !in Oldest(t, n);
  }

  lemma SetMaxSound(t: Table, max: nat)
    requires Sound(t) && max <= MAX_SIZE
    ensures Sound(SetMax(t, max).t)
  {
    FewFields(t);
    var n := Excess(t.fields, max);
    ExcessIsLeast(t.fields, max, n);
  }

  lemma DropKeepsSlots(t: Table, n: nat, s: nat)
    requires t.head < SLOTS && |t.fields| < SLOTS && n <= |t.fields|
    ensures var u := Drop(t, n);
      && Live(u) == Live(t) - Oldest(t, n)
      && (Slot(s) && s in Live(u) ==> PlaceOf(u, s) < |u.fields| && PlaceOf(t, s) < |t.fields| && Denotes(u, s) == Denotes(t, s))
  {
    var u := Drop(t, n);
    forall i: nat | i < SLOTS ensures i in Live(u) <==> i in Live(t) && i !in Oldest(t, n) { assert Slot(i); }
  }

  /** The slot behind the newest is free. */
  lemma DropTail(t: Table, n: nat)
    requires t.head < SLOTS && |t.fields| < SLOTS && n <= |t.fields|
    ensures SlotOf(Drop(t, n), |t.fields| - n) == SlotOf(t, |t.fields|) && SlotOf(t, |t.fields|) !in Live(t)
  {
    SlotPlace(t, |t.fields|);
  }

  lemma PushKeepsSlots(t: Table, f: Field, s: nat)
    requires t.head < SLOTS && |t.fields| + 1 < SLOTS
    ensures var u := t.(fields := t.fields + [f]); var newest := Switch(u, 1);
      && newest == SlotOf(t, |t.fields|) && newest !in Live(t) && Live(u) == Live(t) + {newest}
      && PlaceOf(u, newest) == |t.fields| && Denotes(u, newest) == f
      && (Slot(s) && s in Live(t) ==> PlaceOf(t, s) < |t.fields| && Denotes(u, s) == Denotes(t, s))
  {
    var u := t.(fields := t.fields + [f]);
    var newest := Switch(u, 1);
    assert newest == SlotOf(t, |t.fields|);
    SlotPlace(t, |t.fields|);
    PushLive(t, u, newest);
    hide Switch, Live, SlotOf;
    if Slot(s) { LiveIs(t, s); }
  }

  lemma LiveIs(t: Table, s: nat)
    requires t.head < SLOTS
    ensures s in Live(t) <==> Slot(s) && PlaceOf(t, s) < |t.fields|
  {
  }

  lemma PushLive(t: Table, u: Table, newest: nat)
    requires t.head == u.head < SLOTS && |u.fields| == |t.fields| + 1 < SLOTS
    requires newest < SLOTS && PlaceOf(t, newest) == |t.fields|
    ensures newest !in Live(t) && Live(u) == Live(t) + {newest}
  {
    assert Slot(newest);
    forall i: nat | i < SLOTS ensures i in Live(u) <==> i in Live(t) || i == newest { assert Slot(i); }
  }

  /** Evictions keep every other slot's field, although all HPACK indices shift; the new field
      has HPACK index 1 and a slot that was free. */
  lemma AddKeepsSlots(t: Table, f: Field, s: nat)
    requires Sound(t) && !IsEmpty(f) && Size(f) <= t.max
    ensures var a := Add(t, f);
      && a.t.head < SLOTS && |a.t.fields| < SLOTS && Live(a.t) == Live(t) - a.evicted + {Switch(a.t, 1)}
      && Switch(a.t, 1) !in Live(t)
      && (Slot(s) && s in Live(t) - a.evicted ==> PlaceOf(t, s) < |t.fields| && PlaceOf(a.t, s) < |a.t.fields| && Denotes(a.t, s) == Denotes(t, s))
      && PlaceOf(a.t, Switch(a.t, 1)) == |a.t.fields| - 1 && Denotes(a.t, Switch(a.t, 1)) == f
  {
    FewFields(t);
    var n := Excess(t.fields, t.max - Size(f));
    hide Sound, Excess;
    DropKeepsSlots(t, n, s);
    PushKeepsSlots(Drop(t, n), f, s);
    DropTail(t, n);
  }

  lemma SetMaxKeepsSlots(t: Table, max: nat, s: nat)
    requires Sound(t) && 0 < max <= MAX_SIZE
    ensures var a := SetMax(t, max);
      && a.t.head < SLOTS && |a.t.fields| < SLOTS && Live(a.t) == Live(t) - a.evicted
      && (Slot(s) && s in Live(a.t) ==> PlaceOf(t, s) < |t.fields| && PlaceOf(a.t, s) < |a.t.fields| && Denotes(a.t, s) == Denotes(t, s))
  {
    FewFields(t);
    hide Sound, Excess;
    DropKeepsSlots(t, Excess(t.fields, max), s);
  }

  // --- Both address spaces --------------------------------------------------------------

  /** What reading a slot yields: nothing if the length of the name is too large, the name alone if that of
      the value is, or a whole field. */
  datatype Reading = Unreadable | NameOnly(name: Field) | Whole(f: Field)

  /** What a lookup depends on besides the queue: left is what lies in the free slot behind the newest. */
  datatype Outside = Outside(statics: seq<Field>, left: Reading)

  datatype Found = InTable(f: Field) | InStatic(f: Field) | InPart(f: Field) | Unread | Missing

  /** The entry with a given HPACK index: first the table, newest first, then the static entries.  Index 0
      is that of the free slot, which the source reads like any other. */
  function Get(t: Table, o: Outside, i: nat): Found
    requires |o.statics| == STATIC_ENTRIES
  {
    var n := |t.fields|;
    if i == 0 then Remains(o.left)
    else if i <= n then InTable(t.fields[n - i])
    else if i <= STATIC_ENTRIES + n then InStatic(o.statics[i - n - 1])
    else Missing
  }

  function Remains(left: Reading): Found {
    match left
    case Unreadable => Unread
    case NameOnly(f) => InPart(f)
    case Whole(f) => InTable(f)
  }

  // --- Runs -------------------------------------------------------------------------------

  datatype Op = OpAdd(f: Field) | OpMax(max: nat)

  ghost predicate Allowed(ops: seq<Op>) {
    forall k :: 0 <= k < |ops| ==> if ops[k].OpAdd? then !IsEmpty(ops[k].f) else ops[k].max <= MAX_SIZE
  }

  function Fresh(): Table {
    Table([], 0, MAX_SIZE)
  }

  /** The table after a run of additions and changes of the limit. */
  ghost function Run(ops: seq<Op>): (t: Table)
    requires Allowed(ops)
    ensures Sound(t)
  {
    if ops == [] then Fresh()
    else
      var n := |ops| - 1;
      var t := Run(ops[..n]);
      match ops[n]
      case OpAdd(f) =>
        AddSound(t, f);
        Add(t, f).t
      case OpMax(max) =>
        SetMaxSound(t, max);
        SetMax(t, max).t
  }

  function AllAdded(ops: seq<Op>): seq<Field> {
    if ops == [] then []
    else
      var n := |ops| - 1;
      AllAdded(ops[..n]) + (if ops[n].OpAdd? then [ops[n].f] else [])
  }

  ghost predicate Newest<T>(fields: seq<T>, all: seq<T>) {
    |fields| <= |all| && fields == all[|all| - |fields|..]
  }

  lemma NewestDrop<T>(fields: seq<T>, all: seq<T>, n: nat)
    requires Newest(fields, all) && n <= |fields|
    ensures Newest(fields[n..], all)
  {
  }

  lemma NewestPush<T>(fields: seq<T>, all: seq<T>, f: T)
    requires Newest(fields, all)
    ensures Newest(fields + [f], all + [f])
  {
  }

  /** After every run the table holds the newest of all fields ever added, so that the i-th index
      denotes the i-th newest. */
  lemma {:induction false} RunKeepsNewest(ops: seq<Op>)
    requires Allowed(ops)
    ensures Newest(Run(ops).fields, AllAdded(ops)) && |Run(ops).fields| <= 124
  {
    FewFields(Run(ops));
    hide Sound, Newest;
    if ops == [] {
      NewestEmpty<Field>([]);
    } else {
      var n := |ops| - 1;
      RunKeepsNewest(ops[..n]);
      StepKeepsNewest(Run(ops[..n]), AllAdded(ops[..n]), ops[n]);
      assert AllAdded(ops[..n]) + [] == AllAdded(ops[..n]);
    }
  }

  lemma NewestEmpty<T>(all: seq<T>)
    ensures Newest([], all)
  {
  }

  lemma StepKeepsNewest(t: Table, all: seq<Field>, op: Op)
    requires Sound(t) && Newest(t.fields, all)
    ensures op.OpAdd? && !IsEmpty(op.f) ==> Newest(Add(t, op.f).t.fields, all + [op.f])
    ensures op.OpMax? && op.max <= MAX_SIZE ==> Newest(SetMax(t, op.max).t.fields, all)
  {
    FewFields(t);
    hide Sound, Excess, Newest;
    match op
    case OpAdd(f) =>
      if Size(f) <= t.max {
        var n := Excess(t.fields, t.max - Size(f));
        NewestDrop(t.fields, all, n);
        NewestPush(t.fields[n..], all, f);
      } else {
        NewestEmpty(all + [f]);
      }
    case OpMax(max) =>
      NewestEmpty(all);
      NewestDrop(t.fields, all, Excess(t.fields, max));
  }
}
