/** libhpack/header_table.c: the dynamic table in two circular buffers, one with the octets of the
    fields and one with the positions at which the fields start. */
module HeaderTables {
  import opened Bits
  import opened BitmapSets
  import opened HeaderFifo

  const DATA := 4096        // HPACK_CB_HEADER_DATA_SIZE
  const INFO := 8           // sizeof (hpack_header_table_field_info_t)

  function Turn(p: nat): nat
    requires p < 2 * DATA
  {
    if p < DATA then p else p - DATA
  }

  /** s lies in the circular buffer from position at on. */
  ghost predicate Lies(buffer: seq<Byte>, at: nat, s: seq<Byte>) {
    && |buffer| == DATA && at < DATA && |s| <= DATA
    && forall i :: 0 <= i < |s| ==> buffer[Turn(at + i)] == s[i]
  }

  lemma LiesPart(buffer: seq<Byte>, at: nat, s: seq<Byte>, k: nat, part: seq<Byte>, n: nat)
    requires Lies(buffer, at, s) && k + n <= |s| && Lies(buffer, Turn(at + k), part) && |part| == n
    ensures part == s[k..k + n]
  {
    forall i | 0 <= i < n ensures part[i] == s[k + i] {
      assert Turn(Turn(at + k) + i) == Turn(at + (k + i));
    }
  }

  lemma LiesOn(buffer: seq<Byte>, at: nat, s: seq<Byte>, k: nat)
    requires Lies(buffer, at, s) && k <= |s| && k < DATA
    ensures Lies(buffer, Turn(at + k), s[k..])
  {
    forall i | 0 <= i < |s| - k ensures buffer[Turn(Turn(at + k) + i)] == s[k..][i] {
      assert Turn(Turn(at + k) + i) == Turn(at + (k + i));
    }
  }

  /** How far position j comes after the tail. */
  function Behind(tail: nat, j: nat): nat
    requires tail < DATA && j < DATA
  {
    if j >= tail then j - tail else j + DATA - tail
  }

  /** What is written behind the tail follows what lies before it. */
  lemma LiesMore(was: seq<Byte>, now: seq<Byte>, head: nat, content: seq<Byte>, tail: nat, src: seq<Byte>)
    requires Lies(was, head, content) && |content| + |src| < DATA && tail == Turn(head + |content|)
    requires |now| == DATA && forall j :: 0 <= j < DATA ==>
      now[j] == if Behind(tail, j) < |src| then src[Behind(tail, j)] else was[j]
    ensures Lies(now, head, content + src)
  {
    var n := |content|;
    forall i | 0 <= i < n + |src| ensures now[Turn(head + i)] == (content + src)[i] {
      var j := Turn(head + i);
      if i < n {
        assert Behind(tail, j) == DATA - n + i;
      } else {
        assert Behind(tail, j) == i - n;
      }
    }
  }

  /** hpack_headers_data_cb_t: one position always stays free. */
  class DataRing {
    const buffer: array<Byte>
    var head: nat
    var tail: nat
    ghost var content: seq<Byte>

    ghost predicate Valid()
      reads this, buffer
    {
      && buffer.Length == DATA && head < DATA && |content| < DATA
      && Lies(buffer[..], head, content) && tail == Turn(head + |content|)
    }

    constructor ()
      ensures Valid() && fresh(buffer) && head == 0 && content == []
    {
      buffer := new Byte[DATA];
      head, tail, content := 0, 0, [];
    }

    method Clear()
      requires Valid()
      modifies this
      ensures Valid() && head == 0 && content == []
    {
      head, tail, content := 0, 0, [];
    }

    /** header_data_free */
    method Free() returns (n: nat)
      requires Valid()
      ensures n == DATA - 1 - |content|
    {
      n := (head - tail + (DATA - 1)) % DATA;
    }

    /** header_data_get: reads what lies at an offset, in two pieces if it continues at the beginning. */
    method Get(offset: nat, num: nat) returns (ok: bool, dst: seq<Byte>)
      requires Valid() && offset < DATA
      ensures ok <==> num <= DATA
      ensures ok ==> |dst| == num && Lies(buffer[..], offset, dst)
    {
      dst := [];
      if num > DATA { return false, dst; }
      var toEnd := DATA - offset;
      if toEnd < num {
        dst := buffer[offset..] + buffer[..num - toEnd];
      } else {
        dst := buffer[offset..offset + num];
      }
      ok := true;
    }

    /** memcpy to the buffer. */
    method Copy(at: nat, src: seq<Byte>)
      requires at + |src| <= buffer.Length
      modifies buffer
      ensures forall i :: 0 <= i < buffer.Length ==>
        buffer[i] == if at <= i < at + |src| then src[i - at] else old(buffer[i])
    {
      for k := 0 to |src|
        invariant forall i :: 0 <= i < buffer.Length ==>
          buffer[i] == if at <= i < at + k then src[i - at] else old(buffer[i])
      {
        buffer[at + k] := src[k];
      }
    }

    /** header_data_add */
    method Add(src: seq<Byte>) returns (ok: bool)
      requires Valid()
      modifies this`tail, this`content, buffer
      ensures Valid() && (ok <==> |old(content)| + |src| < DATA)
      ensures content == if ok then old(content) + src else old(content)
    {
      var free := Free();
      if free < |src| { return false; }
      var toEnd := DATA - tail;
      if toEnd < |src| {
        Copy(tail, src[..toEnd]);
        Copy(0, src[toEnd..]);
      } else {
        Copy(tail, src);
      }
      LiesMore(old(buffer[..]), buffer[..], head, content, tail, src);
      tail := (tail + |src|) % DATA;
      content := content + src;
      ok := true;
    }

    /** header_cb_move of the head. */
    method Advance(n: nat)
      requires Valid() && n <= |content|
      modifies this`head, this`content
      ensures Valid() && head == Turn(old(head) + n) == (old(head) + n) % DATA && content == old(content)[n..]
    {
      LiesOn(buffer[..], head, content, n);
      head := (head + n) % DATA;
      content := content[n..];
    }
  }

  /** hpack_headers_offs_cb_t */
  class OffsetRing {
    const buffer: array<nat>
    var head: nat
    var tail: nat
    ghost var content: seq<nat>

    ghost predicate Valid()
      reads this, buffer
    {
      && buffer.Length == SLOTS && head < SLOTS && |content| < SLOTS
      && tail == Wrap(head + |content|)
      && (forall k :: 0 <= k < |content| ==> buffer[Wrap(head + k)] == content[k])
      && forall k :: 0 <= k < SLOTS ==> buffer[k] < DATA
    }

    constructor ()
      ensures Valid() && fresh(buffer) && head == 0 && content == []
    {
      buffer := new nat[SLOTS](_ => 0);
      head, tail, content := 0, 0, [];
    }

    method Clear()
      requires Valid()
      modifies this
      ensures Valid() && head == 0 && content == []
    {
      head, tail, content := 0, 0, [];
    }

    /** header_offs_is_full */
    predicate IsFull()
      reads this
    {
      (head - 1) % SLOTS == tail
    }

    lemma FullIs()
      requires Valid()
      ensures IsFull() <==> |content| == SLOTS - 1
    {
    }

    /** header_offs_add */
    method Add(offset: nat) returns (ok: bool)
      requires Valid() && offset < DATA
      modifies this`tail, this`content, buffer
      ensures Valid() && (ok <==> |old(content)| < SLOTS - 1)
      ensures content == if ok then old(content) + [offset] else old(content)
    {
      if (head - tail + (SLOTS - 1)) % SLOTS < 1 { return false; }
      buffer[tail] := offset;
      tail := (tail + 1) % SLOTS;
      content := content + [offset];
      ok := true;
    }

    method Advance()
      requires Valid() && content != []
      modifies this`head, this`content
      ensures Valid() && head == Wrap(old(head) + 1) && content == old(content)[1..]
    {
      ghost var was := head;
      head := (head + 1) % SLOTS;
      content := content[1..];
      forall k | 0 <= k < |content| ensures buffer[Wrap(head + k)] == content[k] {
        assert Wrap(head + k) == Wrap(was + (k + 1));
      }
    }
  }

  // --- What lies in the buffers ----------------------------------------------------------

  function RepByte(r: Rep): (b: nat)
    ensures b < 8
  {
    match r
    case RepEmpty => 0
    case RepUserSupplied => 1
    case RepIndexed => 2
    case RepIncIndexed => 3
    case RepWithoutIndexing => 4
    case RepNeverIndexed => 5
  }

  function RepOf(b: nat): Rep {
    if b == 0 then RepEmpty else if b == 1 then RepUserSupplied else if b == 2 then RepIndexed
    else if b == 3 then RepIncIndexed else if b == 4 then RepWithoutIndexing else RepNeverIndexed
  }

  function OriginByte(o: Origin): (b: nat)
    ensures b < 4
  {
    match o
    case IsNew => 0
    case IsNewHuffman => 1
    case IsIndexedStatic => 2
    case IsIndexedTable => 3
  }

  function OriginOf(b: nat): Origin {
    if b == 0 then IsNew else if b == 1 then IsNewHuffman else if b == 2 then IsIndexedStatic else IsIndexedTable
  }

  /** hpack_header_table_field_info_t: two lengths of two octets and the packed flags. */
  datatype Info = Info(nameLen: nat, valueLen: nat, flags: Flags)

  function InfoBytes(i: Info): (s: seq<Byte>)
    requires i.nameLen < 0x1_0000 && i.valueLen < 0x1_0000
    ensures |s| == INFO
  {
    HighByte(i.nameLen);
    HighByte(i.valueLen);
    [i.nameLen % 256, i.nameLen / 256, i.valueLen % 256, i.valueLen / 256,
     OriginByte(i.flags.name) + 4 * OriginByte(i.flags.value) + 16 * RepByte(i.flags.rep), 0, 0, 0]
  }

  lemma HighByte(x: nat)
    requires x < 0x1_0000
    ensures x / 256 < 256 && x % 256 + 256 * (x / 256) == x
  {
  }

  function InfoOf(s: seq<Byte>): Info
    requires |s| == INFO
  {
    var flags := Flags(RepOf(s[4] / 16), OriginOf(s[4] % 4), OriginOf(s[4] / 4 % 4));
    Info(s[0] as nat + 256 * s[1] as nat, s[2] as nat + 256 * s[3] as nat, flags)
  }

  lemma InfoRoundTrip(i: Info)
    requires i.nameLen < 0x1_0000 && i.valueLen < 0x1_0000
    ensures InfoOf(InfoBytes(i)) == i
  {
    hide OriginOf, RepOf, OriginByte, RepByte;
    var x, y, z := OriginByte(i.flags.name), OriginByte(i.flags.value), RepByte(i.flags.rep);
    var b := x + 4 * y + 16 * z;
    assert b % 4 == x && b / 4 % 4 == y && b / 16 == z;
    OriginRoundTrip(i.flags.name);
    OriginRoundTrip(i.flags.value);
    RepRoundTrip(i.flags.rep);
  }

  lemma OriginRoundTrip(o: Origin)
    ensures OriginOf(OriginByte(o)) == o
  {
  }

  lemma RepRoundTrip(r: Rep)
    ensures RepOf(RepByte(r)) == r
  {
  }

  /** The octets of one field. Longer ones never get into the table. */
  function Record(f: Field): (s: seq<Byte>)
    ensures Size(f) <= MAX_SIZE ==> |s| == INFO + |f.name| + |f.value|
  {
    if Size(f) > MAX_SIZE then []
    else InfoBytes(Info(|f.name|, |f.value|, f.flags)) + f.name + f.value
  }

  lemma RecordParts(f: Field, s: seq<Byte>)
    requires Size(f) <= MAX_SIZE && s == Record(f)
    ensures InfoOf(Piece(s, 0, INFO)) == Info(|f.name|, |f.value|, f.flags)
    ensures Piece(s, INFO, |f.name|) == f.name && Piece(s, INFO + |f.name|, |f.value|) == f.value
  {
    var i := Info(|f.name|, |f.value|, f.flags);
    InfoRoundTrip(i);
    hide InfoOf, InfoBytes;
    assert s[..INFO] == InfoBytes(i);
  }

  // --- Runs of records -------------------------------------------------------------------

  function Flat<T>(rs: seq<seq<T>>): seq<T> {
    if rs == [] then [] else rs[0] + Flat(rs[1..])
  }

  /** Where the k-th record starts in Flat. */
  function Start<T>(rs: seq<seq<T>>, k: nat): nat
    requires k <= |rs|
  {
    if k == 0 then 0 else |rs[0]| + Start(rs[1..], k - 1)
  }

  function Piece<T>(s: seq<T>, p: nat, n: nat): seq<T>
    requires p + n <= |s|
  {
    s[p..p + n]
  }

  /** There lies the k-th record. */
  lemma {:induction false} PieceAt<T>(rs: seq<seq<T>>, k: nat)
    requires k < |rs|
    ensures Start(rs, k) + |rs[k]| <= |Flat(rs)|
    ensures Piece(Flat(rs), Start(rs, k), |rs[k]|) == rs[k]
  {
    if k > 0 {
      PieceAt(rs[1..], k - 1);
      PieceShift(rs[0], Flat(rs[1..]), Start(rs[1..], k - 1), |rs[k]|);
    } else {
      FirstPiece(rs[0], Flat(rs[1..]));
    }
  }

  lemma FirstPiece<T>(a: seq<T>, b: seq<T>)
    ensures Piece(a + b, 0, |a|) == a
  {
  }

  lemma PieceShift<T>(a: seq<T>, b: seq<T>, q: nat, n: nat)
    requires q + n <= |b|
    ensures Piece(a + b, |a| + q, n) == Piece(b, q, n)
  {
  }

  lemma {:induction false} FlatAppend<T>(rs: seq<seq<T>>, r: seq<T>)
    ensures Flat(rs + [r]) == Flat(rs) + r
    ensures Start(rs + [r], |rs|) == |Flat(rs)|
  {
    if rs == [] {
      assert (rs + [r])[1..] == [];
    } else {
      assert (rs + [r])[0] == rs[0] && (rs + [r])[1..] == rs[1..] + [r];
      FlatAppend(rs[1..], r);
    }
  }

  lemma {:induction false} StartAppend<T>(rs: seq<seq<T>>, r: seq<T>, k: nat)
    requires k <= |rs|
    ensures Start(rs + [r], k) == Start(rs, k)
  {
    if k > 0 {
      assert (rs + [r])[0] == rs[0] && (rs + [r])[1..] == rs[1..] + [r];
      StartAppend(rs[1..], r, k - 1);
    }
  }

  lemma {:induction false} StartNext<T>(rs: seq<seq<T>>, k: nat)
    requires k < |rs|
    ensures Start(rs, k + 1) == Start(rs, k) + |rs[k]|
  {
    if k > 0 { StartNext(rs[1..], k - 1); }
  }

  lemma {:induction false} StartLast<T>(rs: seq<seq<T>>)
    ensures Start(rs, |rs|) == |Flat(rs)|
  {
    if rs != [] { StartLast(rs[1..]); }
  }

  // --- The fields in the buffers -----------------------------------------------------------

  function Records(fields: seq<Field>): (rs: seq<seq<Byte>>)
    ensures |rs| == |fields|
  {
    seq(|fields|, k requires 0 <= k < |fields| => Record(fields[k]))
  }

  /** The offsets at which the records lie if the oldest starts at a position. */
  ghost predicate Offsets(offsets: seq<nat>, rs: seq<seq<Byte>>, at: nat) {
    && |offsets| == |rs| && at < DATA && |Flat(rs)| < DATA
    && forall k :: 0 <= k < |rs| ==> OffsetIs(offsets[k], rs, k, at)
  }

  ghost predicate OffsetIs(offset: nat, rs: seq<seq<Byte>>, k: nat, at: nat)
    requires k < |rs| && at < DATA && |Flat(rs)| < DATA
  {
    Start(rs, k) <= |Flat(rs)| && offset == Turn(at + Start(rs, k))
  }

  lemma OffsetsAppend(offsets: seq<nat>, rs: seq<seq<Byte>>, at: nat, r: seq<Byte>)
    requires Offsets(offsets, rs, at) && |Flat(rs + [r])| < DATA
    ensures |Flat(rs)| < DATA && Offsets(offsets + [Turn(at + |Flat(rs)|)], rs + [r], at)
  {
    FlatAppend(rs, r);
    hide Flat, Start, Turn;
    var more := offsets + [Turn(at + |Flat(rs)|)];
    forall k | 0 <= k < |more| ensures OffsetIs(more[k], rs + [r], k, at) {
      if k < |rs| {
        StartAppend(rs, r, k);
        assert OffsetIs(offsets[k], rs, k, at);
      }
    }
  }

  lemma OffsetsRest(offsets: seq<nat>, rs: seq<seq<Byte>>, at: nat)
    requires Offsets(offsets, rs, at) && rs != []
    ensures Flat(rs) == rs[0] + Flat(rs[1..]) && offsets[0] == at
    ensures |rs[0]| < DATA && Offsets(offsets[1..], rs[1..], Turn(at + |rs[0]|))
  {
    assert Start(rs, 0) == 0 && OffsetIs(offsets[0], rs, 0, at);
    assert Flat(rs) == rs[0] + Flat(rs[1..]);
    hide Flat;
    forall k | 0 <= k < |rs| - 1 ensures OffsetIs(offsets[1..][k], rs[1..], k, Turn(at + |rs[0]|)) {
      OffsetRest(offsets[k + 1], rs, k, at);
    }
  }

  lemma OffsetRest(offset: nat, rs: seq<seq<Byte>>, k: nat, at: nat)
    requires k + 1 < |rs| && at < DATA && |Flat(rs)| < DATA && OffsetIs(offset, rs, k + 1, at)
    requires Flat(rs) == rs[0] + Flat(rs[1..])
    ensures |rs[0]| < DATA && OffsetIs(offset, rs[1..], k, Turn(at + |rs[0]|))
  {
    PieceAt(rs[1..], k);
    hide Flat;
    assert Start(rs, k + 1) == |rs[0]| + Start(rs[1..], k);
    hide Start;
  }

  /** The physical size of the fields is their accounted size without 24 octets each. */
  lemma {:induction false} FlatSize(fields: seq<Field>)
    requires Used(fields) <= MAX_SIZE
    ensures |Flat(Records(fields))| + 24 * |fields| == Used(fields)
    ensures forall k :: 0 <= k < |fields| ==> Size(fields[k]) <= MAX_SIZE
  {
    hide Record;
    if fields != [] {
      FlatSize(fields[1..]);
      assert Records(fields)[1..] == Records(fields[1..]);
      forall k | 0 <= k < |fields| ensures Size(fields[k]) <= MAX_SIZE {
        assert k > 0 ==> fields[k] == fields[1..][k - 1];
      }
    }
  }

  lemma RecordsAppend(fields: seq<Field>, f: Field)
    ensures Records(fields + [f]) == Records(fields) + [Record(f)]
    ensures fields != [] ==> Records(fields)[1..] == Records(fields[1..])
  {
    hide Record;
  }

  /** Both contents belong to the fields. */
  ghost predicate Stored(octets: seq<Byte>, offsets: seq<nat>, at: nat, fields: seq<Field>) {
    && octets == Flat(Records(fields)) && Offsets(offsets, Records(fields), at)
    && Used(fields) <= MAX_SIZE && Filled(fields)
  }

  lemma StoredEmpty()
    ensures Stored([], [], 0, [])
  {
  }

  /** The oldest field: its offset, its information, and what remains without it. */
  lemma StoredRest(octets: seq<Byte>, offsets: seq<nat>, at: nat, fields: seq<Field>)
    requires Stored(octets, offsets, at, fields) && fields != []
    ensures var f := fields[0]; var n := INFO + |f.name| + |f.value|;
      && n <= |octets| < DATA && |offsets| == |fields| && offsets[0] == at && Size(f) <= MAX_SIZE
      && InfoOf(Piece(octets, 0, INFO)) == Info(|f.name|, |f.value|, f.flags)
      && Stored(octets[n..], offsets[1..], Turn(at + n), fields[1..])
      && Used(fields) == Size(f) + Used(fields[1..])
  {
    var f := fields[0];
    var rs := Records(fields);
    assert rs[1..] == Records(fields[1..]) by { RecordsAppend(fields, f); }
    FlatSize(fields);
    assert rs[0] == Record(f);
    RecordParts(f, rs[0]);
    OffsetsRest(offsets, rs, at);
    hide Record, Flat, Records, Offsets, InfoOf;
    FirstPiece(rs[0], Flat(rs[1..]));
    PieceOfPiece(octets, 0, |rs[0]|, 0, INFO);
    assert octets[|rs[0]|..] == Flat(rs[1..]);
  }

  lemma StoredAppend(octets: seq<Byte>, offsets: seq<nat>, at: nat, fields: seq<Field>, f: Field)
    requires Stored(octets, offsets, at, fields) && Used(fields) + Size(f) <= MAX_SIZE && !IsEmpty(f)
    ensures |octets| + |Record(f)| < DATA && |offsets| < SLOTS - 1
    ensures Stored(octets + Record(f), offsets + [Turn(at + |octets|)], at, fields + [f])
  {
    UsedAppend(fields, f);
    RecordsAppend(fields, f);
    FlatAppend(Records(fields), Record(f));
    FlatSize(fields);
    FlatSize(fields + [f]);
    UsedMany(fields);
    hide Record, Flat, Records;
    OffsetsAppend(offsets, Records(fields), at, Record(f));
  }

  lemma StoredSmall(octets: seq<Byte>, offsets: seq<nat>, at: nat, fields: seq<Field>)
    requires Stored(octets, offsets, at, fields)
    ensures |octets| < DATA - 1 && |offsets| == |fields| <= 124
  {
    FlatSize(fields);
    UsedMany(fields);
    hide Record, Flat;
  }

  /** The k-th field: where it lies and what is there. */
  lemma StoredField(octets: seq<Byte>, offsets: seq<nat>, at: nat, fields: seq<Field>, k: nat)
    requires Stored(octets, offsets, at, fields) && k < |fields|
    ensures var f := fields[k]; var p := Start(Records(fields), k);
      && at < DATA && |offsets| == |fields| && Size(f) <= MAX_SIZE
      && p + INFO + |f.name| + |f.value| <= |octets| < DATA && offsets[k] == Turn(at + p)
      && Piece(octets, p, INFO + |f.name| + |f.value|) == Record(f)
  {
    hide Record;
    var rs := Records(fields);
    FlatSize(fields);
    assert rs[k] == Record(fields[k]) && OffsetIs(offsets[k], rs, k, at) && octets == Flat(rs);
    assert |rs[k]| == INFO + |fields[k].name| + |fields[k].value|;
    hide Record, Flat, Records, Offsets, Start, Piece, Used, Filled, Stored;
    PieceAt(rs, k);
  }

  lemma FieldPieces(octets: seq<Byte>, p: nat, f: Field)
    requires Size(f) <= MAX_SIZE && p + INFO + |f.name| + |f.value| <= |octets|
    requires Piece(octets, p, INFO + |f.name| + |f.value|) == Record(f)
    ensures InfoOf(Piece(octets, p, INFO)) == Info(|f.name|, |f.value|, f.flags)
    ensures Piece(octets, p + INFO, |f.name|) == f.name && Piece(octets, p + INFO + |f.name|, |f.value|) == f.value
  {
    var r := Record(f);
    RecordParts(f, r);
    hide Record, InfoOf, Piece;
    PieceOfPiece(octets, p, |r|, 0, INFO);
    PieceOfPiece(octets, p, |r|, INFO, |f.name|);
    PieceOfPiece(octets, p, |r|, INFO + |f.name|, |f.value|);
  }

  lemma PieceOfPiece<T>(s: seq<T>, p: nat, n: nat, q: nat, m: nat)
    requires p + n <= |s| && q + m <= n
    ensures Piece(Piece(s, p, n), q, m) == Piece(s, p + q, m)
  {
    var a, b := s[p..p + n][q..q + m], s[p + q..p + q + m];
    assert |a| == m && |b| == m;
    assert forall i :: 0 <= i < m ==> a[i] == s[p + q + i] && b[i] == s[p + q + i];
    assert a == b;
  }

  // --- The table ---------------------------------------------------------------------------

  datatype Ret = RetOk | RetError | RetNotFound

  /** hpack_header_table_t */
  class HeaderTable {
    const octets: DataRing            // headers_data
    const offsets: OffsetRing         // headers_offsets
    const statics: seq<Field>         // static_table
    var numHeaders: nat
    var usedData: nat
    var maxData: nat
    ghost var fields: seq<Field>

    ghost function Repr(): set<object> {
      {this, octets, offsets, octets.buffer, offsets.buffer}
    }

    ghost function Model(): Table
      reads this, offsets
    {
      Table(fields, offsets.head, maxData)
    }

    ghost predicate Valid()
      reads Repr()
    {
      && octets.Valid() && offsets.Valid() && |statics| == STATIC_ENTRIES
      && Stored(octets.content, offsets.content, octets.head, fields)
      && numHeaders == |fields| && usedData == Used(fields) && Sound(Model())
    }

    constructor (statics: seq<Field>)
      requires |statics| == STATIC_ENTRIES
      ensures Valid() && fresh(Repr()) && Model() == Table([], 0, MAX_SIZE) && this.statics == statics
      ensures octets.head == 0
    {
      this.statics := statics;
      octets := new DataRing();
      offsets := new OffsetRing();
      numHeaders, usedData, maxData, fields := 0, 0, MAX_SIZE, [];
      new;
      StoredEmpty();
    }

    /** hpack_header_table_clear */
    method Clear()
      requires Valid()
      modifies this, octets, offsets
      ensures Valid() && Model() == Table([], 0, MAX_SIZE)
    {
      octets.Clear();
      offsets.Clear();
      numHeaders, usedData, maxData, fields := 0, 0, MAX_SIZE, [];
      StoredEmpty();
    }

    /** The information about the oldest field. */
    method OldestInfo() returns (evicted: nat, ok: bool, info: Info)
      requires Valid() && fields != []
      ensures ok && evicted == offsets.head
      ensures info == Info(|fields[0].name|, |fields[0].value|, fields[0].flags)
    {
      StoredSmall(octets.content, offsets.content, octets.head, fields);
      StoredRest(octets.content, offsets.content, octets.head, fields);
      hide Stored, Used, Lies, InfoOf, Filled;
      evicted, info := offsets.head, Info(0, 0, Flags(RepEmpty, IsNew, IsNew));
      assert offsets.buffer[Wrap(offsets.head + 0)] == offsets.content[0];
      if octets.head != offsets.buffer[evicted] { return evicted, false, info; }
      var got, bytes := octets.Get(offsets.buffer[evicted], INFO);
      LiesPart(octets.buffer[..], octets.head, octets.content, 0, bytes, INFO);
      info := InfoOf(bytes);
      ok := true;
    }

    /** Both heads move past the oldest field. */
    method DropOldest(info: Info)
      requires Valid() && fields != []
      requires info == Info(|fields[0].name|, |fields[0].value|, fields[0].flags)
      modifies this, octets, offsets
      ensures Valid() && |old(fields)| < SLOTS && Model() == Drop(old(Model()), 1)
      ensures octets.head == Behind(old(octets.head), info)
    {
      hide Stored, Used, InfoOf, Filled, Turn, Lies, DataRing.Valid, OffsetRing.Valid;
      StoredSmall(octets.content, offsets.content, octets.head, fields);
      StoredRest(octets.content, offsets.content, octets.head, fields);
      FilledSuffix(fields, 1);
      offsets.Advance();
      octets.Advance(INFO + info.nameLen + info.valueLen);
      numHeaders := numHeaders - 1;
      usedData := usedData - (info.nameLen + info.valueLen + OVERHEAD);
      fields := fields[1..];
    }

    /** Where the record behind one with some information starts. */
    static function Behind(head: nat, info: Info): nat {
      (head + INFO + info.nameLen + info.valueLen) % DATA
    }

    /** header_table_evict */
    method Evict() returns (ok: bool, evicted: nat)
      requires Valid()
      modifies this, octets, offsets
      ensures Valid() && ok && |old(fields)| < SLOTS
      ensures old(fields) == [] ==> Model() == old(Model())
      ensures old(fields) != [] ==> Model() == Drop(old(Model()), 1) && evicted == old(offsets.head)
      ensures old(fields) != [] ==> var f := old(fields)[0];
        octets.head == Behind(old(octets.head), Info(|f.name|, |f.value|, f.flags))
    {
      FewFields(Model());
      if numHeaders == 0 { return true, 0; }
      var info;
      evicted, ok, info := OldestInfo();
      if !ok { return; }
      DropOldest(info);
    }

    /** Evicts until no more than limit octets are accounted for. */
    method MakeRoom(limit: nat, evictedSet: BitSet) returns (ok: bool)
      requires Valid() && evictedSet.Valid() && evictedSet.members == {}
      requires evictedSet !in Repr() && evictedSet.words !in Repr()
      modifies this, octets, offsets, evictedSet`members, evictedSet.words
      ensures Valid() && evictedSet.Valid() && ok && |old(fields)| < SLOTS
      ensures var n := Excess(old(fields), limit);
        Model() == Drop(old(Model()), n) && evictedSet.members == Oldest(old(Model()), n)
    {
      ghost var t := Model();
      ghost var n := 0;
      FewFields(t);
      DropNone(t);
      hide Stored, Used, Excess, Drop, Sound, DataRing.Valid, OffsetRing.Valid;
      while usedData > limit
        invariant Valid() && evictedSet.Valid() && evictedSet !in Repr() && evictedSet.words !in Repr()
        invariant n <= Excess(t.fields, limit) && Model() == Drop(t, n) && evictedSet.members == Oldest(t, n)
        decreases |t.fields| - n
      {
        DropNext(t, n, limit);
        var evicted;
        ok, evicted := Evict();
        if !ok { return; }
        var added := evictedSet.Add(evicted);
        n := n + 1;
      }
      DropNext(t, n, limit);
      ok := true;
    }

    /** The information, the name and the value follow what is stored. */
    method AppendOctets(f: Field) returns (ok: bool)
      requires octets.Valid() && Size(f) <= MAX_SIZE && |octets.content| + |Record(f)| < DATA
      modifies octets`tail, octets`content, octets.buffer
      ensures octets.Valid() && ok && octets.content == old(octets.content) + Record(f)
    {
      var info := InfoBytes(Info(|f.name|, |f.value|, f.flags));
      assert Record(f) == info + f.name + f.value;
      AppendAll(octets.content, info, f.name, f.value);
      hide Record, InfoBytes, DataRing.Valid;
      ok := octets.Add(info);
      var b := octets.Add(f.name);
      ok := ok && b;
      if 0 < |f.value| {
        b := octets.Add(f.value);
        ok := ok && b;
      }
    }

    /** The new field goes behind the newest: its offset and its octets. */
    method Append(f: Field) returns (ok: bool)
      requires Valid() && !IsEmpty(f) && Used(fields) + Size(f) <= maxData
      modifies Repr()
      ensures Valid() && ok && Model() == old(Model()).(fields := old(fields) + [f])
      ensures octets.head == old(octets.head)
    {
      StoredAppend(octets.content, offsets.content, octets.head, fields, f);
      UsedAppend(fields, f);
      offsets.FullIs();
      assert octets.tail == Turn(octets.head + |octets.content|);
      hide Stored, Used, Record, DataRing.Valid, OffsetRing.Valid, OffsetRing.IsFull;
      if offsets.IsFull() { return false; }
      var start := octets.tail;
      var added := offsets.Add(start);
      ok := AppendOctets(f);
      ok := ok && added;
      usedData := usedData + Size(f);
      numHeaders := numHeaders + 1;
      fields := fields + [f];
    }

    /** hpack_header_table_add */
    method Add(f: Field, evictedSet: BitSet) returns (ok: bool)
      requires Valid() && !IsEmpty(f) && evictedSet.Valid()
      requires evictedSet !in Repr() && evictedSet.words !in Repr()
      modifies Repr(), evictedSet`members, evictedSet.words
      ensures Valid() && evictedSet.Valid() && ok
      ensures var a := HeaderFifo.Add(old(Model()), f); Model() == a.t && evictedSet.members == a.evicted
    {
      ghost var t := Model();
      FewFields(t);
      evictedSet.Clear();
      if Size(f) > maxData {
        Clear();
        evictedSet.Fill();
        return true;
      }
      ok := AddInto(f, evictedSet, t);
    }

    /** The field fits in the table once there is room for it. */
    method AddInto(f: Field, evictedSet: BitSet, ghost t: Table) returns (ok: bool)
      requires Sound(t) && !IsEmpty(f) && Size(f) <= t.max
      requires evictedSet !in Repr() && evictedSet.words !in Repr()
      requires Valid() && Model() == t
      requires evictedSet.Valid() && evictedSet.members == {}
      modifies Repr(), evictedSet`members, evictedSet.words
      ensures Valid() && Model() == HeaderFifo.Add(t, f).t && ok
      ensures evictedSet.Valid() && evictedSet.members == HeaderFifo.Add(t, f).evicted
    {
      hide Stored, Used, Excess, DataRing.Valid, OffsetRing.Valid, BitSet.Valid, Size, Sound, Drop, HeaderFifo.Add, Oldest;
      FewFields(t);
      AddParts(t, f);
      var room := MakeRoom(maxData - Size(f), evictedSet);
      if !room { return false; }
      hide HeaderTable.Valid;
      ok := Append(f);
    }

    /** hpack_header_table_set_max; the argument has sixteen bits. */
    method SetMax(max: nat, evictedSet: BitSet) returns (ok: bool)
      requires Valid() && evictedSet.Valid()
      requires evictedSet !in Repr() && evictedSet.words !in Repr()
      modifies this, octets, offsets, evictedSet`members, evictedSet.words
      ensures Valid() && evictedSet.Valid() && (ok <==> max <= MAX_SIZE)
      ensures !ok ==> Model() == old(Model()) && evictedSet.members == {}
      ensures ok ==> var a := HeaderFifo.SetMax(old(Model()), max); Model() == a.t && evictedSet.members == a.evicted
    {
      ghost var t := Model();
      FewFields(t);
      evictedSet.Clear();
      if max > MAX_SIZE { return false; }
      SetMaxSound(t, max);
      hide Stored, Used, Excess, DataRing.Valid, OffsetRing.Valid;
      if max == 0 {
        Clear();
      } else {
        var room := MakeRoom(max, evictedSet);
        if !room { return false; }
      }
      maxData := max;
      ok := true;
    }

    lemma SlotLive(n: nat)
      requires Valid() && n < SLOTS && n != offsets.tail
      ensures numHeaders >= (offsets.tail - n + SLOTS) % SLOTS <==> PlaceOf(Model(), n) < |fields|
    {
      FewFields(Model());
      StoredSmall(octets.content, offsets.content, octets.head, fields);
      hide Stored, Used, Sound;
    }

    /** What the slot of a field yields. */
    lemma SlotReads(n: nat, k: nat)
      requires Valid() && n < SLOTS && k == PlaceOf(Model(), n) < |fields|
      ensures ReadAt(octets.buffer[..], offsets.buffer[n]) == Whole(fields[k])
    {
      StoredReadable(octets.content, offsets.content, octets.head, fields, k);
      hide Stored, Used, Sound, Lies, Turn, Readable, ReadAt;
      assert n == Wrap(offsets.head + k);
      assert offsets.buffer[n] == offsets.content[k];
      var p: nat :| Readable(octets.content, octets.head, offsets.buffer[n], p, fields[k]);
      ReadableRead(octets.buffer[..], octets.content, octets.head, offsets.buffer[n], p, fields[k]);
    }

    /** What lies in the free slot behind the newest field. */
    ghost function Left(): Reading
      requires Valid()
      reads Repr()
    {
      ReadAt(octets.buffer[..], offsets.buffer[offsets.tail])
    }

    /** hpack_header_table_get_set_idx: the field in a slot; the free slot behind the newest passes for one. */
    method GetSetIdx(n: nat, onlyName: bool) returns (r: Ret, f: Field)
      requires Valid()
      ensures SlotGives(n, onlyName, r, f)
    {
      hide Valid, Stored, Used, Sound, ReadAt, PlaceOf, DataRing.Valid, OffsetRing.Valid, View;
      Shape();
      if n < SLOTS && n != offsets.tail { SlotLive(n); }
      if n < SLOTS && PlaceOf(Model(), n) < |fields| { SlotReads(n, PlaceOf(Model(), n)); }
      if n >= SLOTS { return RetNotFound, CLEAN; }
      if numHeaders < (offsets.tail - n + SLOTS) % SLOTS { return RetError, CLEAN; }
      r, f := ReadRecord(offsets.buffer[n], onlyName);
    }

    /** A live slot gives its field, the free slot behind the newest what is left there, and any other an
        error. */
    ghost predicate SlotGives(n: nat, onlyName: bool, r: Ret, f: Field)
      requires Valid()
      reads Repr()
    {
      if n >= SLOTS then r == RetNotFound && f == CLEAN
      else if n == offsets.tail then Reads(Left(), onlyName, r, f)
      else if PlaceOf(Model(), n) < |fields| then r == RetOk && f == View(Denotes(Model(), n), onlyName)
      else r == RetError && f == CLEAN
    }

    lemma Shape()
      requires Valid()
      ensures |statics| == STATIC_ENTRIES && numHeaders == |fields| <= 124 && offsets.tail < SLOTS && offsets.head < SLOTS
      ensures octets.Valid() && octets.buffer.Length == DATA && offsets.buffer.Length == SLOTS
      ensures forall k :: 0 <= k < SLOTS ==> offsets.buffer[k] < DATA
      ensures PlaceOf(Model(), offsets.tail) == |fields|
    {
      FewFields(Model());
      StoredSmall(octets.content, offsets.content, octets.head, fields);
      hide Stored, Used, Sound;
    }

    /** The information, the name and the value from an offset on. */
    method ReadRecord(start: nat, onlyName: bool) returns (r: Ret, f: Field)
      requires octets.Valid() && start < DATA
      ensures Reads(ReadAt(octets.buffer[..], start), onlyName, r, f)
    {
      hide InfoOf, Lies, Turn;
      f := CLEAN;
      var ok, bytes := octets.Get(start, INFO);
      LiesRing(octets.buffer[..], start, bytes);
      var info := InfoOf(bytes);
      var offset, name := (start + INFO) % DATA, [];
      ok, name := octets.Get(offset, info.nameLen);
      if !ok { return RetError, f; }
      LiesRing(octets.buffer[..], offset, name);
      f := Field(name, [], info.flags);
      if onlyName { return RetOk, f; }
      if 0 < info.valueLen {
        offset := (offset + info.nameLen) % DATA;
        var value;
        ok, value := octets.Get(offset, info.valueLen);
        if !ok { return RetError, f; }
        LiesRing(octets.buffer[..], offset, value);
        f := Field(name, value, info.flags);
      }
      r := RetOk;
    }

    /** INDEX_SWITCH_HT_HPACK */
    function IndexSwitch(i: nat): nat
      reads this, offsets
    {
      (offsets.tail - i + SLOTS) % SLOTS
    }

    lemma IndexSwitchIs(i: nat)
      requires Valid()
      ensures |fields| < SLOTS && IndexSwitch(i) == Switch(Model(), i)
    {
      FewFields(Model());
      StoredSmall(octets.content, offsets.content, octets.head, fields);
      hide Stored, Used, Sound;
    }

    /** The slot of an index of the table; that of index 0 is the free one. */
    lemma IndexFacts(n: nat)
      requires Valid() && n <= numHeaders
      ensures n == 0 ==> IndexSwitch(n) == offsets.tail
      ensures n > 0 ==> IndexSwitch(n) < SLOTS && IndexSwitch(n) != offsets.tail && PlaceOf(Model(), IndexSwitch(n)) == |fields| - n
    {
      FewFields(Model());
      StoredSmall(octets.content, offsets.content, octets.head, fields);
      if n > 0 {
        SwitchIndex(Model(), n);
        SlotPlace(Model(), numHeaders - n);
      }
      hide Stored, Used, Sound;
    }

    /** hpack_header_table_get: the entry of the dynamic or the static table with an HPACK index. */
    method Get(n: nat, onlyName: bool) returns (r: Ret, f: Field, isStatic: bool)
      requires Valid()
      ensures IndexGives(n, onlyName, r, f, isStatic)
    {
      hide Stored, Used, Sound, PlaceOf, ReadAt, SlotGives, IndexGives, View, DataRing.Valid, OffsetRing.Valid;
      Shape();
      f := CLEAN;
      isStatic := n > numHeaders;
      if n > STATIC_ENTRIES + numHeaders {
        r := RetNotFound;
        GivesOther(n, onlyName);
        return;
      }
      if isStatic {
        f := View(statics[n - (numHeaders + 1)], onlyName);
        r := RetOk;
        GivesOther(n, onlyName);
        return;
      }
      r, f := GetSetIdx(IndexSwitch(n), onlyName);
      GivesSlot(n, onlyName, r, f);
    }

    /** The results of a lookup are those of the entry with an index. */
    ghost predicate IndexGives(n: nat, onlyName: bool, r: Ret, f: Field, isStatic: bool)
      requires Valid()
      reads Repr()
    {
      Gives(HeaderFifo.Get(Model(), Outside(statics, Left()), n), onlyName, r, f, isStatic)
    }

    lemma GivesOther(n: nat, onlyName: bool)
      requires Valid() && n > numHeaders
      ensures |statics| == STATIC_ENTRIES
      ensures n > STATIC_ENTRIES + numHeaders ==> IndexGives(n, onlyName, RetNotFound, CLEAN, true)
      ensures n <= STATIC_ENTRIES + numHeaders ==>
        IndexGives(n, onlyName, RetOk, View(statics[n - (numHeaders + 1)], onlyName), true)
    {
      hide Stored, Used, ReadAt, View;
    }

    lemma GivesSlot(n: nat, onlyName: bool, r: Ret, f: Field)
      requires Valid() && n <= numHeaders && SlotGives(IndexSwitch(n), onlyName, r, f)
      ensures IndexGives(n, onlyName, r, f, false)
    {
      Shape();
      IndexFacts(n);
      hide Stored, Used, Sound, ReadAt, View;
    }
  }

  /** After a limit of zero the octets are still there: index 0 finds the field that had the first slot. */
  method UncoverFirst(table: HeaderTable, evictedSet: BitSet, ghost f: Field)
    requires table.Valid() && evictedSet.Valid()
    requires evictedSet !in table.Repr() && evictedSet.words !in table.Repr()
    requires PlaceOf(table.Model(), 0) < |table.fields| && f == Denotes(table.Model(), 0)
    modifies table, table.octets, table.offsets, evictedSet`members, evictedSet.words
    ensures table.Valid() && table.Model() == Table([], 0, 0) && table.Left() == Whole(f)
    ensures HeaderFifo.Get(table.Model(), Outside(table.statics, table.Left()), 0) == InTable(f)
  {
    table.Shape();
    table.SlotReads(0, PlaceOf(table.Model(), 0));
    hide Stored, Used, ReadAt, DataRing.Valid, Excess;
    var ok := table.SetMax(0, evictedSet);
  }

  lemma StoredReadable(octets: seq<Byte>, offsets: seq<nat>, at: nat, fields: seq<Field>, k: nat)
    requires Stored(octets, offsets, at, fields) && k < |fields|
    ensures |offsets| == |fields|
    ensures exists p: nat :: Readable(octets, at, offsets[k], p, fields[k])
  {
    var p := Start(Records(fields), k);
    StoredField(octets, offsets, at, fields, k);
    FieldPieces(octets, p, fields[k]);
    hide Stored, Used, Record, Records, Start, Piece, InfoOf, Turn;
    assert Readable(octets, at, offsets[k], p, fields[k]);
  }

  /** The record of a field lies at an offset, p octets behind the head. */
  ghost predicate Readable(content: seq<Byte>, head: nat, offset: nat, p: nat, f: Field) {
    && head < DATA && p + INFO + |f.name| + |f.value| <= |content| < DATA && offset == Turn(head + p)
    && InfoOf(Piece(content, p, INFO)) == Info(|f.name|, |f.value|, f.flags)
    && Piece(content, p + INFO, |f.name|) == f.name && Piece(content, p + INFO + |f.name|, |f.value|) == f.value
  }

  /** The octets in a circular buffer from a position on. */
  function Ring<T>(buffer: seq<T>, at: nat, n: nat): (s: seq<T>)
    requires |buffer| == DATA && at < DATA && n <= DATA
    ensures |s| == n
  {
    seq(n, i requires 0 <= i < n => buffer[Turn(at + i)])
  }

  lemma LiesRing(buffer: seq<Byte>, at: nat, s: seq<Byte>)
    requires Lies(buffer, at, s)
    ensures Ring(buffer, at, |s|) == s
  {
  }

  lemma RingPiece(buffer: seq<Byte>, head: nat, content: seq<Byte>, p: nat, n: nat)
    requires Lies(buffer, head, content) && p + n <= |content| < DATA
    ensures Turn(head + p) < DATA && Ring(buffer, Turn(head + p), n) == Piece(content, p, n)
  {
    var a, b := Ring(buffer, Turn(head + p), n), Piece(content, p, n);
    forall i | 0 <= i < n ensures a[i] == b[i] {
      assert Turn(Turn(head + p) + i) == Turn(head + (p + i));
    }
  }

  /** What is read from an offset on, whatever was stored there: a length above that of the buffer is
      refused. */
  function ReadAt(buffer: seq<Byte>, at: nat): Reading
    requires |buffer| == DATA && at < DATA
  {
    var info := InfoOf(Ring(buffer, at, INFO));
    var named := (at + INFO) % DATA;
    if info.nameLen > DATA then Unreadable
    else
      var f := Field(Ring(buffer, named, info.nameLen), [], info.flags);
      if info.valueLen > DATA then NameOnly(f)
      else Whole(Field(f.name, Ring(buffer, (named + info.nameLen) % DATA, info.valueLen), info.flags))
  }

  /** What a record yields that lies at an offset. */
  lemma ReadableRead(buffer: seq<Byte>, content: seq<Byte>, head: nat, offset: nat, p: nat, f: Field)
    requires Lies(buffer, head, content) && Readable(content, head, offset, p, f)
    ensures offset < DATA && ReadAt(buffer, offset) == Whole(f)
  {
    hide Lies, InfoOf, Ring, Piece, Turn;
    RecordTurns(head, p, |f.name|);
    RingPiece(buffer, head, content, p, INFO);
    RingPiece(buffer, head, content, p + INFO, |f.name|);
    RingPiece(buffer, head, content, p + INFO + |f.name|, |f.value|);
  }

  /** Where name and value of the record at p begin. */
  lemma RecordTurns(head: nat, p: nat, n: nat)
    requires head < DATA && p + INFO + n < DATA
    ensures Turn(head + p) < DATA && (Turn(head + p) + INFO) % DATA == Turn(head + (p + INFO)) < DATA
    ensures (Turn(head + (p + INFO)) + n) % DATA == Turn(head + (p + INFO + n)) < DATA
  {
  }

  /** The results of a lookup, as what is found gives them with or without the value. */
  ghost predicate Gives(found: Found, onlyName: bool, r: Ret, f: Field, isStatic: bool) {
    isStatic == (found.InStatic? || found.Missing?) &&
    match found
    case InTable(g) => r == RetOk && f == View(g, onlyName)
    case InStatic(g) => r == RetOk && f == View(g, onlyName)
    case InPart(g) => r == (if onlyName then RetOk else RetError) && f == g
    case Unread => r == RetError && f == CLEAN
    case Missing => r == RetNotFound && f == CLEAN
  }

  /** A result and a field, as a reading gives them with or without the value. */
  ghost predicate Reads(rd: Reading, onlyName: bool, r: Ret, f: Field) {
    match rd
    case Unreadable => r == RetError && f == CLEAN
    case NameOnly(g) => r == (if onlyName then RetOk else RetError) && f == g
    case Whole(g) => r == RetOk && f == View(g, onlyName)
  }

  function View(f: Field, onlyName: bool): Field {
    if onlyName then f.(value := []) else f
  }

  // --- The read as it is written ---------------------------------------------------------------

  datatype Copied<T> = Copied(bytes: seq<T>) | OutOfBounds

  /** header_data_get takes the run to the physical end to be DATA - offset - head, unsigned. */
  function GetAsWritten<T>(buffer: seq<T>, head: nat, offset: nat, num: nat): Copied<T>
    requires |buffer| == DATA && head < DATA && offset < DATA && num <= DATA
  {
    var toEnd := DATA - offset - head + (if offset + head > DATA then 0x1_0000_0000 else 0);
    if toEnd >= num then
      if offset + num <= DATA then Copied(buffer[offset..offset + num]) else OutOfBounds
    else Copied(buffer[offset..offset + toEnd] + buffer[..num - toEnd])
  }

  function GetIntended<T>(buffer: seq<T>, offset: nat, num: nat): Copied<T>
    requires |buffer| == DATA && offset < DATA && num <= DATA
  {
    var toEnd := DATA - offset;
    Copied(if toEnd >= num then buffer[offset..offset + num] else buffer[offset..] + buffer[..num - toEnd])
  }

  ghost predicate ReadsRight(head: nat, offset: nat, num: nat)
    requires head < DATA && offset < DATA && num <= DATA
  {
    forall buffer: seq<Byte> :: |buffer| == DATA ==> GetAsWritten(buffer, head, offset, num) == GetIntended(buffer, offset, num)
  }

  predicate RightRead(head: nat, offset: nat, num: nat) {
    head == 0 || offset + head + num <= DATA || (offset + head > DATA && offset + num <= DATA)
  }

  /** When the read as it is written returns what was stored, whatever that is. */
  lemma AsWrittenIsRight(head: nat, offset: nat, num: nat)
    requires head < DATA && offset < DATA && num <= DATA
    ensures ReadsRight(head, offset, num) <==> RightRead(head, offset, num)
  {
    hide GetAsWritten, GetIntended, RightRead;
    if RightRead(head, offset, num) {
      forall buffer: seq<Byte> | |buffer| == DATA
        ensures GetAsWritten(buffer, head, offset, num) == GetIntended(buffer, offset, num)
      {
        RightReadAgrees(buffer, head, offset, num);
      }
    } else {
      var buffer := FirstOne();
      WrongReadDiffers(buffer, head, offset, num);
      assert |buffer| == DATA;
    }
  }

  /** The three reads of a field: its information, its name and its value. */
  ghost predicate FieldReadsRight(head: nat, offset: nat, nameLen: nat, valueLen: nat)
    requires head < DATA && offset < DATA && nameLen <= DATA && valueLen <= DATA
  {
    && ReadsRight(head, offset, INFO) && ReadsRight(head, (offset + INFO) % DATA, nameLen)
    && ReadsRight(head, (offset + INFO + nameLen) % DATA, valueLen)
  }

  predicate RightField(head: nat, offset: nat, nameLen: nat, valueLen: nat) {
    && RightRead(head, offset, INFO) && RightRead(head, (offset + INFO) % DATA, nameLen)
    && RightRead(head, (offset + INFO + nameLen) % DATA, valueLen)
  }

  lemma FieldAsWritten(head: nat, offset: nat, nameLen: nat, valueLen: nat)
    requires head < DATA && offset < DATA && nameLen <= DATA && valueLen <= DATA
    ensures FieldReadsRight(head, offset, nameLen, valueLen) <==> RightField(head, offset, nameLen, valueLen)
  {
    hide ReadsRight, RightRead;
    AsWrittenIsRight(head, offset, INFO);
    AsWrittenIsRight(head, (offset + INFO) % DATA, nameLen);
    AsWrittenIsRight(head, (offset + INFO + nameLen) % DATA, valueLen);
  }

  /** When the k-th field of a table is read right as it is written. */
  lemma StoredAsWritten(octets: seq<Byte>, offsets: seq<nat>, at: nat, fields: seq<Field>, k: nat)
    requires Stored(octets, offsets, at, fields) && k < |fields|
    ensures |offsets| == |fields| && at < DATA && offsets[k] < DATA && |fields[k].name| < DATA && |fields[k].value| < DATA
    ensures var f := fields[k];
      FieldReadsRight(at, offsets[k], |f.name|, |f.value|) <==> RightField(at, offsets[k], |f.name|, |f.value|)
  {
    hide Stored, Record, Records, Start, Piece, FieldReadsRight, RightField;
    StoredField(octets, offsets, at, fields, k);
    FieldAsWritten(at, offsets[k], |fields[k].name|, |fields[k].value|);
  }

  /** The information of the oldest field, which lies at the head, is read wrong just behind the middle of
      the buffer and at its end. */
  lemma OldestAsWritten(head: nat)
    requires head < DATA
    ensures ReadsRight(head, head, INFO) <==> head < 2045 || 2048 < head < 4089
  {
    AsWrittenIsRight(head, head, INFO);
    hide ReadsRight;
  }

  /** A table gets there: two fields are stored, the first of 2037 octets, and it is evicted. */
  method ReachMiddle(statics: seq<Field>, f: Field, g: Field) returns (table: HeaderTable)
    requires |statics| == STATIC_ENTRIES && |f.name| + |f.value| == 2037 && !IsEmpty(g) && Size(f) + Size(g) <= MAX_SIZE
    ensures fresh(table) && table.Valid() && table.Model() == Table([g], 1, MAX_SIZE)
    ensures table.octets.head == 2045 && !ReadsRight(table.octets.head, table.octets.head, INFO)
  {
    table := new HeaderTable(statics);
    assert Used([]) == 0 && Used([f]) == Size(f);
    OldestAsWritten(2045);
    hide Stored, Used, DataRing.Valid, OffsetRing.Valid, ReadsRight, Record;
    var ok := table.Append(f);
    ok := table.Append(g);
    assert [f] + [g] == [f, g] && [f, g][1..] == [g];
    var evicted;
    ok, evicted := table.Evict();
  }

  lemma RightReadAgrees<T>(buffer: seq<T>, head: nat, offset: nat, num: nat)
    requires |buffer| == DATA && head < DATA && offset < DATA && num <= DATA && RightRead(head, offset, num)
    ensures GetAsWritten(buffer, head, offset, num) == GetIntended(buffer, offset, num)
  {
  }

  function FirstOne(): (s: seq<Byte>)
    ensures |s| == DATA && forall i :: 0 <= i < DATA ==> s[i] == if i == 0 then 1 else 0
  {
    seq(DATA, i => if i == 0 then 1 else 0)
  }

  lemma WrongReadDiffers<T>(buffer: seq<T>, head: nat, offset: nat, num: nat)
    requires head < DATA && offset < DATA && num <= DATA && !RightRead(head, offset, num)
    requires |buffer| == DATA && forall i :: 0 < i < DATA ==> buffer[i] != buffer[0]
    ensures GetAsWritten(buffer, head, offset, num) != GetIntended(buffer, offset, num)
  {
    if offset + head <= DATA {
      var e := DATA - offset - head;
      var a, b := GetAsWritten(buffer, head, offset, num), GetIntended(buffer, offset, num);
      assert a.Copied? && a.bytes[e] == buffer[0];
      assert b.bytes[e] == buffer[offset + e];
    }
  }

  lemma AppendAll<T>(a: seq<T>, b: seq<T>, c: seq<T>, d: seq<T>)
    ensures a + (b + c + d) == a + b + c + d && (d == [] ==> a + (b + c + d) == a + b + c)
  {
  }

  lemma AddParts(t: Table, f: Field)
    requires Sound(t) && !IsEmpty(f) && Size(f) <= t.max && |t.fields| < SLOTS
    ensures var n := Excess(t.fields, t.max - Size(f)); var kept := Drop(t, n);
      && kept.max == t.max && Used(kept.fields) + Size(f) <= t.max
      && HeaderFifo.Add(t, f) == Added(kept.(fields := kept.fields + [f]), Oldest(t, n))
  {
    ExcessIsLeast(t.fields, t.max - Size(f), Excess(t.fields, t.max - Size(f)));
  }

  lemma DropNone(t: Table)
    requires t.head < SLOTS && |t.fields| < SLOTS
    ensures Drop(t, 0) == t && Oldest(t, 0) == {}
  {
  }

  /** One more eviction. */
  lemma DropNext(t: Table, n: nat, limit: nat)
    requires Sound(t) && |t.fields| < SLOTS && n <= Excess(t.fields, limit)
    ensures Drop(t, n).head < SLOTS && Used(Drop(t, n).fields) <= limit <==> n == Excess(t.fields, limit)
    ensures n < Excess(t.fields, limit) ==> Drop(t, n).fields != []
    ensures n < Excess(t.fields, limit) ==> Drop(Drop(t, n), 1) == Drop(t, n + 1)
    ensures n < Excess(t.fields, limit) ==> Oldest(t, n + 1) == Oldest(t, n) + {Drop(t, n).head}
  {
    ExcessIsLeast(t.fields, limit, n);
    if n < Excess(t.fields, limit) {
      assert t.fields[n..][1..] == t.fields[n + 1..];
      assert Slot(Drop(t, n).head);
    }
  }
}
