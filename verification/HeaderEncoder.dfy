/** libhpack/header_encoder.c: rendering fields as literals without indexing, and parsing them back. */
module HeaderEncoders {
  import Sequences
  import opened Bits
  import opened BitmapSets
  import opened HeaderFifo
  import opened HeaderBlocks
  import HeaderTables
  import HeaderRuns
  import HeaderParsers
  import Integers
  import HuffmanCode
  import HuffmanTable
  import Huffman

  /** The length of a Huffman-encoded text. */
  ghost function HuffmanLength(code: Code, text: seq<Byte>): nat
    requires HuffmanCode.Good(code)
  {
    (|HuffmanCode.Encode(code, text)| + 7) / 8
  }

  lemma EncodesLength(code: Code, text: seq<Byte>, octets: seq<Byte>)
    requires HuffmanCode.Good(code) && Huffman.Encodes(code, text, octets)
    ensures |octets| == HuffmanLength(code, text)
  {
    hide HuffmanCode.Encode, BytesBits;
    var n := |HuffmanCode.Encode(code, text)|;
    assert 8 * |octets| == n + Huffman.PadBits(n);
  }

  /** A string literal: its length behind the H bit, and the encoded text. */
  ghost predicate StringOf(code: Code, text: seq<Byte>, s: seq<Byte>)
    requires HuffmanCode.Good(code)
  {
    exists octets :: StringIs(code, text, octets, s)
  }

  ghost predicate StringIs(code: Code, text: seq<Byte>, octets: seq<Byte>, s: seq<Byte>)
    requires HuffmanCode.Good(code)
  {
    Huffman.Encodes(code, text, octets) && s == Integers.Encoded(7, |octets|, 128) + octets
  }

  /** A literal without indexing, with a new name. */
  ghost predicate RecordOf(code: Code, f: Field, r: seq<Byte>)
    requires HuffmanCode.Good(code)
  {
    exists name, value :: RecordIs(code, f, name, value, r)
  }

  ghost predicate RecordIs(code: Code, f: Field, name: seq<Byte>, value: seq<Byte>, r: seq<Byte>)
    requires HuffmanCode.Good(code)
  {
    StringOf(code, f.name, name) && StringOf(code, f.value, value) && r == [0] + name + value
  }

  /** The records of the fields, one after the other. */
  ghost predicate Rendered(code: Code, fields: seq<Field>, rs: seq<seq<Byte>>)
    requires HuffmanCode.Good(code)
  {
    |rs| == |fields| && forall k :: 0 <= k < |fields| ==> RecordOf(code, fields[k], rs[k])
  }

  /** Lengths are unsigned ints. */
  ghost predicate Encodable(code: Code, f: Field)
    requires HuffmanCode.Good(code)
  {
    HuffmanLength(code, f.name) <= Integers.UINT_MAX && HuffmanLength(code, f.value) <= Integers.UINT_MAX
  }

  /** chula_buffer_t, as it is appended to. */
  class Output {
    var data: seq<Byte>

    constructor ()
      ensures data == []
    {
      data := [];
    }
  }

  /** hpack_header_encoder_t; entries is the table of codewords. */
  class HeaderEncoder {
    var store: seq<Field>
    const tmp: Huffman.OutBuffer
    const entries: seq<Huffman.Entry>
    ghost const code: Code

    ghost predicate Valid() {
      HuffmanCode.Good(code) && Huffman.EntriesOf(code, entries)
    }

    /** hpack_header_encoder_init */
    constructor (entries: seq<Huffman.Entry>, ghost code: Code)
      requires HuffmanCode.Good(code) && Huffman.EntriesOf(code, entries)
      ensures Valid() && store == [] && this.code == code && fresh(tmp)
    {
      store, this.entries, this.code := [], entries, code;
      tmp := new Huffman.OutBuffer();
    }

    /** hpack_header_encoder_add_field */
    method AddField(f: Field)
      modifies this`store
      ensures store == old(store) + [f]
    {
      store := store + [f];
    }

    /** add_string, as it is called: with Huffman encoding. */
    method AddString(text: seq<Byte>, output: Output, ghost was: seq<Byte>) returns (ghost s: seq<Byte>)
      requires Valid() && HuffmanLength(code, text) <= Integers.UINT_MAX && output.data == was
      modifies tmp, output
      ensures StringOf(code, text, s) && output.data == was + s
    {
      hide HuffmanCode.Good, Huffman.EntriesOf, Huffman.Encodes, Integers.Encoded;
      tmp.mem := [];
      tmp.len := 0;
      Huffman.HuffmanEncode(text, tmp, entries, code);
      var octets := tmp.mem[..tmp.len];
      assert tmp.mem[0..tmp.len] == octets;
      EncodesLength(code, text, octets);
      var mem := new Byte[16](_ => 0);
      mem[0] := 128;
      Integers.EncodedShort(7, tmp.len, 128);
      var memLen := Integers.Encode(7, tmp.len, mem);
      s := mem[..memLen] + octets;
      output.data := output.data + mem[..memLen];
      output.data := output.data + octets;
      assert StringIs(code, text, octets, s);
    }

    /** render_literal, as it is called: with Huffman encoding and without indexing. */
    method RenderLiteral(f: Field, output: Output, ghost was: seq<Byte>) returns (ghost r: seq<Byte>)
      requires Valid() && Encodable(code, f) && output.data == was
      modifies tmp, output
      ensures RecordOf(code, f, r) && output.data == was + r
    {
      hide HuffmanCode.Good, Huffman.EntriesOf, StringOf, HuffmanLength;
      output.data := output.data + [0];
      ghost var name := AddString(f.name, output, was + [0]);
      ghost var value := AddString(f.value, output, was + [0] + name);
      r := [0] + name + value;
      assert RecordIs(code, f, name, value, r);
      HeaderTables.AppendAll(was, [0], name, value);
    }

    /** hpack_header_encoder_render */
    method Render(output: Output) returns (ghost rs: seq<seq<Byte>>)
      requires Valid() && forall k :: 0 <= k < |store| ==> Encodable(code, store[k])
      modifies tmp, output
      ensures Rendered(code, store, rs) && output.data == old(output.data) + HeaderTables.Flat(rs)
    {
      hide HuffmanCode.Good, Huffman.EntriesOf, RecordOf, Encodable;
      rs := [];
      ghost var was := output.data;
      assert HeaderTables.Flat<Byte>([]) == [];
      for i := 0 to |store|
        invariant |rs| == i && forall k :: 0 <= k < i ==> RecordOf(code, store[k], rs[k])
        invariant output.data == was + HeaderTables.Flat(rs)
      {
        ghost var r := RenderLiteral(store[i], output, was + HeaderTables.Flat(rs));
        HeaderTables.FlatAppend(rs, r);
        Sequences.Associate(was, HeaderTables.Flat(rs), r);
        rs := rs + [r];
      }
    }
  }

  // --- Parsing what was rendered ----------------------------------------------------------

  /** A rendered string. */
  ghost function StringSize(code: Code, text: seq<Byte>): nat
    requires HuffmanCode.Good(code)
  {
    var n := HuffmanLength(code, text);
    |Integers.Encoded(7, n, 128)| + n
  }

  ghost function RecordSize(code: Code, f: Field): nat
    requires HuffmanCode.Good(code)
  {
    1 + StringSize(code, f.name) + StringSize(code, f.value)
  }

  /** The octets of the records from the k-th on. */
  ghost function Room(code: Code, fields: seq<Field>, k: nat): nat
    requires HuffmanCode.Good(code) && k <= |fields|
    decreases |fields| - k
  {
    if k == |fields| then 0 else RecordSize(code, fields[k]) + Room(code, fields, k + 1)
  }

  /** The parser narrows the number of octets left to eight bits: a length of more than one octet is read
      only if that number leaves enough of them. */
  ghost predicate Survives(code: Code, text: seq<Byte>, room: nat)
    requires HuffmanCode.Good(code)
  {
    var n := HuffmanLength(code, text);
    n < 127 || room % 256 >= |Integers.Encoded(7, n, 128)|
  }

  ghost predicate RecordSurvives(code: Code, f: Field, room: nat)
    requires HuffmanCode.Good(code)
  {
    && room >= RecordSize(code, f)
    && Survives(code, f.name, room - 1) && Survives(code, f.value, room - 1 - StringSize(code, f.name))
  }

  ghost predicate AllSurvive(code: Code, fields: seq<Field>, k: nat)
    requires HuffmanCode.Good(code) && k <= |fields|
    decreases |fields| - k
  {
    k < |fields| ==> RecordSurvives(code, fields[k], Room(code, fields, k)) && AllSurvive(code, fields, k + 1)
  }

  ghost predicate AllEncodable(code: Code, fields: seq<Field>)
    requires HuffmanCode.Good(code)
  {
    forall k :: 0 <= k < |fields| ==> Encodable(code, fields[k])
  }

  /** Strings of less than 127 octets always survive. */
  lemma {:induction false} ShortSurvive(code: Code, fields: seq<Field>, k: nat)
    requires HuffmanCode.Good(code) && k <= |fields|
    requires forall j :: 0 <= j < |fields| ==> HuffmanLength(code, fields[j].name) < 127 && HuffmanLength(code, fields[j].value) < 127
    ensures AllSurvive(code, fields, k)
    decreases |fields| - k
  {
    hide HuffmanCode.Good, HuffmanLength, StringSize;
    if k < |fields| { ShortSurvive(code, fields, k + 1); }
  }

  /** The field as the parser returns it. */
  function Parsed(f: Field): Field {
    Field(f.name, f.value, Flags(RepWithoutIndexing, IsNewHuffman, IsNewHuffman))
  }

  /** s lies in b at an offset. */
  ghost predicate Has<T>(b: seq<T>, offset: nat, s: seq<T>) {
    offset + |s| <= |b| && b[offset..offset + |s|] == s
  }

  lemma HasParts<T>(b: seq<T>, offset: nat, x: seq<T>, y: seq<T>)
    requires Has(b, offset, x + y)
    ensures Has(b, offset, x) && Has(b, offset + |x|, y)
  {
    var s := b[offset..offset + |x + y|];
    assert s[..|x|] == b[offset..offset + |x|];
    assert s[|x|..] == b[offset + |x|..offset + |x| + |y|];
  }

  lemma {:induction false} GroupsCut(mem: seq<Byte>, m: nat, i: nat, acc: nat, v: nat)
    requires 1 <= i && m <= |mem| && m < i + |Integers.Groups(v)| && i <= |mem| && Integers.Groups(v) <= mem[i..]
    ensures Integers.DecodeGroups(mem, m, i, acc) == Integers.Bad
    decreases v
  {
    var g := Integers.Groups(v);
    if i < m {
      assert v >= 128 && mem[i] == g[0];
      assert g[1..] == Integers.Groups(v / 128) && mem[i + 1..] == mem[i..][1..];
      assert g[1..] <= mem[i + 1..];
      GroupsCut(mem, m, i + 1, acc + Shl(mem[i] % 128, 7 * (i - 1)), v / 128);
    }
  }

  /** The length of a string, whatever stands behind it. */
  lemma LengthDecodes(n: nat, rest: seq<Byte>, r: nat)
    requires n <= Integers.UINT_MAX
    requires r <= |Integers.Encoded(7, n, 128) + rest|
    ensures var e := Integers.Encoded(7, n, 128);
      && e[0] >= 128
      && Integers.DecodeInt(7, e + rest, r) == if n < 127 || r >= |e| then Integers.Decoded(n, |e|) else Integers.Bad
  {
    hide Integers.Encoded, Integers.DecodeInt, AndNot, And;
    var e := Integers.Encoded(7, n, 128);
    Integers.RoundTrip(7, n, 128, rest, |e|);
    HighBitKept(e[0]);
    if r >= |e| {
      Integers.RoundTrip(7, n, 128, rest, r);
    } else if n >= 127 {
      LengthCut(n, rest, r);
    } else {
      LengthShort(n, e + rest, r);
    }
  }

  lemma HighBitKept(x: Byte)
    requires AndNot(x, Integers.Limit(7)) == AndNot(128, Integers.Limit(7))
    ensures x >= 128
  {
    AndLess(x, 127);
    assert AndNot(128, 127) == 128;
  }

  lemma LengthShort(n: nat, mem: seq<Byte>, r: nat)
    requires n < 127 && r <= |mem| && |Integers.Encoded(7, n, 128)| <= |mem|
    requires Integers.DecodeInt(7, mem, |Integers.Encoded(7, n, 128)|).Decoded?
    ensures Integers.DecodeInt(7, mem, r) == Integers.DecodeInt(7, mem, |Integers.Encoded(7, n, 128)|)
  {
    hide And, AndNot, Or;
  }

  lemma LengthCut(n: nat, rest: seq<Byte>, r: nat)
    requires 127 <= n <= Integers.UINT_MAX && r < |Integers.Encoded(7, n, 128)|
    ensures Integers.DecodeInt(7, Integers.Encoded(7, n, 128) + rest, r) == Integers.Bad
  {
    var e := Integers.Encoded(7, n, 128);
    FirstFull(n);
    hide And, AndNot, Or, Integers.DecodeGroups, Integers.Groups;
    TailPrefix(e[0], Integers.Groups(n - 127), rest);
    assert e == [e[0]] + Integers.Groups(n - 127);
    GroupsCut(e + rest, Integers.Min(r, Integers.VLQ_MAX_LEN), 1, 127, n - 127);
  }

  lemma TailPrefix<T>(x: T, g: seq<T>, rest: seq<T>)
    ensures g <= ([x] + g + rest)[1..]
  {
  }

  /** The prefix of a length of more than one octet is full. */
  lemma FirstFull(n: nat)
    requires 127 <= n <= Integers.UINT_MAX
    ensures And(Integers.Encoded(7, n, 128)[0], 127) == 127
  {
    assert Integers.Limit(7) == 127;
    Integers.LimitIs(7);
    Integers.MergeLow(128, 127, 7);
    hide And, AndNot, Or, Pow2, Integers.Groups;
  }

  /** A rendered string is read again if its length survives, wherever it stands, and refused otherwise. */
  lemma StringParses(code: Code, text: seq<Byte>, s: seq<Byte>, b: seq<Byte>, offset: nat)
    requires HuffmanCode.Good(code) && StringOf(code, text, s) && HuffmanLength(code, text) <= Integers.UINT_MAX
    requires Has(b, offset, s)
    ensures |s| == StringSize(code, text) && offset + |s| <= |b|
    ensures StringAt(code, b, offset) == if Survives(code, text, |b| - offset) then Str(text, true, |s|) else NoStr(Malformed)
  {
    hide HuffmanCode.Good, HuffmanLength, Huffman.Encodes, Integers.Encoded, Integers.DecodeInt, HuffmanText, Has;
    var octets :| StringIs(code, text, octets, s);
    var n := |octets|;
    EncodesLength(code, text, octets);
    TextDecodes(code, text, octets);
    var e := Integers.Encoded(7, n, 128);
    HasParts(b, offset, e, octets);
    HasAll(b, offset, e);
    HasAll(b, offset + |e|, octets);
    Behind(b, offset, e, 0);
    LengthDecodes(n, b[offset + |e|..] + [0], (|b| - offset) % 256);
  }

  lemma Behind<T>(b: seq<T>, offset: nat, e: seq<T>, z: T)
    requires e != [] && offset + |e| <= |b| && b[offset..offset + |e|] == e
    ensures b[offset] == e[0] && b[offset..] + [z] == e + (b[offset + |e|..] + [z])
  {
    assert b[offset..] == b[offset..offset + |e|] + b[offset + |e|..];
  }

  lemma TextDecodes(code: Code, text: seq<Byte>, octets: seq<Byte>)
    requires HuffmanCode.Good(code) && Huffman.Encodes(code, text, octets)
    ensures HuffmanText(code, octets) == Text(text)
  {
    Huffman.DecodeEncoded(code, text, octets);
    hide HuffmanCode.Good, Huffman.DecodeNibbles, Huffman.Encodes, Bytes;
    BytesSame(Huffman.DecodeNibbles(code, [], BytesBits(octets)).out, text);
  }

  lemma HasFirst<T>(b: seq<T>, offset: nat, x: T)
    requires Has(b, offset, [x])
    ensures offset < |b| && b[offset] == x
  {
    assert b[offset..offset + 1][0] == b[offset];
  }

  lemma HasAll<T>(b: seq<T>, offset: nat, s: seq<T>)
    requires Has(b, offset, s)
    ensures offset + |s| <= |b| && b[offset..offset + |s|] == s
  {
  }

  /** One record is one literal field if its strings survive, whatever follows. */
  lemma RecordParses(code: Code, o: Outside, c: Ctx, f: Field, r: seq<Byte>, b: seq<Byte>, offset: nat)
    requires HuffmanCode.Good(code) && Statics(o.statics) && Sound(c.t)
    requires RecordOf(code, f, r) && Encodable(code, f) && Has(b, offset, r)
    ensures |r| == RecordSize(code, f) && offset + |r| <= |b|
    ensures FieldAt(code, o, c, b, offset) ==
      if RecordSurvives(code, f, |b| - offset) then Ok(c.(finished := false), Parsed(f), |r|)
      else Stop(c.(finished := false), Malformed)
  {
    hide HuffmanCode.Good, StringOf, HuffmanLength, StringAt, StringSize, Survives, Final, Sound, Statics, Has;
    var name, value :| RecordIs(code, f, name, value, r);
    assert [0] + name + value == [0] + (name + value);
    HasParts<Byte>(b, offset, [0], name + value);
    HasParts(b, offset + 1, name, value);
    HasFirst<Byte>(b, offset, 0);
    HasAll(b, offset, r);
    StringParses(code, f.name, name, b, offset + 1);
    StringParses(code, f.value, value, b, offset + 1 + |name|);
  }

  function EmitFrom(fields: seq<Field>, k: nat): seq<Field>
    requires k <= |fields|
    decreases |fields| - k
  {
    if k == |fields| then [] else HeaderRuns.Emit(Parsed(fields[k])) + EmitFrom(fields, k + 1)
  }

  /** Without empty fields, each is emitted at its place. */
  lemma {:induction false} EmitsAll(fields: seq<Field>, k: nat, j: nat)
    requires k <= j < |fields| && forall i :: 0 <= i < |fields| ==> !IsEmpty(fields[i])
    ensures |EmitFrom(fields, k)| == |fields| - k && EmitFrom(fields, k)[j - k] == Parsed(fields[j])
    decreases |fields| - k
  {
    assert HeaderRuns.Emit(Parsed(fields[k])) == [Parsed(fields[k])];
    if k + 1 < |fields| { EmitsAll(fields, k + 1, if k < j then j else k + 1); }
  }

  /** The records from the k-th on have the length that the fields tell. */
  lemma {:induction false} RoomIs(code: Code, fields: seq<Field>, rs: seq<seq<Byte>>, k: nat)
    requires HuffmanCode.Good(code) && Rendered(code, fields, rs) && AllEncodable(code, fields) && k <= |rs|
    ensures HeaderTables.Start(rs, k) + Room(code, fields, k) == |HeaderTables.Flat(rs)|
    decreases |rs| - k
  {
    hide HuffmanCode.Good, RecordOf, Encodable, RecordSize;
    if k < |rs| {
      RecordLength(code, fields[k], rs[k]);
      HeaderTables.StartNext(rs, k);
      RoomIs(code, fields, rs, k + 1);
    } else {
      HeaderTables.StartLast(rs);
    }
  }

  lemma RecordLength(code: Code, f: Field, r: seq<Byte>)
    requires HuffmanCode.Good(code) && RecordOf(code, f, r) && Encodable(code, f)
    ensures |r| == RecordSize(code, f)
  {
    hide HuffmanCode.Good, StringOf, HuffmanLength, StringAt, StringSize;
    var name: seq<Byte>, value: seq<Byte> :| RecordIs(code, f, name, value, r);
    assert Has(name, 0, name) && Has(value, 0, value);
    StringParses(code, f.name, name, name, 0);
    StringParses(code, f.value, value, value, 0);
  }

  lemma RecordHere(b: seq<Byte>, rs: seq<seq<Byte>>, k: nat)
    requires b == HeaderTables.Flat(rs) && k < |rs|
    ensures Has(b, HeaderTables.Start(rs, k), rs[k]) && HeaderTables.Start(rs, k + 1) == HeaderTables.Start(rs, k) + |rs[k]|
  {
    HeaderTables.PieceAt(rs, k);
    HeaderTables.StartNext(rs, k);
    hide HeaderTables.Flat, HeaderTables.Start;
  }

  /** Parsing what was rendered succeeds exactly if all strings survive; then it gives the fields again, in
      their order, and consumes all of it.  The table stays as it was. */
  lemma {:induction false} RenderedParses(code: Code, w: HeaderRuns.World, c: Ctx, fields: seq<Field>, rs: seq<seq<Byte>>,
                                          b: seq<Byte>, k: nat)
    requires HuffmanCode.Good(code) && Statics(w.statics) && Sound(c.t) && c.refs == {} && c.pending == {} && c.at == 0
    requires Rendered(code, fields, rs) && AllEncodable(code, fields)
    requires b == HeaderTables.Flat(rs) && k <= |rs| && (k < |rs| || !c.finished)
    ensures HeaderTables.Start(rs, k) <= |b|
    ensures var r := HeaderRuns.ParseAll(code, w, c, b, HeaderTables.Start(rs, k));
      && (r.ok <==> AllSurvive(code, fields, k)) && r.ctx.t == c.t
      && (r.ok ==> r == HeaderRuns.Run(true, c.(finished := true), EmitFrom(fields, k), |b| - HeaderTables.Start(rs, k)))
    decreases |rs| - k
  {
    hide HuffmanCode.Good, RecordOf, Encodable, RecordSize, RecordSurvives, Sound, Statics, FieldAt, HeaderRuns.Around;
    hide HeaderTables.Flat, HeaderTables.Start;
    RoomIs(code, fields, rs, k);
    if k < |rs| {
      RecordHere(b, rs, k);
      var offset := HeaderTables.Start(rs, k);
      RecordParses(code, HeaderRuns.Around(w, c, b, offset), c, fields[k], rs[k], b, offset);
      RenderedParses(code, w, c.(finished := false), fields, rs, b, k + 1);
    } else {
      HeaderTables.StartLast(rs);
      NothingLeft(code, w, c, b);
    }
  }

  /** Without references the end of a block emits nothing. */
  lemma NothingLeft(code: Code, w: HeaderRuns.World, c: Ctx, b: seq<Byte>)
    requires Statics(w.statics) && Sound(c.t) && c.refs == {} && c.pending == {} && c.at == 0 && !c.finished
    ensures HeaderRuns.ParseAll(code, w, c, b, |b|) == HeaderRuns.Run(true, c.(finished := true), [], 0)
  {
    HeaderRuns.FinalEmits(code, w, c, b);
    HeaderRuns.FieldsOfCount(c.t, {}, 0);
    assert HeaderRuns.From({}, 0) == {};
  }

  /** Any list of fields, rendered by a new encoder. */
  method RenderFields(fields: seq<Field>, entries: seq<Huffman.Entry>, ghost code: Code)
    returns (b: seq<Byte>, ghost rs: seq<seq<Byte>>)
    requires HuffmanCode.Good(code) && Huffman.EntriesOf(code, entries)
    requires AllEncodable(code, fields)
    ensures Rendered(code, fields, rs)
    ensures b == HeaderTables.Flat(rs)
  {
    hide HuffmanCode.Good, Huffman.EntriesOf, Rendered, Encodable;
    var encoder := new HeaderEncoder(entries, code);
    encoder.store := fields;
    var output := new Output();
    rs := encoder.Render(output);
    b := output.data;
    assert [] + HeaderTables.Flat(rs) == HeaderTables.Flat(rs);
  }

  lemma TableSize(parser: HeaderParsers.HeaderParser)
    requires parser.Valid()
    ensures parser.table.numHeaders == |parser.Model().t.fields|
  {
  }

  /** Any list of fields, rendered and then parsed by a new parser, comes out again exactly if all strings
      survive; the table of the parser stays empty. */
  method RenderAndParse(fields: seq<Field>, statics: seq<Field>, entries: seq<Huffman.Entry>, huff: HuffmanTable.Table, ghost code: Code)
    returns (ok: bool, parsed: seq<Field>, length: nat, consumed: nat, left: nat)
    requires HuffmanCode.Good(code) && Huffman.EntriesOf(code, entries) && HuffmanTable.TableOf(code, huff)
    requires Statics(statics) && AllEncodable(code, fields)
    ensures ok <==> AllSurvive(code, fields, 0)
    ensures ok ==> parsed == EmitFrom(fields, 0)
    ensures ok ==> consumed == length
    ensures left == 0
  {
    hide HuffmanCode.Good, Huffman.EntriesOf, HuffmanTable.TableOf, Statics, Rendered, Encodable, EmitFrom, AllSurvive;
    hide HeaderParsers.HeaderParser.Valid, HeaderRuns.ParseAll, Sound;
    var b;
    ghost var rs;
    b, rs := RenderFields(fields, entries, code);
    var parser := new HeaderParsers.HeaderParser(statics, huff, code);
    var store := new HeaderParsers.Store();
    ghost var c := parser.Model();
    FreshSound();
    var r;
    ghost var w;
    r, consumed, w := parser.ParseAll(b, 0, store, c);
    RenderedParses(code, w, c, fields, rs, b, 0);
    TableSize(parser);
    ok, parsed, length, left := r == HeaderParsers.Done, store.headers, |b|, parser.table.numHeaders;
    assert [] + EmitFrom(fields, 0) == EmitFrom(fields, 0);
  }

  lemma FreshSound()
    ensures Sound(Fresh())
  {
  }
}
