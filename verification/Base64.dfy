/** libchula/buffer.c: base64 (section 4 of RFC 4648), encoded to another buffer and decoded in place. */
module Base64 {
  import Sequences
  import opened Bits

  /** chula_buffer_t: the content, with room for a final zero behind it. */
  class Buffer {
    var mem: array<Byte>
    var len: nat

    ghost predicate Valid()
      reads this
    {
      len < mem.Length
    }

    constructor (content: seq<Byte>)
      ensures Valid() && fresh(mem) && mem[..len] == content
    {
      mem := new Byte[|content| + 1](i => if 0 <= i < |content| then content[i] else 0);
      len := |content|;
    }
  }

  // --- Digits -------------------------------------------------------------------------

  const PAD: Byte := 61      // '='

  /** base64tab */
  function Char(v: nat): Byte
    requires v < 64
  {
    if v < 26 then v + 65 else if v < 52 then v + 71 else if v < 62 then v - 4 else if v == 62 then 43 else 47
  }

  /** b64_decode_tab */
  function Digit(c: Byte): (d: int)
    ensures -1 <= d < 64
  {
    if 65 <= c <= 90 then c - 65 else if 97 <= c <= 122 then c - 71 else if 48 <= c <= 57 then c + 4
    else if c == 43 then 62 else if c == 47 then 63 else -1
  }

  /** The digits in their order: table 1 of RFC 4648. */
  const ALPHABET: string := "ABCDEFGHIJKLMNOPQRSTUVWXYZ" + "abcdefghijklmnopqrstuvwxyz" + "0123456789" + "+/"

  /** The encoder writes the digits of the alphabet. */
  lemma CharIsDigit(v: nat)
    requires v < 64
    ensures |ALPHABET| == 64 && Char(v) == ALPHABET[v] as int
  {
  }

  /** The decoder reads exactly the digits of the alphabet, each as its place, and skips every other octet. */
  lemma DigitIsPlace(c: Byte)
    ensures |ALPHABET| == 64
    ensures Digit(c) == -1 <==> c as char !in ALPHABET
    ensures Digit(c) != -1 ==> ALPHABET[Digit(c)] as int == c
  {
    if c as char in ALPHABET {
      var v :| 0 <= v < |ALPHABET| && ALPHABET[v] == c as char;
      CharIsDigit(v);
      DigitOfChar(v);
    }
    if Digit(c) != -1 {
      CharIsDigit(Digit(c));
      assert ALPHABET[Digit(c)] == c as char;
    }
    hide Char, Digit;
  }

  lemma DigitOfChar(v: nat)
    requires v < 64
    ensures Digit(Char(v)) == v && Digit(PAD) == -1
  {
  }

  /** The bits that a text carries: six for each digit, none for any other character. */
  function TextBits(s: seq<Byte>): seq<bool> {
    if s == [] then [] else TextBits(s[..|s| - 1]) + CharBits(s[|s| - 1])
  }

  function CharBits(c: Byte): seq<bool> {
    if Digit(c) == -1 then [] else ToBits(Digit(c), 6)
  }

  lemma TextStep(s: seq<Byte>, i: nat)
    requires i < |s|
    ensures TextBits(s[..i + 1]) == TextBits(s[..i]) + CharBits(s[i])
  {
    assert s[..i + 1][..i] == s[..i];
  }

  lemma {:induction false} TextBound(s: seq<Byte>)
    ensures |TextBits(s)| <= 6 * |s|
  {
    if s != [] { TextBound(s[..|s| - 1]); }
  }

  // --- Regrouping bits --------------------------------------------------------------------

  lemma Small(v: nat)
    ensures Shl(v, 2) == 4 * v && Shl(v, 4) == 16 * v && Shl(v, 6) == 64 * v
    ensures Pow2(2) == 4 && Pow2(4) == 16 && Pow2(6) == 64
  {
    assert Shl(v, 1) == 2 * v && Shl(v, 3) == 8 * v && Shl(v, 5) == 32 * v;
    assert Pow2(1) == 2 && Pow2(3) == 8 && Pow2(5) == 32;
  }

  lemma LowDigits(d: nat)
    ensures ToBits(d, 4) == ToBits(d % 16, 4) && ToBits(d, 2) == ToBits(d % 4, 2)
  {
    hide ToBits, Low;
    Low4(d);
    LowTwo(d);
    TruncateBits(d, 4, 4);
    TruncateBits(d, 2, 2);
  }

  lemma LowTwo(d: nat)
    ensures Low(d, 2) == d % 4
  {
    assert Low(d / 2, 1) == d / 2 % 2;
  }

  // --- Decoding in place ----------------------------------------------------------------------

  /** How many bits of the last digit are still to be used. */
  function Width(phase: nat): nat
    requires phase <= 3
  {
    if phase == 0 then 0 else 8 - 2 * phase
  }

  /** The octet completed by a digit d behind the digit p. */
  function Octet(phase: nat, p: nat, d: nat): (b: Byte)
    requires 1 <= phase <= 3 && p < 64 && d < 64
  {
    if phase == 1 then p * 4 + d / 16 else if phase == 2 then p % 16 * 16 + d / 4 else p % 4 * 64 + d
  }

  lemma OctetBits(phase: nat, p: nat, d: nat)
    requires 1 <= phase <= 3 && p < 64 && d < 64
    ensures ToBits(p, Width(phase)) + ToBits(d, 6) == ToBits(Octet(phase, p, d), 8) + ToBits(d, Width((phase + 1) % 4))
  {
    hide ToBits;
    if phase == 1 {
      FirstOctet(p, d);
    } else if phase == 2 {
      SecondOctet(p, d);
    } else {
      ThirdOctet(p, d);
    }
  }

  lemma FirstOctet(p: nat, d: nat)
    requires p < 64 && d < 64
    ensures ToBits(p, 6) + ToBits(d, 6) == ToBits(p * 4 + d / 16, 8) + ToBits(d, 4)
  {
    hide ToBits, Shl, Pow2;
    var h, l := d / 16, d % 16;
    LowDigits(d);
    Join2(p, 6, h);
    Join4(h, 2, l);
    Sequences.Associate(ToBits(p, 6), ToBits(h, 2), ToBits(l, 4));
  }

  lemma SecondOctet(p: nat, d: nat)
    requires p < 64 && d < 64
    ensures ToBits(p, 4) + ToBits(d, 6) == ToBits(p % 16 * 16 + d / 4, 8) + ToBits(d, 2)
  {
    hide ToBits, Shl, Pow2;
    var q, h, l := p % 16, d / 4, d % 4;
    LowDigits(p);
    LowDigits(d);
    Join4(q, 4, h);
    Join2(h, 4, l);
    Sequences.Associate(ToBits(q, 4), ToBits(h, 4), ToBits(l, 2));
  }

  lemma ThirdOctet(p: nat, d: nat)
    requires p < 64 && d < 64
    ensures ToBits(p, 2) + ToBits(d, 6) == ToBits(p % 4 * 64 + d, 8) + ToBits(d, 0)
  {
    hide ToBits, Shl, Pow2;
    LowDigits(p);
    Join6(p % 4, 2, d);
    NoBits(d);
  }

  lemma NoBits(d: nat)
    ensures ToBits(d, 0) == []
  {
  }

  lemma Join2(x: nat, m: nat, y: nat)
    requires y < 4
    ensures ToBits(4 * x + y, m + 2) == ToBits(x, m) + ToBits(y, 2)
  {
    Small(x);
    hide ToBits, Shl, Pow2;
    JoinBits(x, m, y, 2);
  }

  lemma Join4(x: nat, m: nat, y: nat)
    requires y < 16
    ensures ToBits(16 * x + y, m + 4) == ToBits(x, m) + ToBits(y, 4)
  {
    Small(x);
    hide ToBits, Shl, Pow2;
    JoinBits(x, m, y, 4);
  }

  lemma Join6(x: nat, m: nat, y: nat)
    requires y < 64
    ensures ToBits(64 * x + y, m + 6) == ToBits(x, m) + ToBits(y, 6)
  {
    Small(x);
    hide ToBits, Shl, Pow2;
    JoinBits(x, m, y, 6);
  }

  /** The octets so far and what is left of the last digit carry the bits. */
  ghost predicate Carries(out: seq<Byte>, phase: nat, prev: nat, bits: seq<bool>) {
    phase <= 3 && prev < 64 && BytesBits(out) + ToBits(prev, Width(phase)) == bits
  }

  lemma CarriesNext(out: seq<Byte>, phase: nat, prev: nat, bits: seq<bool>, d: nat)
    requires Carries(out, phase, prev, bits) && d < 64
    ensures phase == 0 ==> Carries(out, 1, d, bits + ToBits(d, 6))
    ensures phase > 0 ==> Carries(out + [Octet(phase, prev, d)], (phase + 1) % 4, d, bits + ToBits(d, 6))
  {
    if phase == 0 {
      assert ToBits(prev, 0) == [] && BytesBits(out) + [] == BytesBits(out);
    } else {
      var b := Octet(phase, prev, d);
      OctetBits(phase, prev, d);
      assert (out + [b])[..|out|] == out;
      assert BytesBits(out + [b]) == BytesBits(out) + ToBits(b, 8);
      hide ToBits, BytesBits, Octet;
      var x, y, z, w := BytesBits(out), ToBits(prev, Width(phase)), ToBits(d, 6), ToBits(b, 8);
      Sequences.Associate(x, y, z);
      Sequences.Associate(x, w, ToBits(d, Width((phase + 1) % 4)));
    }
  }

  /** The octets that a text decodes to: its bits without an incomplete octet at the end. */
  ghost predicate DecodesTo(text: seq<Byte>, out: seq<Byte>) {
    |out| == |TextBits(text)| / 8 && BytesBits(out) == TextBits(text)[..8 * |out|]
  }

  lemma CarriesDecodes(text: seq<Byte>, out: seq<Byte>, phase: nat, prev: nat)
    requires Carries(out, phase, prev, TextBits(text))
    ensures DecodesTo(text, out)
  {
    hide BytesBits, TextBits, ToBits;
  }

  /** What is decoded never reaches what is still to be read. */
  lemma NeverAhead(text: seq<Byte>, out: seq<Byte>, phase: nat, prev: nat)
    requires Carries(out, phase, prev, TextBits(text))
    ensures |out| <= |text|
  {
    TextBound(text);
    hide BytesBits, TextBits, ToBits;
  }

  /** The octets so far are flushed or staged, and the text from i on is still in the buffer. */
  ghost predicate Staged(mem: seq<Byte>, space: seq<Byte>, bufPos: nat, spaceIdx: nat, out: seq<Byte>, text: seq<Byte>, i: nat) {
    && bufPos <= i <= |text| < |mem| && spaceIdx < |space| == 128
    && out == mem[..bufPos] + space[..spaceIdx] && mem[i..|text|] == text[i..]
  }

  lemma StagedNext(mem: seq<Byte>, space: seq<Byte>, bufPos: nat, spaceIdx: nat, out: seq<Byte>, text: seq<Byte>, i: nat)
    requires Staged(mem, space, bufPos, spaceIdx, out, text, i) && i < |text|
    ensures mem[i] == text[i] && Staged(mem, space, bufPos, spaceIdx, out, text, i + 1)
  {
    assert mem[i] == mem[i..|text|][0] && text[i] == text[i..][0];
    assert mem[i + 1..|text|] == mem[i..|text|][1..] && text[i + 1..] == text[i..][1..];
  }

  /** One digit: from the second on, each completes an octet. */
  method PutDigit(d: nat, space: array<Byte>, spaceIdx: nat, phase: nat, prev: nat) returns (idx: nat)
    requires d < 64 && prev < 64 && phase <= 3 && space.Length == 128 && spaceIdx < 127
    modifies space
    ensures idx == (if phase > 0 then spaceIdx + 1 else spaceIdx)
    ensures space[..idx] == old(space[..spaceIdx]) + if phase > 0 then [Octet(phase, prev, d)] else []
  {
    idx := spaceIdx;
    if phase > 0 {
      space[idx] := Octet(phase, prev, d);
      idx := idx + 1;
    }
  }

  /** Where the loop stands before character i. */
  ghost predicate Decoding(mem: seq<Byte>, space: seq<Byte>, bufPos: nat, spaceIdx: nat, phase: nat, prev: nat,
                           out: seq<Byte>, text: seq<Byte>, i: nat) {
    && spaceIdx < 127 && phase <= 3 && prev < 64
    && Staged(mem, space, bufPos, spaceIdx, out, text, i) && Carries(out, phase, prev, TextBits(text[..i]))
  }

  /** One round of the loop. */
  method DecodeChar(buf: Buffer, i: nat, space: array<Byte>, bufPos: nat, spaceIdx: nat, phase: nat, prev: nat,
                    ghost out: seq<Byte>, ghost text: seq<Byte>)
    returns (bufPos': nat, spaceIdx': nat, phase': nat, prev': nat, ghost out': seq<Byte>)
    requires i < |text| < buf.mem.Length && space.Length == 128 && space != buf.mem
    requires Decoding(buf.mem[..], space[..], bufPos, spaceIdx, phase, prev, out, text, i)
    modifies space, buf.mem
    ensures Decoding(buf.mem[..], space[..], bufPos', spaceIdx', phase', prev', out', text, i + 1)
  {
    hide Carries, TextBits, Octet, Digit, Staged;
    bufPos', spaceIdx', phase', prev', out' := bufPos, spaceIdx, phase, prev, out;
    StagedNext(buf.mem[..], space[..], bufPos, spaceIdx, out, text, i);
    CarriesChar(out, phase, prev, text, i);
    var d := Digit(buf.mem[i]);
    if d != -1 {
      ghost var more := if phase > 0 then [Octet(phase, prev, d)] else [];
      ghost var was := space[..];
      spaceIdx' := PutDigit(d, space, spaceIdx, phase, prev);
      StagedPut(buf.mem[..], was, space[..], bufPos, spaceIdx, spaceIdx', out, text, i + 1, more);
      assert out + [] == out;
      out', phase', prev' := out + more, (phase + 1) % 4, d;
    }
    NeverAhead(text[..i + 1], out', phase', prev');
    if spaceIdx' == 127 {
      StagedFull(buf.mem[..], space[..], bufPos, out', text, i + 1);
      ghost var was := buf.mem[..];
      Flush(buf, bufPos, space, 127);
      StagedFlushed(was, buf.mem[..], space[..], bufPos, out', text, i + 1);
      bufPos', spaceIdx' := bufPos + 127, 0;
    }
  }

  /** chula_buffer_decode_base64: 127 octets at a time are staged and then flushed to the front of the
      buffer, from which the rest of the text is still read. */
  method DecodeBase64(buf: Buffer)
    requires buf.Valid()
    modifies buf`len, buf.mem
    ensures buf.Valid() && buf.mem == old(buf.mem) && DecodesTo(old(buf.mem[..buf.len]), buf.mem[..buf.len])
  {
    ghost var text := buf.mem[..buf.len];
    DecodesNothing();
    if buf.len == 0 {
      assert buf.mem[..0] == [];
      return;
    }
    var space := new Byte[128](_ => 0);
    var bufPos: nat, spaceIdx: nat, phase: nat, prev: nat := 0, 0, 0, 0;
    ghost var out: seq<Byte> := [];
    CarriesNothing(text);
    StagedStart(buf.mem[..], space[..], text);
    hide Carries, TextBits, DecodesTo, Staged;
    assert Decoding(buf.mem[..], space[..], bufPos, spaceIdx, phase, prev, out, text, 0);
    hide Decoding;
    for i := 0 to buf.len
      invariant buf.len == |text| < buf.mem.Length && buf.mem == old(buf.mem)
      invariant Decoding(buf.mem[..], space[..], bufPos, spaceIdx, phase, prev, out, text, i)
    {
      bufPos, spaceIdx, phase, prev, out := DecodeChar(buf, i, space, bufPos, spaceIdx, phase, prev, out, text);
    }
    DecodingEnd(buf.mem[..], space[..], bufPos, spaceIdx, phase, prev, out, text);
    FinishDecode(buf, bufPos, space, spaceIdx, out);
  }

  /** What is still staged goes to the buffer, and a zero behind it. */
  method FinishDecode(buf: Buffer, bufPos: nat, space: array<Byte>, spaceIdx: nat, ghost out: seq<Byte>)
    requires spaceIdx < space.Length && bufPos + spaceIdx < buf.mem.Length && space != buf.mem
    requires out == buf.mem[..bufPos] + space[..spaceIdx]
    modifies space, buf`len, buf.mem
    ensures buf.Valid() && buf.mem[..buf.len] == out
  {
    ghost var head, tail := buf.mem[..bufPos], space[..spaceIdx];
    space[spaceIdx] := 0;
    assert space[..spaceIdx + 1] == tail + [0];
    Flush(buf, bufPos, space, spaceIdx + 1);
    buf.len := bufPos + spaceIdx;
    assert buf.mem[..buf.len] == buf.mem[..bufPos + spaceIdx + 1][..buf.len] == head + tail;
  }

  lemma DecodingEnd(mem: seq<Byte>, space: seq<Byte>, bufPos: nat, spaceIdx: nat, phase: nat, prev: nat, out: seq<Byte>, text: seq<Byte>)
    requires Decoding(mem, space, bufPos, spaceIdx, phase, prev, out, text, |text|)
    ensures bufPos + spaceIdx == |out| <= |text| < |mem| && spaceIdx < |space| && out == mem[..bufPos] + space[..spaceIdx]
    ensures DecodesTo(text, out)
  {
    assert text[..|text|] == text;
    NeverAhead(text, out, phase, prev);
    CarriesDecodes(text, out, phase, prev);
    hide Carries, DecodesTo, TextBits;
  }

  lemma StagedStart(mem: seq<Byte>, space: seq<Byte>, text: seq<Byte>)
    requires |text| < |mem| && mem[..|text|] == text && |space| == 128
    ensures Staged(mem, space, 0, 0, [], text, 0)
  {
  }

  lemma StagedPut(mem: seq<Byte>, was: seq<Byte>, space: seq<Byte>, bufPos: nat, spaceIdx: nat, idx: nat, out: seq<Byte>,
                  text: seq<Byte>, i: nat, more: seq<Byte>)
    requires Staged(mem, was, bufPos, spaceIdx, out, text, i) && idx < |space| == 128 && space[..idx] == was[..spaceIdx] + more
    ensures Staged(mem, space, bufPos, idx, out + more, text, i)
  {
    Sequences.Associate(mem[..bufPos], was[..spaceIdx], more);
  }

  lemma StagedFull(mem: seq<Byte>, space: seq<Byte>, bufPos: nat, out: seq<Byte>, text: seq<Byte>, i: nat)
    requires Staged(mem, space, bufPos, 127, out, text, i) && |out| <= i
    ensures bufPos + 127 == |out| <= i <= |text| < |mem|
  {
  }

  /** The flush does not overwrite what is still to be read. */
  lemma StagedFlushed(was: seq<Byte>, mem: seq<Byte>, space: seq<Byte>, bufPos: nat, out: seq<Byte>, text: seq<Byte>, i: nat)
    requires Staged(was, space, bufPos, 127, out, text, i) && |out| <= i && |mem| == |was|
    requires mem[..bufPos + 127] == was[..bufPos] + space[..127] && mem[bufPos + 127..] == was[bufPos + 127..]
    ensures Staged(mem, space, bufPos + 127, 0, out, text, i)
  {
    var at := bufPos + 127;
    assert mem[i..|text|] == mem[at..][i - at..|text| - at] && was[i..|text|] == was[at..][i - at..|text| - at];
    assert out + space[..0] == out;
  }

  lemma DecodesNothing()
    ensures DecodesTo([], [])
  {
  }

  /** memcpy (buf->buf + at, space, n) */
  method Flush(buf: Buffer, at: nat, space: array<Byte>, n: nat)
    requires n <= space.Length && at + n <= buf.mem.Length && space != buf.mem
    modifies buf.mem
    ensures buf.mem[..at + n] == old(buf.mem[..at]) + space[..n] && buf.mem[at + n..] == old(buf.mem[at + n..])
  {
    forall i | 0 <= i < n { buf.mem[at + i] := space[i]; }
  }

  lemma CarriesNothing(text: seq<Byte>)
    ensures Carries([], 0, 0, TextBits(text[..0]))
  {
  }

  /** The next character of the text. */
  lemma CarriesChar(out: seq<Byte>, phase: nat, prev: nat, text: seq<Byte>, i: nat)
    requires i < |text| && phase <= 3 && prev < 64 && Carries(out, phase, prev, TextBits(text[..i]))
    ensures var d := Digit(text[i]); var bits := TextBits(text[..i + 1]);
      && (d == -1 ==> Carries(out, phase, prev, bits))
      && (d != -1 && phase == 0 ==> Carries(out, 1, d, bits))
      && (d != -1 && phase > 0 ==> Carries(out + [Octet(phase, prev, d)], (phase + 1) % 4, d, bits))
  {
    TextStep(text, i);
    var d := Digit(text[i]);
    if d != -1 {
      CarriesNext(out, phase, prev, TextBits(text[..i]), d);
    } else {
      assert TextBits(text[..i]) + [] == TextBits(text[..i]);
    }
    hide Carries, TextBits, Octet;
  }

  // --- Encoding -------------------------------------------------------------------------------

  /** Four characters for n octets of which the first three are a, b and c: each character stands for
      six of the 24 bits, and one that stands for none of the octets is a pad. */
  function Quantum(a: Byte, b: Byte, c: Byte, n: nat): (s: seq<Byte>)
    ensures |s| == 4
  {
    var v := 0x1_0000 * a + 0x100 * b + c;
    [Char(v / 0x4_0000 % 64), Char(v / 0x1000 % 64), if n >= 2 then Char(v / 64 % 64) else PAD, if n >= 3 then Char(v % 64) else PAD]
  }

  function At(s: seq<Byte>, i: nat): Byte {
    if i < |s| then s[i] else 0
  }

  function Encoded(s: seq<Byte>): seq<Byte> {
    if s == [] then [] else Quantum(s[0], At(s, 1), At(s, 2), |s|) + Encoded(s[if |s| < 3 then |s| else 3..])
  }

  lemma {:induction false} EncodedLength(s: seq<Byte>)
    ensures |Encoded(s)| == 4 * ((|s| + 2) / 3)
  {
    hide Quantum, At;
    if s != [] { EncodedLength(s[if |s| < 3 then |s| else 3..]); }
  }

  /** The first i octets, or all of them, are encoded. */
  ghost predicate EncodedUpTo(s: seq<Byte>, i: nat, out: seq<Byte>) {
    out + Encoded(s[if i < |s| then i else |s|..]) == Encoded(s)
  }

  lemma EncodedStart(s: seq<Byte>, out: seq<Byte>)
    requires out == []
    ensures EncodedUpTo(s, 0, out)
  {
    assert s[0..] == s && [] + Encoded(s) == Encoded(s);
  }

  lemma EncodedStep(s: seq<Byte>, i: nat, out: seq<Byte>)
    requires i < |s| && EncodedUpTo(s, i, out)
    ensures EncodedUpTo(s, i + 3, out + Quantum(s[i], At(s, i + 1), At(s, i + 2), |s| - i))
  {
    var t := s[i..];
    assert t[if |t| < 3 then |t| else 3..] == s[if i + 3 < |s| then i + 3 else |s|..];
    assert At(t, 1) == At(s, i + 1) && At(t, 2) == At(s, i + 2) && t[0] == s[i];
    hide Quantum;
    Sequences.Associate(out, Quantum(s[i], At(s, i + 1), At(s, i + 2), |s| - i), Encoded(s[if i + 3 < |s| then i + 3 else |s|..]));
  }

  lemma EncodedEnd(s: seq<Byte>, i: nat, out: seq<Byte>)
    requires i >= |s| && EncodedUpTo(s, i, out)
    ensures out == Encoded(s)
  {
    assert s[|s|..] == [] && out + [] == out;
  }

  /** The shifts and masks of the encoder pick the bits of the four characters. */
  lemma QuantumIs(a: Byte, b: Byte, c: Byte)
    ensures var v := 0x1_0000 * a + 0x100 * b + c;
      && v / 0x4_0000 % 64 == a / 4 && v / 0x1000 % 64 == a % 4 * 16 + b / 16
      && v / 64 % 64 == b % 16 * 4 + c / 64 && v % 64 == c % 64
  {
    FirstSextet(a, a / 4, a % 4, b, c);
    SecondSextet(a / 4, a % 4, b / 16, b % 16, c);
    ThirdSextet(a, b / 16, b % 16, c / 64, c % 64);
  }

  lemma FirstSextet(a: nat, h: nat, l: nat, b: nat, c: nat)
    requires a == 4 * h + l && h < 64 && l < 4 && b < 256 && c < 256
    ensures (0x1_0000 * a + 0x100 * b + c) / 0x4_0000 % 64 == h
  {
  }

  lemma SecondSextet(ah: nat, al: nat, bh: nat, bl: nat, c: nat)
    requires al < 4 && bh < 16 && bl < 16 && c < 256
    ensures (0x1_0000 * (4 * ah + al) + 0x100 * (16 * bh + bl) + c) / 0x1000 % 64 == al * 16 + bh
  {
    assert (0x1_0000 * (4 * ah + al) + 0x100 * (16 * bh + bl) + c) / 0x1000 == 64 * ah + (16 * al + bh);
  }

  lemma ThirdSextet(a: nat, bh: nat, bl: nat, ch: nat, cl: nat)
    requires bl < 16 && ch < 4 && cl < 64
    ensures (0x1_0000 * a + 0x100 * (16 * bh + bl) + (64 * ch + cl)) / 64 % 64 == bl * 4 + ch
    ensures (0x1_0000 * a + 0x100 * (16 * bh + bl) + (64 * ch + cl)) % 64 == cl
  {
    var h, m := 16 * a + bh, 4 * bl + ch;
    LastSextets(0x1_0000 * a + 0x100 * (16 * bh + bl) + (64 * ch + cl), h, m, cl);
  }

  lemma LastSextets(v: nat, h: nat, m: nat, l: nat)
    requires v == 64 * (64 * h + m) + l && m < 64 && l < 64
    ensures v / 64 % 64 == m && v % 64 == l
  {
    assert v / 64 == 64 * h + m;
  }

  /** The four characters of one round. */
  method PutQuantum(input: seq<Byte>, i: nat, out: array<Byte>, j: nat)
    requires i < |input| && j + 4 <= out.Length
    modifies out
    ensures out[..j + 4] == old(out[..j]) + Quantum(input[i], At(input, i + 1), At(input, i + 2), |input| - i)
  {
    var inlen := |input|;
    var a := input[i];
    var b := if i + 1 < inlen then input[i + 1] else 0;
    var c := if i + 2 < inlen then input[i + 2] else 0;
    var d := Char(a / 4);
    var e := Char(a % 4 * 16 + b / 16);
    var f := Char(b % 16 * 4 + c / 64);
    var g := Char(c % 64);
    if i + 1 >= inlen { f := PAD; }
    if i + 2 >= inlen { g := PAD; }
    QuantumChars(a, b, c, inlen - i);
    hide Quantum, Char;
    out[j], out[j + 1], out[j + 2], out[j + 3] := d, e, f, g;
    assert out[..j + 4] == old(out[..j]) + [d, e, f, g];
  }

  /** chula_buffer_encode_base64: an empty buffer leaves the target as it is. */
  method EncodeBase64(input: seq<Byte>, encoded: Buffer)
    modifies encoded
    ensures input == [] ==> encoded.mem == old(encoded.mem) && encoded.len == old(encoded.len)
    ensures input != [] ==> encoded.Valid() && fresh(encoded.mem) && encoded.mem[..encoded.len] == Encoded(input)
  {
    if |input| == 0 { return; }
    var inlen := |input|;
    var out := new Byte[(inlen + 4) * 4 / 3 + 1];
    EncodedLength(input);
    EncodedStart(input, out[..0]);
    hide Quantum, Encoded, EncodedUpTo, At;
    var i: nat, j: nat := 0, 0;
    while i < inlen
      invariant 3 * j == 4 * i && i < inlen + 3 && EncodedUpTo(input, i, out[..j])
      decreases inlen - i
    {
      EncodedStep(input, i, out[..j]);
      PutQuantum(input, i, out, j);
      j := j + 4;
      i := i + 3;
    }
    EncodedEnd(input, i, out[..j]);
    out[j] := 0;
    encoded.mem := out;
    encoded.len := j;
  }

  lemma QuantumChars(a: Byte, b: Byte, c: Byte, n: nat)
    ensures Quantum(a, b, c, n) == [Char(a / 4), Char(a % 4 * 16 + b / 16),
      if n >= 2 then Char(b % 16 * 4 + c / 64) else PAD, if n >= 3 then Char(c % 64) else PAD]
  {
    QuantumIs(a, b, c);
    hide Char;
  }

  /** The digits that n octets need. */
  function Digits(n: nat): nat {
    (4 * n + 2) / 3
  }

  /** The text has whole quanta; its first characters are digits, as many as the octets need, and the others
      are pads. */
  lemma {:induction false} EncodedShape(s: seq<Byte>, k: nat)
    requires k < |Encoded(s)|
    ensures |Encoded(s)| == 4 * ((|s| + 2) / 3)
    ensures if k < Digits(|s|) then Encoded(s)[k] as char in ALPHABET else Encoded(s)[k] == PAD
  {
    EncodedLength(s);
    var rest := s[if |s| < 3 then |s| else 3..];
    if k >= 4 {
      EncodedShape(rest, k - 4);
      assert Encoded(s)[k] == Encoded(rest)[k - 4];
    } else {
      QuantumShape(s[0], At(s, 1), At(s, 2), |s|, k);
    }
  }

  lemma QuantumShape(a: Byte, b: Byte, c: Byte, n: nat, k: nat)
    requires n >= 1 && k < 4
    ensures if k < Digits(n) then Quantum(a, b, c, n)[k] as char in ALPHABET else Quantum(a, b, c, n)[k] == PAD
  {
    var v := 0x1_0000 * a + 0x100 * b + c;
    CharIsDigit(v / 0x4_0000 % 64);
    CharIsDigit(v / 0x1000 % 64);
    CharIsDigit(v / 64 % 64);
    CharIsDigit(v % 64);
    hide Char;
    DigitIsPlace(Quantum(a, b, c, n)[k]);
  }

  // --- Round trip ----------------------------------------------------------------------------

  lemma {:induction false} TextJoin(a: seq<Byte>, b: seq<Byte>)
    ensures TextBits(a + b) == TextBits(a) + TextBits(b)
    decreases |b|
  {
    hide CharBits;
    if b == [] {
      assert a + b == a && TextBits([]) == [];
      assert TextBits(a) + [] == TextBits(a);
    } else {
      var n := |b| - 1;
      assert (a + b)[..|a| + n] == a + b[..n] && (a + b)[|a + b| - 1] == b[n];
      TextJoin(a, b[..n]);
      Sequences.Associate(TextBits(a), TextBits(b[..n]), CharBits(b[n]));
    }
  }

  lemma TextOf(p: Byte, q: Byte, r: Byte, t: Byte)
    ensures TextBits([p, q, r, t]) == CharBits(p) + CharBits(q) + CharBits(r) + CharBits(t)
  {
    hide CharBits;
    var s := [p, q, r, t];
    TextStep(s, 0);
    TextStep(s, 1);
    TextStep(s, 2);
    TextStep(s, 3);
    assert s[..4] == s && TextBits(s[..0]) == [];
    hide TextBits;
    assert TextBits(s[..1]) == CharBits(p);
  }

  lemma CharOf(v: nat)
    requires v < 64
    ensures CharBits(Char(v)) == ToBits(v, 6) && CharBits(PAD) == []
  {
    DigitOfChar(v);
  }

  lemma OctetParts(a: Byte, b: Byte, c: Byte)
    ensures ToBits(a, 8) == ToBits(a / 4, 6) + ToBits(a % 4, 2)
    ensures ToBits(b, 8) == ToBits(b / 16, 4) + ToBits(b % 16, 4)
    ensures ToBits(c, 8) == ToBits(c / 64, 2) + ToBits(c % 64, 6)
    ensures ToBits(a % 4 * 16 + b / 16, 6) == ToBits(a % 4, 2) + ToBits(b / 16, 4)
    ensures ToBits(b % 16 * 4 + c / 64, 6) == ToBits(b % 16, 4) + ToBits(c / 64, 2)
  {
    hide ToBits;
    Join2(a / 4, 6, a % 4);
    Join4(b / 16, 4, b % 16);
    Join6(c / 64, 2, c % 64);
    Join4(a % 4, 2, b / 16);
    Join2(b % 16, 4, c / 64);
  }

  lemma Regroup6<T>(a: seq<T>, b: seq<T>, c: seq<T>, d: seq<T>, e: seq<T>, f: seq<T>)
    ensures a + (b + c) + (d + e) + f == (a + b) + (c + d) + (e + f)
  {
  }

  lemma QuantumText(a: Byte, b: Byte, c: Byte, n: nat)
    ensures TextBits(Quantum(a, b, c, n)) == ToBits(a / 4, 6) + ToBits(a % 4 * 16 + b / 16, 6)
      + (if n >= 2 then ToBits(b % 16 * 4 + c / 64, 6) else []) + (if n >= 3 then ToBits(c % 64, 6) else [])
  {
    hide ToBits, Char, CharBits, TextBits, Quantum;
    QuantumChars(a, b, c, n);
    var q := Quantum(a, b, c, n);
    TextOf(q[0], q[1], q[2], q[3]);
    CharOf(a / 4);
    CharOf(a % 4 * 16 + b / 16);
    CharOf(b % 16 * 4 + c / 64);
    CharOf(c % 64);
    assert q == [q[0], q[1], q[2], q[3]];
  }

  /** A quantum carries the bits of its octets, and up to four zeros. */
  lemma QuantumBits(a: Byte, b: Byte, c: Byte, n: nat)
    requires n >= 1 && (n < 2 ==> b == 0) && (n < 3 ==> c == 0)
    ensures TextBits(Quantum(a, b, c, n)) ==
      if n >= 3 then ToBits(a, 8) + ToBits(b, 8) + ToBits(c, 8)
      else if n == 2 then ToBits(a, 8) + ToBits(b, 8) + Zeros(2) else ToBits(a, 8) + Zeros(4)
  {
    hide ToBits, TextBits, Quantum, Zeros;
    QuantumText(a, b, c, n);
    OctetParts(a, b, c);
    ZeroBits(2);
    ZeroBits(4);
    var a1, a2, b1, b2 := ToBits(a / 4, 6), ToBits(a % 4, 2), ToBits(b / 16, 4), ToBits(b % 16, 4);
    if n >= 3 {
      Regroup6(a1, a2, b1, b2, ToBits(c / 64, 2), ToBits(c % 64, 6));
    } else if n == 2 {
      Regroup6(a1, a2, b1, b2, Zeros(2), []);
      NoMore(a1 + (a2 + b1) + (b2 + Zeros(2)));
      NoMore(Zeros(2));
    } else {
      Sequences.Associate(a1, a2, Zeros(4));
      NoMore(a1 + (a2 + Zeros(4)));
    }
  }

  lemma NoMore<T>(s: seq<T>)
    ensures s + [] == s
  {
  }

  /** The octets of one round, and the octets behind them. */
  lemma RoundBits(s: seq<Byte>, m: nat)
    requires 1 <= m <= |s| && m <= 3
    ensures BytesBits(s) == BytesBits(s[..m]) + BytesBits(s[m..])
    ensures m == 1 ==> BytesBits(s[..m]) == ToBits(s[0], 8)
    ensures m == 2 ==> BytesBits(s[..m]) == ToBits(s[0], 8) + ToBits(s[1], 8)
    ensures m == 3 ==> BytesBits(s[..m]) == ToBits(s[0], 8) + ToBits(s[1], 8) + ToBits(s[2], 8)
  {
    hide ToBits, BytesBits;
    assert s == s[..m] + s[m..];
    BytesBitsConcat(s[..m], s[m..]);
    FirstBits(s, m);
  }

  lemma FirstBits(s: seq<Byte>, m: nat)
    requires 1 <= m <= |s| && m <= 3
    ensures m == 1 ==> BytesBits(s[..m]) == ToBits(s[0], 8)
    ensures m == 2 ==> BytesBits(s[..m]) == ToBits(s[0], 8) + ToBits(s[1], 8)
    ensures m == 3 ==> BytesBits(s[..m]) == ToBits(s[0], 8) + ToBits(s[1], 8) + ToBits(s[2], 8)
  {
    hide ToBits, BytesBits;
    BytesBitsOne(s[m - 1]);
    if m == 1 {
      assert s[..1] == [s[0]];
    } else {
      FirstBits(s, m - 1);
      assert s[..m] == s[..m - 1] + [s[m - 1]];
      BytesBitsConcat(s[..m - 1], [s[m - 1]]);
    }
  }

  /** The bits of the octets, and no more than four zeros behind them. */
  lemma {:induction false} EncodedBits(s: seq<Byte>) returns (z: nat)
    ensures z <= 4 && TextBits(Encoded(s)) == BytesBits(s) + Zeros(z)
  {
    hide ToBits, Quantum, Zeros;
    if s == [] {
      z := 0;
      assert TextBits([]) == [] && BytesBits([]) == [] && Zeros(0) == [];
    } else {
      var m := if |s| < 3 then |s| else 3;
      var q := Quantum(s[0], At(s, 1), At(s, 2), |s|);
      assert Encoded(s) == q + Encoded(s[m..]);
      hide TextBits, BytesBits, Encoded;
      RoundBits(s, m);
      QuantumBits(s[0], At(s, 1), At(s, 2), |s|);
      TextJoin(q, Encoded(s[m..]));
      var y := EncodedBits(s[m..]);
      var rest := BytesBits(s[m..]);
      if |s| >= 3 {
        z := y;
        Sequences.Associate(BytesBits(s[..m]), rest, Zeros(z));
      } else {
        z := if |s| == 2 then 2 else 4;
        LastRound(s[m..]);
        NoMore(BytesBits(s[..m]));
        NoMore(TextBits(q));
      }
    }
  }

  lemma LastRound(s: seq<Byte>)
    requires s == []
    ensures BytesBits(s) == [] && TextBits(Encoded(s)) == []
  {
  }

  /** What is encoded decodes to the octets again. */
  lemma DecodesEncoded(s: seq<Byte>, out: seq<Byte>)
    requires DecodesTo(Encoded(s), out)
    ensures out == s
  {
    var z := EncodedBits(s);
    hide Encoded, TextBits;
    assert |out| == |s|;
    assert BytesBits(out) == BytesBits(s);
    hide BytesBits;
    BytesBitsInjective(out, s);
  }

  /** Encoding and decoding in place is the identity. */
  method RoundTrip(s: seq<Byte>) returns (out: seq<Byte>)
    ensures out == s
  {
    var buf := new Buffer([]);
    EncodedNothing();
    EncodeBase64(s, buf);
    hide Encoded, DecodesTo;
    DecodeBase64(buf);
    out := buf.mem[..buf.len];
    DecodesEncoded(s, out);
  }

  lemma EncodedNothing()
    ensures Encoded([]) == []
  {
  }
}
