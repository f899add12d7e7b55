/** A complete prefix code as the generator of libhpack/huffman-gen.py expects it, and decoding one
    bit at a time.  A node of the decoding tree is named by its path from the root: an inner node is
    a proper prefix of a codeword, a leaf is a codeword. */
module HuffmanCode {
  import Sequences

  type Path = seq<bool>
  type Code = seq<Path>

  const EOS := 256

  ghost predicate PrefixFree(code: Code) {
    forall i, j :: 0 <= i < |code| && 0 <= j < |code| && i != j ==> !(code[i] <= code[j])
  }

  /** Every bit string is comparable with some codeword: no path is missing. */
  ghost predicate Complete(code: Code) {
    forall b: Path :: Comparable(code, b)
  }

  ghost predicate Comparable(code: Code, b: Path) {
    exists i :: 0 <= i < |code| && (code[i] <= b || b <= code[i])
  }

  /** The shape of the HPACK codes: section 5.2 of RFC 7541. */
  ghost predicate Good(code: Code) {
    && |code| == 257 && PrefixFree(code) && Complete(code)
    && (forall i :: 0 <= i < |code| ==> 4 <= |code[i]| <= 30)
    && |code[EOS]| > 7
  }

  ghost predicate Inner(code: Code, p: Path) {
    exists i :: 0 <= i < |code| && p < code[i]
  }

  ghost function Symbol(code: Code, p: Path): (i: nat)
    requires p in code
    ensures i < |code| && code[i] == p
  {
    var i :| 0 <= i < |code| && code[i] == p;
    i
  }

  lemma SymbolOf(code: Code, i: nat)
    requires PrefixFree(code) && i < |code|
    ensures code[i] in code && Symbol(code, code[i]) == i
  {
  }

  lemma RootIsInner(code: Code)
    requires Good(code)
    ensures Inner(code, []) && [] !in code
  {
    assert [] < code[0];
  }

  /** An inner node has both children, and each is either inner or a leaf. */
  lemma ChildCases(code: Code, p: Path, b: bool)
    requires Good(code) && Inner(code, p)
    ensures Inner(code, p + [b]) <==> p + [b] !in code
  {
    var q := p + [b];
    assert Comparable(code, q) && PrefixFree(code);
    hide Good, PrefixFree, Complete;
    if q in code {
      assert q <= q;
      if Inner(code, q) { InnerNotWord(code, q, q); }
    } else {
      ChildExists(code, p, q);
    }
  }

  lemma ChildExists(code: Code, p: Path, q: Path)
    requires PrefixFree(code) && Inner(code, p) && Comparable(code, q) && q !in code
    requires |q| == |p| + 1 && p <= q
    ensures Inner(code, q)
  {
    hide PrefixFree;
    var i :| 0 <= i < |code| && (code[i] <= q || q <= code[i]);
    if code[i] <= q {
      assert code[i] != q;
      assert code[i] <= p;
      InnerNotWord(code, code[i], p);
      assert false;
    }
  }

  lemma InnerNotWord(code: Code, q: Path, r: Path)
    requires PrefixFree(code) && Inner(code, r) && q <= r
    ensures q !in code
  {
    var j :| 0 <= j < |code| && r < code[j];
    assert forall i :: 0 <= i < |code| && code[i] == q ==> code[i] <= code[j] && |code[i]| < |code[j]|;
  }

  // --- One bit at a time ---------------------------------------------------------

  datatype State = State(at: Path, out: seq<nat>)

  /** Following one edge; at a leaf the symbol is emitted and the walk resumes at the root. */
  ghost function Step(code: Code, p: Path, b: bool): State {
    if p + [b] in code then State([], [Symbol(code, p + [b])]) else State(p + [b], [])
  }

  ghost function Walk(code: Code, p: Path, bits: Path): State
    decreases |bits|
  {
    if bits == [] then State(p, [])
    else
      var s := Step(code, p, bits[0]);
      var r := Walk(code, s.at, bits[1..]);
      State(r.at, s.out + r.out)
  }

  lemma {:induction false} WalkInner(code: Code, p: Path, bits: Path)
    requires Good(code) && Inner(code, p)
    ensures Inner(code, Walk(code, p, bits).at)
    decreases |bits|
  {
    hide Good, Inner;
    if bits != [] {
      ChildCases(code, p, bits[0]);
      RootIsInner(code);
      WalkInner(code, Step(code, p, bits[0]).at, bits[1..]);
    }
  }

  lemma {:induction false} WalkConcat(code: Code, p: Path, a: Path, b: Path)
    ensures var s := Walk(code, p, a); var r := Walk(code, s.at, b);
      Walk(code, p, a + b) == State(r.at, s.out + r.out)
    decreases |a|
  {
    if a == [] {
      assert a + b == b;
    } else {
      hide Step;
      var s := Step(code, p, a[0]);
      assert (a + b)[0] == a[0] && (a + b)[1..] == a[1..] + b;
      WalkConcat(code, s.at, a[1..], b);
      var r := Walk(code, s.at, a[1..]);
      Sequences.Associate(s.out, r.out, Walk(code, r.at, b).out);
    }
  }

  /** No codeword is completed before its last bit. */
  lemma {:induction false} WalkWithin(code: Code, p: Path, bits: Path)
    requires PrefixFree(code) && Inner(code, p + bits)
    ensures Walk(code, p, bits) == State(p + bits, [])
    decreases |bits|
  {
    hide PrefixFree, Inner;
    if bits == [] {
      assert p + bits == p;
    } else {
      var q := p + [bits[0]];
      assert q + bits[1..] == p + bits;
      InnerNotWord(code, q, p + bits);
      WalkWithin(code, q, bits[1..]);
    }
  }

  lemma InnerPrefix(code: Code, i: nat, n: nat)
    requires i < |code| && n < |code[i]|
    ensures Inner(code, code[i][..n])
  {
    assert code[i][..n] < code[i];
  }

  lemma WalkWord(code: Code, i: nat)
    requires Good(code) && i < |code|
    ensures Walk(code, [], code[i]) == State([], [i])
  {
    assert PrefixFree(code) && |code[i]| >= 4;
    hide Good, PrefixFree, Inner, Walk;
    var w := code[i];
    var n := |w| - 1;
    var u, v := w[..n], [w[n]];
    assert w == u + v && [] + u == u;
    assert Inner(code, u) by { InnerPrefix(code, i, n); }
    WalkWithin(code, [], u);
    WalkConcat(code, [], u, v);
    SymbolOf(code, i);
    WalkOne(code, u, w[n]);
    assert [] + [i] == [i];
  }

  lemma WalkOne(code: Code, p: Path, b: bool)
    ensures Walk(code, p, [b]) == Step(code, p, b)
  {
    hide Step;
    var s := Step(code, p, b);
    assert [b][1..] == [] && s.out + [] == s.out;
    assert Walk(code, s.at, []) == State(s.at, []);
  }

  // --- Four bits at a time ---------------------------------------------------------

  lemma WordsAreLong(code: Code, q: Path)
    requires Good(code)
    ensures q in code ==> |q| >= 4
  {
    hide PrefixFree, Complete;
  }

  /** Fewer than four bits from the root never reach a leaf. */
  lemma {:induction false} ShortFromRoot(code: Code, p: Path, bits: Path)
    requires Good(code) && Inner(code, p) && |p| + |bits| < 4
    ensures Walk(code, p, bits) == State(p + bits, []) && Inner(code, p + bits)
    decreases |bits|
  {
    if bits == [] {
      assert p + bits == p;
    } else {
      var q := p + [bits[0]];
      assert q + bits[1..] == p + bits;
      ChildCases(code, p, bits[0]);
      WordsAreLong(code, q);
      hide Good, Inner;
      ShortFromRoot(code, q, bits[1..]);
    }
  }

  /** Four bits emit at most one symbol: codewords have at least four. */
  lemma {:induction false} AtMostOneSymbol(code: Code, p: Path, bits: Path)
    requires Good(code) && Inner(code, p) && |bits| <= 4
    ensures |Walk(code, p, bits).out| <= 1
    decreases |bits|
  {
    hide Good, Inner;
    if bits != [] {
      ChildCases(code, p, bits[0]);
      RootIsInner(code);
      if p + [bits[0]] in code {
        ShortFromRoot(code, [], bits[1..]);
      } else {
        AtMostOneSymbol(code, p + [bits[0]], bits[1..]);
      }
    }
  }

  // --- Decoding ----------------------------------------------------------------------

  /** ok: EOS was not completed; out: the symbols before that; at: where the bits end. */
  datatype Decoded = Decoded(ok: bool, out: seq<nat>, at: Path)

  /** The reference decoder: one bit at a time, a completed EOS is an error. */
  ghost function Decode(code: Code, p: Path, bits: Path): Decoded
    decreases |bits|
  {
    if bits == [] then Decoded(true, [], p)
    else
      var s := Step(code, p, bits[0]);
      if s.out == [EOS] then Decoded(false, [], p)
      else
        var r := Decode(code, s.at, bits[1..]);
        Decoded(r.ok, s.out + r.out, r.at)
  }

  /** Decoding resumes where it stopped. */
  lemma {:induction false} DecodeConcat(code: Code, p: Path, a: Path, b: Path)
    ensures var d, e := Decode(code, p, a), Decode(code, p, a + b);
      if !d.ok then !e.ok && e.out == d.out
      else var r := Decode(code, d.at, b); e == Decoded(r.ok, d.out + r.out, r.at)
    decreases |a|
  {
    if a == [] {
      assert a + b == b;
    } else {
      assert (a + b)[0] == a[0] && (a + b)[1..] == a[1..] + b;
      hide Step;
      var s := Step(code, p, a[0]);
      DecodeConcat(code, s.at, a[1..], b);
      var d := Decode(code, s.at, a[1..]);
      Sequences.Associate(s.out, d.out, Decode(code, d.at, b).out);
    }
  }

  /** A walk that never completes EOS decodes to what it emits. */
  lemma {:induction false} DecodeIsWalk(code: Code, p: Path, bits: Path)
    ensures var w, d := Walk(code, p, bits), Decode(code, p, bits);
      && (d.ok <==> EOS !in w.out)
      && (d.ok ==> d.out == w.out && d.at == w.at)
      && d.out <= w.out && (!d.ok ==> |d.out| < |w.out| && w.out[|d.out|] == EOS)
    decreases |bits|
  {
    if bits != [] {
      DecodeIsWalk(code, Step(code, p, bits[0]).at, bits[1..]);
    }
  }

  // --- Encoding ------------------------------------------------------------------------

  ghost function Encode(code: Code, msg: seq<nat>): Path
    requires forall i :: 0 <= i < |msg| ==> msg[i] < |code|
  {
    if msg == [] then [] else Encode(code, msg[..|msg| - 1]) + code[msg[|msg| - 1]]
  }

  /** A decoder walks back over the codewords of any message, whatever padding of EOS bits follows. */
  lemma {:induction false} WalkEncoded(code: Code, msg: seq<nat>)
    requires Good(code) && forall i :: 0 <= i < |msg| ==> msg[i] < |code|
    ensures Walk(code, [], Encode(code, msg)) == State([], msg)
  {
    assert PrefixFree(code);
    hide Good, PrefixFree;
    if msg != [] {
      var n := |msg| - 1;
      WalkEncoded(code, msg[..n]);
      WalkWord(code, msg[n]);
      WalkConcat(code, [], Encode(code, msg[..n]), code[msg[n]]);
      assert msg == msg[..n] + [msg[n]];
    }
  }

  lemma RoundTrip(code: Code, msg: seq<nat>, pad: nat)
    requires Good(code) && pad < |code[EOS]|
    requires forall i :: 0 <= i < |msg| ==> msg[i] < EOS
    ensures Decode(code, [], Encode(code, msg) + code[EOS][..pad]) == Decoded(true, msg, code[EOS][..pad])
  {
    assert PrefixFree(code);
    hide PrefixFree;
    var bits, tail := Encode(code, msg), code[EOS][..pad];
    WalkEncoded(code, msg);
    assert [] + tail == tail && tail < code[EOS];
    WalkWithin(code, [], tail);
    WalkConcat(code, [], bits, tail);
    assert msg + [] == msg;
    DecodeIsWalk(code, [], bits + tail);
  }
}
