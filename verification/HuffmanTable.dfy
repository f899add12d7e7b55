/** The decoding table that huffman-gen.py derives from a code: the numbering of the inner nodes and
    the meaning of each cell. */
module HuffmanTable {
  import opened HuffmanCode
  import opened Bits

  // --- Numbering ---------------------------------------------------------------

  /** The inner nodes at and below p in the order in which assignIds and getNodes visit them. */
  ghost function Preorder(code: Code, p: Path): seq<Path>
    decreases 31 - |p|
  {
    if |p| <= 30 && Inner(code, p) then
      [p] + Preorder(code, p + [false]) + Preorder(code, p + [true])
    else []
  }

  lemma InnerIsShort(code: Code, p: Path)
    requires Good(code) && Inner(code, p)
    ensures |p| < 30
  {
    hide PrefixFree, Complete;
  }

  lemma InnerUp(code: Code, p: Path, q: Path)
    requires Inner(code, q) && p <= q
    ensures Inner(code, p)
  {
    var i :| 0 <= i < |code| && q < code[i];
    assert p < code[i];
  }

  lemma {:induction false} PreorderMembers(code: Code, p: Path, q: Path)
    requires Good(code) && |p| <= 31
    ensures q in Preorder(code, p) <==> Inner(code, q) && p <= q
    decreases 31 - |p|
  {
    hide Good, Inner;
    if Inner(code, p) {
      InnerIsShort(code, p);
      PreorderMembers(code, p + [false], q);
      PreorderMembers(code, p + [true], q);
      if p <= q && p != q {
        var b := q[|p|];
        assert q[..|p| + 1] == p + [b];
      }
    } else if Inner(code, q) && p <= q {
      InnerUp(code, p, q);
    }
  }

  ghost predicate NoRepeats(s: seq<Path>) {
    forall i, j :: 0 <= i < j < |s| ==> s[i] != s[j]
  }

  lemma {:induction false} PreorderNoRepeats(code: Code, p: Path)
    requires Good(code) && |p| <= 31
    ensures NoRepeats(Preorder(code, p))
    decreases 31 - |p|
  {
    hide Good, Inner;
    if Inner(code, p) {
      InnerIsShort(code, p);
      var l, r := p + [false], p + [true];
      var x, y := Preorder(code, l), Preorder(code, r);
      PreorderNoRepeats(code, l);
      PreorderNoRepeats(code, r);
      forall q | q in x ensures q != p && q !in y {
        PreorderMembers(code, l, q);
        PreorderMembers(code, r, q);
        OneSide(p, q);
      }
      forall q | q in y ensures q != p { PreorderMembers(code, r, q); }
      JoinNoRepeats(p, x, y);
    }
  }

  lemma OneSide(p: Path, q: Path)
    ensures !(p + [false] <= q && p + [true] <= q)
    ensures forall b :: p + [b] <= q ==> p <= q && p != q
  {
    assert forall b :: p + [b] <= q ==> |q| > |p| && (p + [b])[|p|] == q[|p|];
    forall b | p + [b] <= q ensures p <= q && p != q {
      forall i | 0 <= i < |p| ensures p[i] == q[i] { assert (p + [b])[i] == q[i]; }
    }
  }

  lemma JoinNoRepeats(p: Path, x: seq<Path>, y: seq<Path>)
    requires NoRepeats(x) && NoRepeats(y)
    requires forall q :: q in x ==> q != p && q !in y
    requires forall q :: q in y ==> q != p
    ensures NoRepeats([p] + x + y)
  {
    var s := [p] + x + y;
    forall i, j | 0 <= i < j < |s| ensures s[i] != s[j] {
      assert i > |x| ==> s[i] == y[i - 1 - |x|];
      assert 0 < i <= |x| ==> s[i] == x[i - 1] && s[i] in x;
      assert j > |x| ==> s[j] == y[j - 1 - |x|] && s[j] in y;
      assert 0 < j <= |x| ==> s[j] == x[j - 1] && s[j] in x;
    }
  }

  /** The codewords below p. */
  ghost function Under(code: Code, p: Path): set<nat> {
    set i: nat | i < |code| && p <= code[i]
  }

  /** A full binary tree has one inner node less than leaves. */
  lemma {:induction false} PreorderCount(code: Code, p: Path)
    requires Good(code) && |p| <= 31 && (Inner(code, p) || p in code)
    ensures |Preorder(code, p)| + 1 == |Under(code, p)|
    decreases 31 - |p|
  {
    hide Good;
    if p in code {
      LeafUnder(code, p);
    } else {
      InnerIsShort(code, p);
      ChildCases(code, p, false);
      ChildCases(code, p, true);
      PreorderCount(code, p + [false]);
      PreorderCount(code, p + [true]);
      UnderSplits(code, p);
      assert Under(code, p) == Under(code, p + [false]) + Under(code, p + [true]);
    }
  }

  lemma LeafUnder(code: Code, p: Path)
    requires Good(code) && p in code
    ensures !Inner(code, p) && |Under(code, p)| == 1
  {
    assert PrefixFree(code);
    hide Good;
    var k := Symbol(code, p);
    if Inner(code, p) { InnerNotWord(code, p, p); }
    assert Under(code, p) == {k} by {
      forall i | i in Under(code, p) ensures i == k { assert code[k] <= code[i]; }
    }
  }

  lemma UnderSplits(code: Code, p: Path)
    requires Inner(code, p) && p !in code
    ensures Under(code, p) == Under(code, p + [false]) + Under(code, p + [true])
    ensures Under(code, p + [false]) !! Under(code, p + [true])
  {
    forall i | i in Under(code, p) ensures i in Under(code, p + [false]) || i in Under(code, p + [true]) {
      var w := code[i];
      assert w in code && w != p;
      var b := w[|p|];
      assert p + [b] <= w;
      if b { assert p + [true] <= w; } else { assert p + [false] <= w; }
    }
    forall i: nat | i < |code| ensures !(i in Under(code, p + [false]) && i in Under(code, p + [true])) {
      OneSide(p, code[i]);
    }
    forall i: nat | i in Under(code, p + [false]) + Under(code, p + [true]) ensures i in Under(code, p) {
      OneSide(p, code[i]);
    }
  }

  ghost function UpTo(n: nat): (s: set<nat>)
    ensures |s| == n && forall i :: i in s <==> 0 <= i < n
  {
    if n == 0 then {} else UpTo(n - 1) + {n - 1}
  }

  lemma UnderRoot(code: Code)
    ensures |Under(code, [])| == |code|
  {
    hide UpTo;
    assert Under(code, []) == UpTo(|code|);
  }

  /** 257 leaves give exactly 256 inner nodes: every number fits the decoder's uint8_t state. */
  lemma InnerNodes(code: Code)
    requires Good(code)
    ensures |Preorder(code, [])| == 256 && Preorder(code, [])[0] == []
    ensures forall p :: p in Preorder(code, []) <==> Inner(code, p)
    ensures NoRepeats(Preorder(code, []))
  {
    assert |code| == 257;
    RootIsInner(code);
    PreorderCount(code, []);
    PreorderNoRepeats(code, []);
    UnderRoot(code);
    hide Good, Inner;
    forall p ensures p in Preorder(code, []) <==> Inner(code, p) { PreorderMembers(code, [], p); }
  }

  ghost function Number(code: Code, p: Path): (k: nat)
    requires Good(code) && Inner(code, p)
    ensures k < |Preorder(code, [])| && Preorder(code, [])[k] == p
  {
    PreorderMembers(code, [], p);
    var k :| 0 <= k < |Preorder(code, [])| && Preorder(code, [])[k] == p;
    k
  }

  lemma NumberUnique(code: Code, k: nat)
    requires Good(code) && k < |Preorder(code, [])|
    ensures Inner(code, Preorder(code, [])[k]) && Number(code, Preorder(code, [])[k]) == k
  {
    InnerNodes(code);
    hide Good;
    assert Preorder(code, [])[k] in Preorder(code, []);
  }

  // --- Cells -----------------------------------------------------------------------

  /** hpack_huffman_decode_t */
  datatype Cell = Cell(state: int, flags: nat, sym: nat)

  const ACCEPTED := 1
  const SYMBOL := 2

  predicate Accepts(c: Cell) {
    c.flags % 2 == 1
  }

  predicate Emits(c: Cell) {
    (c.flags / 2) % 2 == 1
  }

  /** The encoder pads with fewer than eight bits of EOS, so these are the proper ends of a stream. */
  ghost predicate Accepting(code: Code, p: Path)
    requires Good(code)
  {
    |p| <= 7 && p <= code[EOS]
  }

  /** What the cell of node p for the four bits of x has to say. */
  ghost predicate CellMeans(code: Code, p: Path, bits: Path, c: Cell)
    requires Good(code) && Inner(code, p)
  {
    var w := Walk(code, p, bits);
    WalkInner(code, p, bits);
    if w.out != [] && w.out[0] == EOS then c.state == -1
    else
      && c.state == Number(code, w.at)
      && (Accepts(c) <==> Accepting(code, w.at))
      && (Emits(c) <==> w.out != [])
      && (w.out != [] ==> c.sym == w.out[0])
      && c.sym < 256
  }

  type Table = seq<seq<Cell>>

  ghost predicate TableOf(code: Code, table: Table)
    requires Good(code)
  {
    && |table| == 256
    && (forall k :: 0 <= k < 256 ==> |table[k]| == 16)
    && (forall k, x :: 0 <= k < 256 && 0 <= x < 16 ==> RowMeans(code, k, x, table[k][x]))
  }

  ghost predicate RowMeans(code: Code, k: nat, x: nat, c: Cell)
    requires Good(code) && k < 256
  {
    InnerNodes(code);
    NumberUnique(code, k);
    CellMeans(code, Preorder(code, [])[k], ToBits(x, 4), c)
  }
}
