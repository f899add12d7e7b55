/** libhpack/bitmap_set.c: sets of header table slots as bitmaps, and their resumable iterator. */
module BitmapSets {
  import opened Bits

  const SLOTS := 128                    // HPACK_MAX_HEADER_TABLE_ENTRIES
  const BITS := 64                      // HPACK_SET_BITS_IN_ENTRY
  const ENTRIES := 2                    // HPACK_SET_NUM_ENTRIES
  const ONES := 0xFFFF_FFFF_FFFF_FFFF   // ~(hpack_set_entry_t) 0

  // --- One word --------------------------------------------------------------------

  function Bit(w: nat, i: nat): bool
    decreases i
  {
    if i == 0 then w % 2 == 1 else Bit(w / 2, i - 1)
  }

  /** a & b */
  function And(a: nat, b: nat): nat {
    if a == 0 then 0 else 2 * And(a / 2, b / 2) + (if a % 2 == 1 && b % 2 == 1 then 1 else 0)
  }

  /** a & ~b */
  function AndNot(a: nat, b: nat): nat {
    if a == 0 then 0 else 2 * AndNot(a / 2, b / 2) + (if a % 2 == 1 && b % 2 == 0 then 1 else 0)
  }

  lemma {:induction false} ZeroBit(i: nat)
    ensures !Bit(0, i)
  {
    if i > 0 { ZeroBit(i - 1); }
  }

  lemma {:induction false} OrBit(a: nat, b: nat, i: nat)
    ensures Bit(Or(a, b), i) <==> Bit(a, i) || Bit(b, i)
    decreases i
  {
    OrHalf(a, b);
    if i > 0 { OrBit(a / 2, b / 2, i - 1); }
  }

  lemma {:induction false} AndBit(a: nat, b: nat, i: nat)
    ensures Bit(And(a, b), i) <==> Bit(a, i) && Bit(b, i)
    decreases i
  {
    if a == 0 {
      ZeroBit(i);
    } else if i > 0 {
      assert And(a, b) / 2 == And(a / 2, b / 2);
      AndBit(a / 2, b / 2, i - 1);
    }
  }

  lemma {:induction false} AndNotBit(a: nat, b: nat, i: nat)
    ensures Bit(AndNot(a, b), i) <==> Bit(a, i) && !Bit(b, i)
    decreases i
  {
    if a == 0 {
      ZeroBit(i);
    } else if i > 0 {
      assert AndNot(a, b) / 2 == AndNot(a / 2, b / 2);
      AndNotBit(a / 2, b / 2, i - 1);
    }
  }

  lemma {:induction false} AndLess(a: nat, b: nat)
    ensures And(a, b) <= a && AndNot(a, b) <= a
  {
    if a > 0 { AndLess(a / 2, b / 2); }
  }

  lemma {:induction false} MaskBit(k: nat, i: nat)
    ensures Bit(Pow2(k), i) <==> i == k
    decreases i
  {
    if i > 0 {
      if k > 0 { MaskBit(k - 1, i - 1); } else { ZeroBit(i - 1); }
    }
  }

  lemma {:induction false} LowMaskBit(k: nat, i: nat)
    ensures Bit(Pow2(k) - 1, i) <==> i < k
    decreases i
  {
    if k == 0 {
      ZeroBit(i);
    } else if i > 0 {
      assert (Pow2(k) - 1) / 2 == Pow2(k - 1) - 1;
      LowMaskBit(k - 1, i - 1);
    }
  }

  /** Words are determined by their bits. */
  lemma {:induction false} SameBits(a: nat, b: nat, n: nat)
    requires a < Pow2(n) && b < Pow2(n)
    requires forall i :: 0 <= i < n ==> (Bit(a, i) <==> Bit(b, i))
    ensures a == b
  {
    if n > 0 {
      assert Bit(a, 0) <==> Bit(b, 0);
      forall i | 0 <= i < n - 1 ensures Bit(a / 2, i) <==> Bit(b / 2, i) {
        assert Bit(a, i + 1) <==> Bit(b, i + 1);
      }
      SameBits(a / 2, b / 2, n - 1);
    }
  }

  lemma AllOnes()
    ensures Pow2(BITS) == ONES + 1
  {
    hide Pow2;
    Pow2Plus16(48);
    Pow2Plus16(32);
    Pow2Plus16(16);
    Pow2Plus16(0);
  }

  ghost predicate NoBits(w: nat, from: nat) {
    forall i :: from <= i < BITS ==> !Bit(w, i)
  }

  ghost predicate EveryBit(w: nat) {
    forall i :: 0 <= i < BITS ==> Bit(w, i)
  }

  lemma ZeroWord(w: nat)
    requires w <= ONES
    ensures w == 0 <==> NoBits(w, 0)
  {
    AllOnes();
    hide Pow2;
    forall i | 0 <= i < BITS ensures !Bit(0, i) { ZeroBit(i); }
    if NoBits(w, 0) { SameBits(w, 0, BITS); }
  }

  lemma FullWord(w: nat)
    requires w <= ONES
    ensures w == ONES <==> EveryBit(w)
  {
    AllOnes();
    hide Pow2;
    forall i | 0 <= i < BITS ensures Bit(ONES, i) { LowMaskBit(BITS, i); }
    if EveryBit(w) { SameBits(w, ONES, BITS); }
  }

  lemma MaskFits(i: nat)
    requires i < BITS
    ensures Pow2(i) <= ONES
  {
    AllOnes();
    hide Pow2;
    PowUp(i, BITS);
  }

  lemma {:induction false} PowUp(i: nat, n: nat)
    requires i < n
    ensures Pow2(i) < Pow2(n)
    decreases n
  {
    if i < n - 1 { PowUp(i, n - 1); }
  }

  lemma OrFits(a: nat, b: nat)
    requires a <= ONES && b <= ONES
    ensures Or(a, b) <= ONES
  {
    AllOnes();
    hide Or, Pow2;
    OrBound(a, b, BITS);
  }

  /** The test for membership. */
  lemma TestBit(w: nat, i: nat)
    requires w <= ONES && i < BITS
    ensures And(w, Pow2(i)) != 0 <==> Bit(w, i)
  {
    AndLess(w, Pow2(i));
    ZeroWord(And(w, Pow2(i)));
    hide And, Pow2;
    forall j | 0 <= j < BITS ensures Bit(And(w, Pow2(i)), j) <==> Bit(w, j) && j == i {
      AndBit(w, Pow2(i), j);
      MaskBit(i, j);
    }
  }

  /** The test of the iterator: something is left at or above the k-th bit. */
  lemma TestRest(w: nat, k: nat)
    requires w <= ONES && k < BITS
    ensures AndNot(w, Pow2(k) - 1) == 0 <==> NoBits(w, k)
  {
    var v := AndNot(w, Pow2(k) - 1);
    AndLess(w, Pow2(k) - 1);
    ZeroWord(v);
    hide AndNot, Pow2;
    forall j | 0 <= j < BITS ensures Bit(v, j) <==> Bit(w, j) && k <= j {
      AndNotBit(w, Pow2(k) - 1, j);
      LowMaskBit(k, j);
    }
    if NoBits(v, 0) {
      forall j | k <= j < BITS ensures !Bit(w, j) { assert !Bit(v, j); }
    }
  }

  // --- Sets --------------------------------------------------------------------------

  predicate Has(ws: seq<nat>, i: nat)
    requires |ws| == ENTRIES && i < SLOTS
  {
    Bit(ws[i / BITS], i % BITS)
  }

  ghost predicate Words(ws: seq<nat>) {
    |ws| == ENTRIES && ws[0] <= ONES && ws[1] <= ONES
  }

  ghost function Members(ws: seq<nat>): (m: set<nat>)
    requires |ws| == ENTRIES
    ensures forall i: nat :: i in m <==> i < SLOTS && Has(ws, i)
  {
    set i: nat | i < SLOTS && Has(ws, i)
  }

  predicate Slot(i: nat) {
    i < SLOTS
  }

  ghost function AllSlots(): (m: set<nat>)
    ensures forall i :: i in m <==> Slot(i)
  {
    set i: nat | i < SLOTS && Slot(i)
  }

  lemma Added(ws: seq<nat>, i: nat)
    requires Words(ws) && i < SLOTS
    ensures var more := ws[i / BITS := Or(ws[i / BITS], Pow2(i % BITS))];
      Words(more) && Members(more) == Members(ws) + {i}
  {
    hide Or, Pow2;
    MaskFits(i % BITS);
    OrFits(ws[i / BITS], Pow2(i % BITS));
    forall j: nat | j < SLOTS
      ensures Has(ws[i / BITS := Or(ws[i / BITS], Pow2(i % BITS))], j) <==> j == i || Has(ws, j)
    {
      OrBit(ws[i / BITS], Pow2(i % BITS), j % BITS);
      MaskBit(i % BITS, j % BITS);
    }
  }

  lemma Removed(ws: seq<nat>, i: nat)
    requires Words(ws) && i < SLOTS
    ensures var less := ws[i / BITS := AndNot(ws[i / BITS], Pow2(i % BITS))];
      Words(less) && Members(less) == Members(ws) - {i}
  {
    hide AndNot, Pow2;
    AndLess(ws[i / BITS], Pow2(i % BITS));
    forall j: nat | j < SLOTS
      ensures Has(ws[i / BITS := AndNot(ws[i / BITS], Pow2(i % BITS))], j) <==> j != i && Has(ws, j)
    {
      AndNotBit(ws[i / BITS], Pow2(i % BITS), j % BITS);
      MaskBit(i % BITS, j % BITS);
    }
  }

  lemma Minus(a: seq<nat>, b: seq<nat>)
    requires Words(a) && Words(b)
    ensures var c := [AndNot(a[0], b[0]), AndNot(a[1], b[1])]; Words(c) && Members(c) == Members(a) - Members(b)
  {
    hide AndNot;
    AndLess(a[0], b[0]);
    AndLess(a[1], b[1]);
    forall j: nat | j < SLOTS
      ensures Has([AndNot(a[0], b[0]), AndNot(a[1], b[1])], j) <==> Has(a, j) && !Has(b, j)
    {
      AndNotBit(a[j / BITS], b[j / BITS], j % BITS);
    }
  }

  lemma EmptyAndFull(ws: seq<nat>)
    requires Words(ws)
    ensures Members(ws) == {} <==> ws[0] == 0 && ws[1] == 0
    ensures Members(ws) == AllSlots() <==> ws[0] == ONES && ws[1] == ONES
  {
    ZeroWord(ws[0]);
    ZeroWord(ws[1]);
    FullWord(ws[0]);
    FullWord(ws[1]);
    forall i: nat | i < BITS ensures i in Members(ws) <==> Bit(ws[0], i) {
      assert Has(ws, i) <==> Bit(ws[0], i);
    }
    forall i: nat | i < BITS ensures BITS + i in Members(ws) <==> Bit(ws[1], i) {
      assert Has(ws, BITS + i) <==> Bit(ws[1], i);
    }
    if NoBits(ws[0], 0) && NoBits(ws[1], 0) {
      forall i: nat | i < SLOTS ensures i !in Members(ws) { assert !Bit(ws[i / BITS], i % BITS); }
    }
    if EveryBit(ws[0]) && EveryBit(ws[1]) {
      forall i: nat | i < SLOTS ensures i in Members(ws) { assert Bit(ws[i / BITS], i % BITS); }
    }
    if Members(ws) == AllSlots() {
      forall i: nat | i < BITS ensures Bit(ws[0], i) && Bit(ws[1], i) { assert Slot(i) && Slot(BITS + i); }
    }
  }

  /** hpack_set_t */
  class BitSet {
    const words: array<nat>
    ghost var members: set<nat>

    ghost predicate Valid()
      reads this, words
    {
      Words(words[..]) && members == Members(words[..])
    }

    /** hpack_set_init */
    constructor (fill: bool)
      ensures Valid() && fresh(words) && members == if fill then AllSlots() else {}
    {
      var w := new nat[ENTRIES](_ => if fill then ONES else 0);
      words := w;
      EmptyAndFull([w[0], w[1]]);
      new;
      assert words[..] == [w[0], w[1]];
      members := Members(words[..]);
    }

    method Clear()
      requires Valid()
      modifies this`members, words
      ensures Valid() && members == {}
    {
      for i := 0 to ENTRIES
        invariant forall j :: 0 <= j < i ==> words[j] == 0
        invariant words.Length == ENTRIES
      {
        words[i] := 0;
      }
      EmptyAndFull(words[..]);
      members := {};
    }

    method Fill()
      requires Valid()
      modifies this`members, words
      ensures Valid() && members == AllSlots()
    {
      for i := 0 to ENTRIES
        invariant forall j :: 0 <= j < i ==> words[j] == ONES
        invariant words.Length == ENTRIES
      {
        words[i] := ONES;
      }
      EmptyAndFull(words[..]);
      members := AllSlots();
    }

    method Add(i: nat) returns (ok: bool)
      requires Valid()
      modifies this`members, words
      ensures Valid() && ok == (i < SLOTS)
      ensures members == if ok then old(members) + {i} else old(members)
    {
      if SLOTS <= i { return false; }
      Added(words[..], i);
      ghost var was := words[..];
      words[i / BITS] := Or(words[i / BITS], Pow2(i % BITS));
      assert words[..] == was[i / BITS := Or(was[i / BITS], Pow2(i % BITS))];
      members := members + {i};
      ok := true;
    }

    method Remove(i: nat) returns (ok: bool)
      requires Valid()
      modifies this`members, words
      ensures Valid() && ok == (i < SLOTS)
      ensures members == if ok then old(members) - {i} else old(members)
    {
      if SLOTS <= i { return false; }
      Removed(words[..], i);
      ghost var was := words[..];
      words[i / BITS] := AndNot(words[i / BITS], Pow2(i % BITS));
      assert words[..] == was[i / BITS := AndNot(was[i / BITS], Pow2(i % BITS))];
      members := members - {i};
      ok := true;
    }

    /** hpack_set_relative_comp */
    method RelativeComp(other: BitSet)
      requires Valid() && other.Valid()
      modifies this`members, words
      ensures Valid() && members == old(members) - old(other.members)
    {
      ghost var was, theirs, gone := words[..], other.words[..], other.members;
      Minus(was, theirs);
      for i := 0 to ENTRIES
        invariant words.Length == ENTRIES && other.words.Length == ENTRIES && members == old(members)
        invariant forall j :: 0 <= j < i ==> words[j] == AndNot(was[j], theirs[j])
        invariant forall j :: i <= j < ENTRIES ==> words[j] == was[j] && other.words[j] == theirs[j]
      {
        words[i] := AndNot(words[i], other.words[i]);
      }
      assert words[..] == [AndNot(was[0], theirs[0]), AndNot(was[1], theirs[1])];
      members := members - gone;
    }

    /** hpack_set_set */
    method Assign(other: BitSet)
      requires Valid() && other.Valid()
      modifies this`members, words
      ensures Valid() && members == old(other.members)
    {
      ghost var theirs, all := other.words[..], other.members;
      for i := 0 to ENTRIES
        invariant words.Length == ENTRIES && other.words[..] == theirs
        invariant forall j :: 0 <= j < i ==> words[j] == theirs[j]
      {
        words[i] := other.words[i];
      }
      assert words[..] == theirs;
      members := all;
    }

    method Exists(i: nat) returns (b: bool)
      requires Valid()
      ensures b <==> i in members
    {
      if SLOTS <= i { return false; }
      TestBit(words[i / BITS], i % BITS);
      assert words[..][i / BITS] == words[i / BITS];
      b := And(words[i / BITS], Pow2(i % BITS)) != 0;
    }

    method IsEmpty() returns (b: bool)
      requires Valid()
      ensures b <==> members == {}
    {
      EmptyAndFull(words[..]);
      for i := 0 to ENTRIES
        invariant forall j :: 0 <= j < i ==> words[j] == 0
      {
        if words[i] != 0 { return false; }
      }
      b := true;
    }

    method IsFull() returns (b: bool)
      requires Valid()
      ensures b <==> members == AllSlots()
    {
      EmptyAndFull(words[..]);
      for i := 0 to ENTRIES
        invariant forall j :: 0 <= j < i ==> words[j] == ONES
      {
        if words[i] != ONES { return false; }
      }
      b := true;
    }
  }

  // --- Iterator ------------------------------------------------------------------------

  /** The least member from a position on is r; there is none if r == -1. */
  ghost predicate NextFrom(m: set<nat>, at: nat, r: int) {
    if r == -1 then forall i :: at <= i < SLOTS ==> i !in m
    else at <= r < SLOTS && r in m && forall i :: at <= i < r ==> i !in m
  }

  /** The least member of a set of slots from a position on. */
  function Next(m: set<nat>, at: nat): (r: int)
    ensures NextFrom(m, at, r)
    decreases SLOTS - at
  {
    if at >= SLOTS then -1 else if at in m then at else Next(m, at + 1)
  }

  /** hpack_set_iterator_t: it keeps its place between calls, whatever happens to the set. */
  class SetIterator {
    const over: BitSet
    var bit: nat
    var entry: nat

    ghost predicate Valid()
      reads this
    {
      bit < BITS && entry <= ENTRIES && (entry == ENTRIES ==> bit == 0)
    }

    ghost function Position(): nat
      reads this
    {
      BITS * entry + bit
    }

    constructor (s: BitSet)
      ensures Valid() && Position() == 0 && over == s
    {
      over, bit, entry := s, 0, 0;
    }

    method Reset()
      modifies this
      ensures Valid() && Position() == 0
    {
      bit, entry := 0, 0;
    }

    /** hpack_set_iter_next */
    method Next() returns (result: int)
      requires Valid() && over.Valid()
      modifies this
      ensures Valid() && NextFrom(over.members, old(Position()), result)
      ensures Position() == if result == -1 then SLOTS else result + 1
    {
      ghost var at, m := Position(), over.members;
      result := -1;
      while entry < ENTRIES && result == -1
        invariant Valid() && over.Valid() && over.members == m && at <= Position()
        invariant result == -1 ==> NoneIn(m, at, Position())
        invariant result != -1 ==> NextFrom(m, at, result) && Position() == result + 1
        decreases result == -1, ENTRIES - entry
      {
        WordRest(over, entry, bit);
        if AndNot(over.words[entry], Pow2(bit) - 1) != 0 {
          result := ScanWord();
        } else {
          entry := entry + 1;
          bit := 0;
        }
      }
    }

    /** The remaining bits of the present entry. */
    method ScanWord() returns (result: int)
      requires Valid() && over.Valid() && entry < ENTRIES
      requires !NoneIn(over.members, Position(), BITS * (entry + 1))
      modifies this
      ensures Valid() && result != -1 && NextFrom(over.members, old(Position()), result)
      ensures Position() == result + 1
    {
      ghost var at, m := Position(), over.members;
      result := -1;
      while bit < BITS && result == -1
        invariant bit <= BITS && entry == old(entry) && at <= Position()
        invariant over.Valid() && over.members == m
        invariant result == -1 ==> NoneIn(m, at, Position())
        invariant result != -1 ==> NextFrom(m, at, result) && Position() == result + 1
        decreases BITS - bit
      {
        WordBit(over, entry, bit);
        if And(over.words[entry], Pow2(bit)) != 0 {
          result := bit + entry * BITS;
        }
        bit := bit + 1;
      }
      if bit == BITS {
        entry := entry + 1;
        bit := 0;
      }
    }
  }

  ghost predicate NoneIn(m: set<nat>, from: int, to: int) {
    forall i :: from <= i < to ==> i !in m
  }

  lemma WordBit(s: BitSet, entry: nat, bit: nat)
    requires s.Valid() && entry < ENTRIES && bit < BITS
    ensures And(s.words[entry], Pow2(bit)) != 0 <==> BITS * entry + bit in s.members
  {
    TestBit(s.words[..][entry], bit);
    hide And, Pow2;
    assert (BITS * entry + bit) / BITS == entry && (BITS * entry + bit) % BITS == bit;
    assert s.words[..][entry] == s.words[entry];
  }

  lemma WordRest(s: BitSet, entry: nat, bit: nat)
    requires s.Valid() && entry < ENTRIES && bit < BITS
    ensures AndNot(s.words[entry], Pow2(bit) - 1) == 0 <==> NoneIn(s.members, BITS * entry + bit, BITS * (entry + 1))
  {
    var w := s.words[..][entry];
    assert w == s.words[entry];
    TestRest(w, bit);
    hide AndNot, Pow2;
    forall i | BITS * entry <= i < BITS * (entry + 1) ensures i in s.members <==> Bit(w, i - BITS * entry) {
      assert i / BITS == entry && i % BITS == i - BITS * entry;
    }
    if NoneIn(s.members, BITS * entry + bit, BITS * (entry + 1)) {
      forall i | bit <= i < BITS ensures !Bit(w, i) {
        assert i == (BITS * entry + i) - BITS * entry;
        assert BITS * entry + i !in s.members;
      }
    }
  }

  // --- The iterator as it is written -------------------------------------------------------

  datatype Mask = Mask(bits: nat) | NoMask

  /** The bits below a position, from an int that is shifted before it is widened: the shift by 31 is
      negative and fills the upper half, and wider shifts are undefined. */
  function MaskAsWritten(bit: nat): Mask {
    if bit <= 30 then Mask(Pow2(bit) - 1) else if bit == 31 then Mask(0xFFFF_FFFF_7FFF_FFFF) else NoMask
  }

  /** The test with that mask says for every word whether something is left. */
  ghost predicate TestsRight(bit: nat) {
    MaskAsWritten(bit).Mask? && forall w: nat :: w <= ONES ==> RestRight(w, MaskAsWritten(bit).bits, bit)
  }

  ghost predicate RestRight(w: nat, mask: nat, bit: nat) {
    AndNot(w, mask) == 0 <==> NoBits(w, bit)
  }

  /** It does so up to position 30. */
  lemma TestAsWritten(bit: nat)
    requires bit < BITS
    ensures TestsRight(bit) <==> bit <= 30
  {
    hide AndNot, Pow2, NoBits;
    if bit <= 30 {
      var mask := MaskAsWritten(bit).bits;
      forall w: nat | w <= ONES ensures RestRight(w, mask, bit) { TestRest(w, bit); }
    } else if bit == 31 {
      MaskFits(40);
      var w := Pow2(40);
      MaskBit(40, 31);
      MaskBit(40, 40);
      TestAt31(w);
      BitLeft(w, 31, 40);
      assert !RestRight(w, MaskAsWritten(31).bits, 31);
    }
  }

  lemma BitLeft(w: nat, bit: nat, i: nat)
    requires bit <= i < BITS && Bit(w, i)
    ensures !NoBits(w, bit)
  {
  }

  /** Subtracting a bit that is set clears it. */
  lemma {:induction false} MinusBit(x: nat, k: nat, i: nat)
    requires Bit(x, k)
    ensures x >= Pow2(k)
    ensures Bit(x - Pow2(k), i) <==> Bit(x, i) && i != k
    decreases k
  {
    if k > 0 {
      MinusBit(x / 2, k - 1, if i > 0 then i - 1 else 0);
      assert x - Pow2(k) == 2 * (x / 2 - Pow2(k - 1)) + x % 2;
    } else {
      assert (x - 1) / 2 == x / 2;
    }
  }

  lemma MaskAt31(i: nat)
    requires i < BITS
    ensures Bit(0xFFFF_FFFF_7FFF_FFFF, i) <==> i != 31
  {
    AllOnes();
    assert Pow2(31) == 0x8000_0000 by { Pow2Plus16(15); assert Pow2(7) == 128 && Pow2(11) == 2048; }
    LowMaskBit(BITS, i);
    LowMaskBit(BITS, 31);
    MinusBit(ONES, 31, i);
    assert ONES - Pow2(31) == 0xFFFF_FFFF_7FFF_FFFF;
    hide Bit, Pow2;
  }

  /** At position 31 no other bit is tested. */
  lemma TestAt31(w: nat)
    requires w <= ONES
    ensures AndNot(w, MaskAsWritten(31).bits) == 0 <==> !Bit(w, 31)
  {
    var v := AndNot(w, MaskAsWritten(31).bits);
    AndLess(w, MaskAsWritten(31).bits);
    ZeroWord(v);
    hide AndNot, Bit;
    forall i | 0 <= i < BITS ensures Bit(v, i) <==> Bit(w, i) && i == 31 {
      AndNotBit(w, MaskAsWritten(31).bits, i);
      MaskAt31(i);
    }
    if Bit(w, 31) { assert Bit(v, 31); }
  }

  datatype Outcome = Found(slot: nat) | Exhausted | Undefined

  /** hpack_set_iter_next with the mask as written, from a position on. */
  function NextAsWritten(ws: seq<nat>, at: nat): Outcome
    requires |ws| == ENTRIES
    decreases SLOTS - at, 1
  {
    if at >= SLOTS then Exhausted
    else
      match MaskAsWritten(at % BITS)
      case NoMask => Undefined
      case Mask(m) => if AndNot(ws[at / BITS], m) != 0 then ScanAsWritten(ws, at) else NextAsWritten(ws, EndOf(at))
  }

  /** Its inner loop. */
  function ScanAsWritten(ws: seq<nat>, at: nat): Outcome
    requires |ws| == ENTRIES && at < SLOTS
    decreases SLOTS - at, 0
  {
    if Has(ws, at) then Found(at)
    else if at + 1 == EndOf(at) then NextAsWritten(ws, at + 1)
    else ScanAsWritten(ws, at + 1)
  }

  /** The first position of the next word. */
  function EndOf(at: nat): (e: nat)
    ensures at < e <= at + BITS && e % BITS == 0
  {
    BITS * (at / BITS + 1)
  }

  /** The same by the members of the set. */
  function NextIn(m: set<nat>, at: nat): (o: Outcome)
    ensures o.Found? ==> at <= o.slot < SLOTS && o.slot in m
    decreases SLOTS - at
  {
    var r, end := Next(m, at), EndOf(at);
    if at >= SLOTS then Exhausted
    else if at % BITS >= 32 then Undefined
    else if at % BITS == 31 && at !in m then NextIn(m, end)
    else if 0 <= r < end then Found(r)
    else NextIn(m, end)
  }

  lemma {:induction false} ScanFinds(ws: seq<nat>, at: nat, r: nat)
    requires Words(ws) && at <= r < EndOf(at) && at < SLOTS && r in Members(ws) && NoneIn(Members(ws), at, r)
    ensures ScanAsWritten(ws, at) == Found(r)
    decreases r - at
  {
    if at < r {
      assert at !in Members(ws);
      ScanFinds(ws, at + 1, r);
    }
  }

  lemma WordBits(ws: seq<nat>, at: nat)
    requires Words(ws) && at < SLOTS
    ensures NoBits(ws[at / BITS], at % BITS) <==> NoneIn(Members(ws), at, EndOf(at))
    ensures Bit(ws[at / BITS], at % BITS) <==> at in Members(ws)
  {
    var w, base := ws[at / BITS], BITS * (at / BITS);
    hide Bit;
    forall i | base <= i < base + BITS ensures i in Members(ws) <==> Bit(w, i - base) {
      assert i / BITS == at / BITS && i % BITS == i - base;
    }
    if NoneIn(Members(ws), at, EndOf(at)) {
      forall i | at % BITS <= i < BITS ensures !Bit(w, i) {
        assert base + i !in Members(ws);
        assert i == (base + i) - base;
      }
    }
  }

  lemma {:induction false} AsWrittenIs(ws: seq<nat>, at: nat)
    requires Words(ws)
    ensures NextAsWritten(ws, at) == NextIn(Members(ws), at)
    decreases SLOTS - at
  {
    if at < SLOTS && at % BITS <= 31 {
      var m, w, bit := Members(ws), ws[at / BITS], at % BITS;
      WordBits(ws, at);
      if bit <= 30 { TestRest(w, bit); } else { TestAt31(w); }
      hide AndNot, Pow2, Members, Bit, NoBits;
      var r := Next(m, at);
      if 0 <= r < EndOf(at) && (bit <= 30 || at in m) {
        ScanFinds(ws, at, r);
      } else {
        AsWrittenIs(ws, EndOf(at));
      }
    }
  }

  // --- Whole iterations ---------------------------------------------------------------------

  /** The slots that are returned until the end, and whether no call was undefined. */
  datatype Walk = Walk(slots: seq<nat>, defined: bool)

  function Listed(m: set<nat>, at: nat): Walk
    decreases SLOTS - at
  {
    match NextIn(m, at)
    case Exhausted => Walk([], true)
    case Undefined => Walk([], false)
    case Found(r) =>
      var rest := Listed(m, r + 1);
      Walk([r] + rest.slots, rest.defined)
  }

  function Ascending(m: set<nat>, at: nat): seq<nat>
    decreases SLOTS - at
  {
    if at >= SLOTS then [] else if at in m then [at] + Ascending(m, at + 1) else Ascending(m, at + 1)
  }

  /** Slots behind the position may be removed. */
  lemma {:induction false} ListedAbove(m: set<nat>, n: set<nat>, at: nat)
    requires forall s :: s >= at ==> (s in m <==> s in n)
    ensures NextIn(m, at) == NextIn(n, at) && Listed(m, at) == Listed(n, at)
    decreases SLOTS - at
  {
    NextAbove(m, n, at);
    match NextIn(m, at)
    case Exhausted =>
    case Undefined =>
    case Found(r) => ListedAbove(m, n, r + 1);
  }

  lemma {:induction false} NextAbove(m: set<nat>, n: set<nat>, at: nat)
    requires forall s :: s >= at ==> (s in m <==> s in n)
    ensures Next(m, at) == Next(n, at) && NextIn(m, at) == NextIn(n, at)
    decreases SLOTS - at
  {
    if at < SLOTS {
      NextAbove(m, n, at + 1);
      NextAbove(m, n, EndOf(at));
    }
  }

  /** In each word no member from 31 to 62, and not both 30 and 63. */
  ghost predicate Safe(m: set<nat>) {
    WordSafe(m, 0) && WordSafe(m, BITS)
  }

  ghost predicate WordSafe(m: set<nat>, base: nat) {
    NoneIn(m, base + 31, base + 63) && !(base + 30 in m && base + 63 in m)
  }

  /** The same for what is left from a position on. */
  ghost predicate SafeFrom(m: set<nat>, at: nat)
    decreases SLOTS - at
  {
    at >= SLOTS ||
    (&& (if at % BITS <= 30 then WordSafe(m, BITS * (at / BITS)) else at % BITS == 31 && NoneIn(m, at, EndOf(at)))
     && SafeFrom(m, EndOf(at)))
  }

  /** The word after a slot that was returned is as safe as before it. */
  lemma SafeStep(m: set<nat>, at: nat, r: nat)
    requires at < SLOTS && at % BITS <= 31 && at <= r < EndOf(at) && r in m && NoneIn(m, at, r) && (at % BITS == 31 ==> r == at)
    ensures SafeFrom(m, at) <==> SafeFrom(m, r + 1)
  {
    var base := BITS * (at / BITS);
    assert r / BITS == at / BITS && EndOf(r) == EndOf(at) == base + BITS;
    if r == base + 63 {
    } else {
      assert EndOf(r + 1) == EndOf(at);
    }
    hide EndOf;
  }

  lemma {:induction false} AscendingSkip(m: set<nat>, at: nat, e: nat)
    requires at <= e
    ensures |Ascending(m, at)| >= |Ascending(m, e)|
    ensures NoneIn(m, at, e) ==> Ascending(m, at) == Ascending(m, e)
    ensures !NoneIn(m, at, if e < SLOTS then e else SLOTS) ==> |Ascending(m, at)| > |Ascending(m, e)|
    decreases e - at
  {
    if at < e { AscendingSkip(m, at + 1, e); }
  }

  /** From a position on, the slots are at most those of the members, and all of them exactly in the safe
      case. */
  ghost predicate ListedRight(m: set<nat>, at: nat) {
    var l, a := Listed(m, at), Ascending(m, at);
    && |l.slots| <= |a|
    && (l == Walk(a, true) <==> SafeFrom(m, at))
    && (l.defined && |l.slots| == |a| ==> SafeFrom(m, at))
  }

  lemma FoundStep(m: set<nat>, at: nat, r: nat)
    requires at <= r < SLOTS && NextIn(m, at) == Found(r) && r in m && NoneIn(m, at, r)
    requires ListedRight(m, r + 1) && (SafeFrom(m, at) <==> SafeFrom(m, r + 1))
    ensures ListedRight(m, at)
  {
    AscendingSkip(m, at, r);
    assert Ascending(m, at) == [r] + Ascending(m, r + 1);
    hide Ascending, SafeFrom, NextIn;
  }

  lemma NoneStep(m: set<nat>, at: nat)
    requires at < SLOTS && NextIn(m, at) == NextIn(m, EndOf(at)) && ListedRight(m, EndOf(at))
    requires NoneIn(m, at, EndOf(at)) ==> (SafeFrom(m, at) <==> SafeFrom(m, EndOf(at)))
    requires !NoneIn(m, at, EndOf(at)) ==> !SafeFrom(m, at)
    ensures ListedRight(m, at)
  {
    AscendingSkip(m, at, EndOf(at));
    hide Ascending, SafeFrom, NextIn;
  }

  lemma {:induction false} ListedFrom(m: set<nat>, at: nat)
    ensures ListedRight(m, at)
    decreases SLOTS - at
  {
    if at < SLOTS && at % BITS <= 31 {
      var r, end := Next(m, at), EndOf(at);
      hide ListedRight;
      if 0 <= r < end && (at % BITS <= 30 || at in m) {
        ListedFrom(m, r + 1);
        SafeStep(m, at, r);
        FoundStep(m, at, r);
      } else {
        ListedFrom(m, end);
        NoneStep(m, at);
      }
    }
  }

  /** A whole iteration returns all members, in their order, if and only if the set is safe; otherwise it
      leaves one out or becomes undefined. */
  lemma WholeIteration(m: set<nat>)
    ensures Listed(m, 0) == Walk(Ascending(m, 0), true) <==> Safe(m)
    ensures !Safe(m) ==> !Listed(m, 0).defined || |Listed(m, 0).slots| < |Ascending(m, 0)|
  {
    ListedFrom(m, 0);
    hide Listed, Ascending, WordSafe;
    assert SafeFrom(m, 0) <==> WordSafe(m, 0) && SafeFrom(m, BITS);
    assert SafeFrom(m, BITS) <==> WordSafe(m, BITS) && SafeFrom(m, SLOTS);
  }

  /** Slots 30 and 40: the second is never returned. */
  lemma FortyIsSkipped(ws: seq<nat>)
    requires Words(ws) && Members(ws) == {30, 40}
    ensures NextAsWritten(ws, 0) == Found(30) && NextAsWritten(ws, 31) == Exhausted
    ensures Listed({30, 40}, 0) == Walk([30], true)
  {
    var m: set<nat> := {30, 40};
    AsWrittenIs(ws, 0);
    AsWrittenIs(ws, 31);
    hide NextAsWritten;
    assert EndOf(0) == EndOf(31) == BITS && EndOf(BITS) == SLOTS;
    assert NextFrom(m, 0, Next(m, 0)) && 30 in m;
    assert NextFrom(m, BITS, Next(m, BITS));
    assert NextIn(m, SLOTS) == Exhausted;
    assert NextIn(m, BITS) == NextIn(m, SLOTS);
    assert Listed(m, 31) == Walk([], true);
  }
}
