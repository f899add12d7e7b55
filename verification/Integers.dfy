/** libhpack/integer.c: the variable-length integers of section 5.1 of RFC 7541. */
module Integers {
  import opened Bits
  import opened BitmapSets

  const UINT_MAX := 0xFFFF_FFFF
  const VLQ_MAX_LEN := 6            // VLQ_MAX_LEN_INTEGER

  function Limit(n: nat): Byte
    requires n <= 8
  {
    [0, 1, 3, 7, 15, 31, 63, 127, 255][n]
  }

  lemma LimitIs(n: nat)
    requires n <= 8
    ensures Limit(n) == Pow2(n) - 1
  {
    assert Pow2(1) == 2 && Pow2(2) == 4 && Pow2(3) == 8 && Pow2(4) == 16;
    assert Pow2(5) == 32 && Pow2(6) == 64 && Pow2(7) == 128 && Pow2(8) == 256;
  }

  // --- The first octet -----------------------------------------------------------

  /** The low bits are v, the others are kept. */
  lemma {:induction false} MergeLow(b: nat, v: nat, n: nat)
    requires v < Pow2(n)
    ensures var m := Pow2(n) - 1; var w := Or(AndNot(b, m), v);
      And(w, m) == v && AndNot(w, m) == AndNot(b, m)
  {
    var m := Pow2(n) - 1;
    AndLess(b, m);
    if n == 0 {
      AndZero(Or(AndNot(b, 0), 0));
      AndZero(b);
    } else {
      var w := Or(AndNot(b, m), v);
      OrHalf(AndNot(b, m), v);
      assert m / 2 == Pow2(n - 1) - 1 && m % 2 == 1;
      AndNotHalf(b, m);
      MergeLow(b / 2, v / 2, n - 1);
      AndNotHalf(w, m);
      AndHalf(w, m);
      hide And, AndNot, Or, Pow2;
      Halves(AndNot(w, m), AndNot(b, m));
      Halves(And(w, m), v);
    }
  }

  lemma Halves(x: nat, y: nat)
    requires x / 2 == y / 2 && x % 2 == y % 2
    ensures x == y
  {
  }

  lemma AndNotHalf(a: nat, b: nat)
    ensures AndNot(a, b) / 2 == AndNot(a / 2, b / 2)
    ensures AndNot(a, b) % 2 == if a % 2 == 1 && b % 2 == 0 then 1 else 0
  {
  }

  lemma AndHalf(a: nat, b: nat)
    ensures And(a, b) / 2 == And(a / 2, b / 2)
    ensures And(a, b) % 2 == if a % 2 == 1 && b % 2 == 1 then 1 else 0
  {
  }

  lemma {:induction false} AndZero(a: nat)
    ensures And(a, 0) == 0 && AndNot(a, 0) == a && Or(a, 0) == a
  {
    if a > 0 { AndZero(a / 2); }
  }

  /** The low bits are a remainder. */
  lemma {:induction false} AndMask(a: nat, n: nat)
    ensures And(a, Pow2(n) - 1) == a % Pow2(n)
  {
    AndZero(a);
    if n > 0 {
      var p := Pow2(n - 1);
      AndMask(a / 2, n - 1);
      AndHalf(a, Pow2(n) - 1);
      hide And;
      assert (Pow2(n) - 1) / 2 == p - 1 && (Pow2(n) - 1) % 2 == 1;
      DoubleRemainder(a, p);
    }
  }

  lemma DoubleRemainder(a: nat, p: nat)
    requires p > 0
    ensures a % (2 * p) == 2 * (a / 2 % p) + a % 2
  {
    var q, r := a / 2 / p, a / 2 % p;
    assert a == 2 * p * q + (2 * r + a % 2);
    RemainderIs(2 * p, q, 2 * r + a % 2);
  }

  lemma RemainderIs(p: nat, q: nat, r: nat)
    requires r < p
    ensures (p * q + r) % p == r
  {
    var n := p * q + r;
    var d, m := n / p, n % p;
    assert n == p * d + m;
    SameRemainder(p, q, r, d, m);
  }

  lemma SameRemainder(p: nat, q: int, r: nat, d: int, m: nat)
    requires r < p && m < p && p * q + r == p * d + m
    ensures r == m
  {
    if d > q { AtLeast(p, q, d); }
    if d < q { AtLeast(p, d, q); }
  }

  lemma AtLeast(p: nat, x: int, y: int)
    requires x < y
    ensures p * y >= p * x + p
  {
    var k := y - x - 1;
    assert p * y == p * x + p + p * k;
  }

  /** An octet and the prefix of seven bits. */
  lemma LowSeven(x: Byte)
    ensures Limit(7) == 127 && And(x, 127) == x % 128
  {
    LimitIs(7);
    AndMask(x, 7);
    assert Pow2(7) == 128;
  }

  lemma {:induction false} AndBelow(a: nat, b: nat)
    ensures And(a, b) <= b
  {
    if a > 0 { AndBelow(a / 2, b / 2); }
  }

  // --- Encoding --------------------------------------------------------------------

  /** The octets after a filled prefix: groups of seven bits, the least significant first. */
  function Groups(v: nat): (s: seq<Byte>)
    ensures s != []
  {
    if v < 128 then [v] else [128 + v % 128] + Groups(v / 128)
  }

  /** The octets of a value whose first octet shares its high bits with b. */
  function Encoded(n: nat, value: nat, b: Byte): (s: seq<Byte>)
    requires 1 <= n <= 8
    ensures s != []
  {
    var high := AndNot(b, Limit(n));
    FirstFits(b, value, n);
    if value < Limit(n) then [Or(high, value)]
    else [Or(high, Limit(n))] + Groups(value - Limit(n))
  }

  lemma FirstFits(b: Byte, v: nat, n: nat)
    requires 1 <= n <= 8
    ensures Or(AndNot(b, Limit(n)), Limit(n)) < 256
    ensures v < Limit(n) ==> Or(AndNot(b, Limit(n)), v) < 256
  {
    AndLess(b, Limit(n));
    assert Pow2(8) == 256 by { LimitIs(8); }
    hide Or, AndNot, Pow2;
    OrBound(AndNot(b, Limit(n)), Limit(n), 8);
    if v < Limit(n) { OrBound(AndNot(b, Limit(n)), v, 8); }
  }

  lemma {:induction false} GroupsShort(v: nat, k: nat)
    requires v < Shl(128, 7 * k)
    ensures |Groups(v)| <= k + 1
    decreases k
  {
    if k > 0 && v >= 128 {
      ShlSeven(128, 7 * (k - 1));
      GroupsShort(v / 128, k - 1);
    }
  }

  lemma ShlSeven(x: nat, m: nat)
    ensures Shl(x, m + 7) == 128 * Shl(x, m)
  {
    assert Shl(x, m + 4) == 16 * Shl(x, m) by { assert Shl(x, m + 2) == 4 * Shl(x, m); }
    assert Shl(x, m + 6) == 4 * Shl(x, m + 4);
  }

  lemma EncodedShort(n: nat, value: nat, b: Byte)
    requires 1 <= n <= 8 && value <= UINT_MAX
    ensures |Encoded(n, value, b)| <= 6
  {
    ShlSeven(128, 0);
    ShlSeven(128, 7);
    ShlSeven(128, 14);
    ShlSeven(128, 21);
    assert Shl(128, 28) == 0x8_0000_0000;
    if value >= Limit(n) { GroupsShort(value - Limit(n), 4); }
  }

  /** hpack_integer_encode: the octets written, and nothing else is touched. */
  method Encode(n: nat, value: nat, mem: array<Byte>) returns (memLen: nat)
    requires 1 <= n <= 8 && value <= UINT_MAX
    requires mem.Length >= 1 && |Encoded(n, value, mem[0])| <= mem.Length
    modifies mem
    ensures mem[..] == Encoded(n, value, old(mem[0])) + old(mem[|Encoded(n, value, mem[0])|..])
    ensures memLen == |Encoded(n, value, old(mem[0]))| <= 6
  {
    ghost var b, was := mem[0], mem[..];
    ghost var all := Encoded(n, value, b);
    EncodedShort(n, value, b);
    FirstFits(b, value, n);
    var limit := Limit(n);
    if value < limit {
      mem[0] := Or(AndNot(mem[0], limit), value);
      assert mem[..] == all + was[1..];
      return 1;
    }
    mem[0] := Or(AndNot(mem[0], limit), limit);
    assert Groups(value - limit) == all[1..] && mem[..1] == all[..1];
    memLen := PutGroups(value - limit, mem, all);
    assert mem[..] == mem[..memLen] + mem[memLen..];
    assert mem[memLen..] == was[memLen..];
  }

  /** The loop of hpack_integer_encode: the groups follow the first octet. */
  method PutGroups(value: nat, mem: array<Byte>, ghost all: seq<Byte>) returns (i: nat)
    requires 1 <= |all| <= mem.Length && mem[..1] == all[..1] && Groups(value) == all[1..]
    modifies mem
    ensures i == |all| && mem[..i] == all && mem[i..] == old(mem[i..])
  {
    i := 1;
    var v := value;
    while v >= 128
      invariant 1 <= i < |all| && Groups(v) == all[i..] && mem[..i] == all[..i]
      invariant forall k :: i <= k < mem.Length ==> mem[k] == old(mem[k])
    {
      GroupsStep(v, all, i);
      mem[i] := 128 + v % 128;
      assert mem[..i + 1] == mem[..i] + [mem[i]] && all[..i + 1] == all[..i] + [all[i]];
      i := i + 1;
      v := v / 128;
    }
    GroupsStep(v, all, i);
    mem[i] := v;
    assert mem[..i + 1] == mem[..i] + [mem[i]] && all[..i + 1] == all[..i] + [all[i]];
    i := i + 1;
  }

  lemma GroupsStep(v: nat, all: seq<Byte>, i: nat)
    requires i < |all| && Groups(v) == all[i..]
    ensures v >= 128 ==> all[i] == 128 + v % 128 && i + 1 < |all| && Groups(v / 128) == all[i + 1..]
    ensures v < 128 ==> all[i] == v && i + 1 == |all|
  {
    assert all[i + 1..] == all[i..][1..];
    assert all[i] == all[i..][0];
  }

  // --- Decoding ----------------------------------------------------------------------

  datatype Decoded = Decoded(value: nat, consumed: nat) | Bad

  function Min(a: int, b: int): int {
    if a < b then a else b
  }

  /** The groups from mem[i] on, added to acc; the last one has its high bit clear. */
  function DecodeGroups(mem: seq<Byte>, m: nat, i: nat, acc: nat): Decoded
    requires 1 <= i && m <= |mem|
    decreases m - i
  {
    if i >= m then Bad
    else
      var sum := acc + Shl(mem[i] % 128, 7 * (i - 1));
      if mem[i] >= 128 then DecodeGroups(mem, m, i + 1, sum)
      else if sum > UINT_MAX then Bad else Decoded(sum, i + 1)
  }

  /** The first octet is read even where there is none to consume: buffers end with a zero. */
  function DecodeInt(n: nat, mem: seq<Byte>, memLen: nat): Decoded
    requires 1 <= n <= 8 && mem != [] && memLen <= |mem|
  {
    var first := And(mem[0], Limit(n));
    if first < Limit(n) then Decoded(first, 1) else DecodeGroups(mem, Min(memLen, VLQ_MAX_LEN), 1, first)
  }

  /** hpack_integer_decode: the accumulator never comes near the end of an unsigned long. */
  method Decode(n: nat, mem: seq<Byte>, memLen: nat) returns (r: Decoded)
    requires 1 <= n <= 8 && mem != [] && memLen <= |mem|
    ensures r == DecodeInt(n, mem, memLen)
    ensures r.Decoded? ==> r.value <= UINT_MAX && 1 <= r.consumed <= VLQ_MAX_LEN
    ensures r.Decoded? ==> r.consumed == 1 || r.consumed <= memLen
  {
    var limit := Limit(n);
    AndBelow(mem[0], limit);
    var first := And(mem[0], limit);
    if first < limit { return Decoded(first, 1); }
    r := GetGroups(mem, Min(memLen, VLQ_MAX_LEN), first);
  }

  /** The accumulator of the decoder after the octets below i. */
  function Accumulated(mem: seq<Byte>, first: nat, i: nat): nat
    requires 1 <= i <= |mem| || i == 1
  {
    if i == 1 then first else Accumulated(mem, first, i - 1) + Shl(mem[i - 1] % 128, 7 * (i - 2))
  }

  /** It never comes near the end of an unsigned long, whatever the octets are. */
  lemma {:induction false} AccumulatorFits(mem: seq<Byte>, first: Byte, i: nat)
    requires 1 <= i <= VLQ_MAX_LEN && (i <= |mem| || i == 1)
    ensures Accumulated(mem, first, i) < 256 + Shl(1, 7 * (i - 1)) && Accumulated(mem, first, i) < 0x10_0000_0000
  {
    if i > 1 {
      AccumulatorFits(mem, first, i - 1);
      Accumulate(Accumulated(mem, first, i - 1), mem[i - 1] % 128, 7 * (i - 2));
    }
  }

  /** The loop of hpack_integer_decode. */
  method GetGroups(mem: seq<Byte>, stop: nat, first: Byte) returns (r: Decoded)
    requires stop <= |mem| && stop <= VLQ_MAX_LEN
    ensures r == DecodeGroups(mem, stop, 1, first)
    ensures r.Decoded? ==> r.value <= UINT_MAX && 2 <= r.consumed <= stop && r.value == Accumulated(mem, first, r.consumed)
  {
    hide Shl, DecodeGroups;
    var m: nat, decoded: nat, i := 0, first, 1;
    while i < stop
      invariant 1 <= i <= VLQ_MAX_LEN && m == 7 * (i - 1)
      invariant (i <= |mem| || i == 1) && decoded == Accumulated(mem, first, i)
      invariant decoded < 0x10_0000_0000 && (i < stop ==> decoded < 256 + Shl(1, m))
      invariant DecodeGroups(mem, stop, 1, first) == DecodeGroups(mem, stop, i, decoded)
      decreases stop - i
    {
      DecodeStep(mem, stop, i, decoded);
      Accumulate(decoded, mem[i] % 128, m);
      decoded := decoded + Shl(mem[i] % 128, m);
      if mem[i] < 128 {
        if decoded > UINT_MAX { return Bad; }
        return Decoded(decoded, i + 1);
      }
      m := m + 7;
      i := i + 1;
    }
    DecodeStep(mem, stop, i, decoded);
    r := Bad;
  }

  lemma DecodeStep(mem: seq<Byte>, m: nat, i: nat, acc: nat)
    requires 1 <= i && m <= |mem|
    ensures i >= m ==> DecodeGroups(mem, m, i, acc) == Bad
    ensures i < m ==> var sum := acc + Shl(mem[i] % 128, 7 * (i - 1));
      DecodeGroups(mem, m, i, acc) == if mem[i] >= 128 then DecodeGroups(mem, m, i + 1, sum)
                                      else if sum > UINT_MAX then Bad else Decoded(sum, i + 1)
  {
  }

  lemma Accumulate(acc: nat, x: nat, m: nat)
    requires acc < 256 + Shl(1, m) && x < 128 && m in {0, 7, 14, 21, 28}
    ensures acc + Shl(x, m) < 256 + Shl(1, m + 7) && acc + Shl(x, m) < 0x10_0000_0000
  {
    ShlScale(x, m);
    ShlUpTo(m);
    ShlSeven(1, m);
    hide Shl;
  }

  lemma {:induction false} ShlScale(x: nat, m: nat)
    requires x < 128
    ensures Shl(x, m) + Shl(1, m) <= 128 * Shl(1, m)
  {
    if m > 0 { ShlScale(x, m - 1); }
  }

  lemma ShlUpTo(m: nat)
    requires m in {0, 7, 14, 21, 28}
    ensures 128 * Shl(1, m) <= 0x8_0000_0000
  {
    ShlSeven(1, 0);
    ShlSeven(1, 7);
    ShlSeven(1, 14);
    ShlSeven(1, 21);
  }

  lemma {:induction false} ShlSplit(v: nat, m: nat)
    ensures Shl(v, m) == Shl(v % 128, m) + Shl(v / 128, m + 7)
    decreases m
  {
    ShlSeven(v / 128, m);
    if m == 0 {
    } else {
      ShlSplit(v, m - 1);
      ShlSeven(v / 128, m - 1);
    }
  }

  lemma {:induction false} DecodeOfGroups(mem: seq<Byte>, m: nat, i: nat, acc: nat, v: nat)
    requires 1 <= i && i + |Groups(v)| <= m <= |mem| && Groups(v) <= mem[i..]
    requires acc + Shl(v, 7 * (i - 1)) <= UINT_MAX
    ensures DecodeGroups(mem, m, i, acc) == Decoded(acc + Shl(v, 7 * (i - 1)), i + |Groups(v)|)
    decreases v
  {
    var g := Groups(v);
    assert g[0] == mem[i];
    if v >= 128 {
      ShlSplit(v, 7 * (i - 1));
      assert g[1..] == Groups(v / 128) && mem[i + 1..] == mem[i..][1..];
      assert g[1..] <= mem[i + 1..];
      DecodeOfGroups(mem, m, i + 1, acc + Shl(v % 128, 7 * (i - 1)), v / 128);
    }
  }

  /** Decoding an encoded value, whatever follows and whatever the other bits of the first octet are. */
  lemma RoundTrip(n: nat, value: nat, b: Byte, rest: seq<Byte>, memLen: nat)
    requires 1 <= n <= 8 && value <= UINT_MAX
    requires |Encoded(n, value, b)| <= memLen <= |Encoded(n, value, b) + rest|
    ensures DecodeInt(n, Encoded(n, value, b) + rest, memLen) == Decoded(value, |Encoded(n, value, b)|)
    ensures AndNot(Encoded(n, value, b)[0], Limit(n)) == AndNot(b, Limit(n))
  {
    LimitIs(n);
    EncodedShort(n, value, b);
    hide Or, And, AndNot, Pow2, Groups;
    var limit, mem := Limit(n), Encoded(n, value, b) + rest;
    MergeLow(b, Min(value, limit), n);
    if value >= limit {
      var g := Groups(value - limit);
      assert mem[1..][..|g|] == g;
      assert Shl(value - limit, 0) == value - limit;
      DecodeOfGroups(mem, Min(memLen, VLQ_MAX_LEN), 1, limit, value - limit);
    }
  }

  // --- The least number of octets ----------------------------------------------------------------

  /** Whatever groups are read, the number behind the prefix needs no more of them, and as many only if they
      are its own. */
  lemma {:induction false} GroupsLeast(mem: seq<Byte>, m: nat, i: nat, acc: nat) returns (x: nat)
    requires 1 <= i && m <= |mem| && DecodeGroups(mem, m, i, acc).Decoded?
    ensures var d := DecodeGroups(mem, m, i, acc);
      && d.value == acc + Shl(x, 7 * (i - 1)) && i + |Groups(x)| <= d.consumed <= m
      && (i + |Groups(x)| == d.consumed ==> mem[i..d.consumed] == Groups(x))
    decreases m - i
  {
    hide Groups, Shl;
    if mem[i] < 128 {
      x := mem[i];
      GroupsMore(x, 0);
      assert mem[i..i + 1] == [mem[i]];
    } else {
      var low := mem[i] % 128;
      var y := GroupsLeast(mem, m, i + 1, acc + Shl(low, 7 * (i - 1)));
      x := low + 128 * y;
      ShlSplit(x, 7 * (i - 1));
      GroupsMore(low, y);
      OneMore(mem, i, DecodeGroups(mem, m, i, acc).consumed);
    }
  }

  lemma GroupsMore(low: nat, y: nat)
    requires low < 128
    ensures var x := low + 128 * y; Groups(x) == if y == 0 then [low] else [128 + low] + Groups(y)
  {
  }

  lemma OneMore<T>(s: seq<T>, i: nat, n: nat)
    requires i < n <= |s|
    ensures s[i..n] == [s[i]] + s[i + 1..n]
  {
  }

  lemma {:induction false} OrParts(x: nat, m: nat)
    ensures Or(AndNot(x, m), And(x, m)) == x
  {
    if x > 0 {
      OrParts(x / 2, m / 2);
      OrHalf(AndNot(x, m), And(x, m));
      AndNotHalf(x, m);
      AndHalf(x, m);
      hide And, AndNot, Or;
      Halves(Or(AndNot(x, m), And(x, m)), x);
    }
  }

  /** No octets that decode to a value are fewer than those written for it, and none are as few with the same
      high bits but those. */
  lemma EncodedShortest(n: nat, value: nat, b: Byte, e: seq<Byte>)
    requires 1 <= n <= 8 && e != [] && DecodeInt(n, e, |e|) == Decoded(value, |e|)
    ensures |Encoded(n, value, b)| <= |e|
    ensures |Encoded(n, value, b)| == |e| && AndNot(e[0], Limit(n)) == AndNot(b, Limit(n)) ==> e == Encoded(n, value, b)
  {
    hide And, Or, AndNot, Groups, DecodeGroups, Limit;
    AndBelow(e[0], Limit(n));
    OrParts(e[0], Limit(n));
    if And(e[0], Limit(n)) == Limit(n) {
      var x := GroupsLeast(e, Min(|e|, VLQ_MAX_LEN), 1, Limit(n));
      assert Shl(x, 0) == x;
      OneMore(e, 0, |e|);
      assert e[0..|e|] == e;
    } else {
      assert e == [e[0]];
    }
  }

  // --- The narrowed length -------------------------------------------------------------

  /** mem_len is an unsigned char. */
  ghost predicate SameWhenNarrowed(n: nat, len: nat)
    requires 1 <= n <= 8
  {
    forall mem: seq<Byte> :: mem != [] && len <= |mem| ==> DecodeInt(n, mem, len % 256) == DecodeInt(n, mem, len)
  }

  /** Narrowing the length is harmless exactly when it leaves the length or six octets. */
  lemma NarrowingHarmless(n: nat, len: nat)
    requires 1 <= n <= 8
    ensures SameWhenNarrowed(n, len) <==> len < 256 || len % 256 >= VLQ_MAX_LEN
  {
    hide DecodeGroups, And, Limit;
    if len >= 256 && len % 256 < VLQ_MAX_LEN {
      var mem := Endless(len, len % 256);
      NarrowingHurts(n, len, len % 256, mem);
      assert DecodeInt(n, mem, len % 256) != DecodeInt(n, mem, len);
    } else if len >= 256 {
      assert Min(len % 256, VLQ_MAX_LEN) == Min(len, VLQ_MAX_LEN);
    }
  }

  /** An integer that goes on beyond its first m octets. */
  function Endless(len: nat, m: nat): (s: seq<Byte>)
    ensures |s| == len
  {
    seq(len, i => if i == 0 then 255 else if i < m then 128 else 0)
  }

  lemma NarrowingHurts(n: nat, len: nat, m: nat, mem: seq<Byte>)
    requires 1 <= n <= 8 && len >= 256 && m < VLQ_MAX_LEN && mem == Endless(len, m)
    ensures DecodeInt(n, mem, m) == Bad != DecodeInt(n, mem, len)
  {
    LimitIs(n);
    LimitIs(8);
    AndOnes(8, n);
    hide DecodeGroups, Pow2, And;
    NarrowFails(mem, if m == 0 then 1 else m, m, 1, Limit(n));
  }

  lemma {:induction false} AndOnes(k: nat, n: nat)
    requires n <= k
    ensures And(Pow2(k) - 1, Pow2(n) - 1) == Pow2(n) - 1
  {
    if n > 0 {
      AndOnes(k - 1, n - 1);
      assert (Pow2(k) - 1) / 2 == Pow2(k - 1) - 1 && (Pow2(n) - 1) / 2 == Pow2(n - 1) - 1;
    } else {
      AndZero(Pow2(k) - 1);
    }
  }

  lemma {:induction false} NarrowFails(mem: seq<Byte>, k: nat, m: nat, i: nat, acc: nat)
    requires 1 <= i <= k <= 5 && m <= k && 6 <= |mem|
    requires forall j :: i <= j < k ==> mem[j] == 128
    requires mem[k] == 0 && acc <= UINT_MAX
    ensures DecodeGroups(mem, m, i, acc).Bad? && DecodeGroups(mem, 6, i, acc).Decoded?
    decreases k - i
  {
    ShlZero(7 * (i - 1));
    if i < k { NarrowFails(mem, k, m, i + 1, acc); }
  }

  lemma {:induction false} ShlZero(m: nat)
    ensures Shl(0, m) == 0
  {
    if m > 0 { ShlZero(m - 1); }
  }
}
