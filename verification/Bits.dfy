/** Natural numbers as words of bits: the shifts, masks and ORs of the C code, bit by bit. */
module Bits {

  type Byte = x: int | 0 <= x < 256

  function Pow2(n: nat): (p: nat)
    ensures p >= 1
  {
    if n == 0 then 1 else 2 * Pow2(n - 1)
  }

  function Shr(v: nat, k: nat): nat
    decreases k
  {
    if k == 0 then v else Shr(v / 2, k - 1)
  }

  function Shl(v: nat, k: nat): nat {
    if k == 0 then v else 2 * Shl(v, k - 1)
  }

  /** C's bitwise OR on unsigned words. */
  function Or(a: nat, b: nat): nat {
    if a == 0 then b else if b == 0 then a
    else 2 * Or(a / 2, b / 2) + (if a % 2 == 1 || b % 2 == 1 then 1 else 0)
  }

  /** The value of the low n bits. */
  function Low(v: nat, n: nat): (r: nat)
    ensures r < Pow2(n)
    decreases n
  {
    if n == 0 then 0 else 2 * Low(v / 2, n - 1) + v % 2
  }

  lemma {:induction false} Split(v: nat, n: nat)
    ensures v == Shl(Shr(v, n), n) + Low(v, n)
    decreases n
  {
    if n > 0 {
      Split(v / 2, n - 1);
    }
  }

  lemma Shl8(x: nat)
    ensures Shl(x, 8) == 256 * x && Pow2(8) == 256
  {
    assert Shl(x, 1) == 2 * x;
    assert Shl(x, 2) == 4 * x && Shl(x, 3) == 8 * x && Shl(x, 4) == 16 * x && Shl(x, 5) == 32 * x;
    assert Shl(x, 6) == 64 * x && Shl(x, 7) == 128 * x;
  }

  /** Storing a word into a byte keeps its low eight bits. */
  lemma LowByte(v: nat)
    ensures Low(v, 8) == v % 256
  {
    Shl8(Shr(v, 8));
    hide Shl, Shr, Low;
    Split(v, 8);
  }

  /** The low n bits of v, most significant first. */
  function ToBits(v: nat, n: nat): (s: seq<bool>)
    ensures |s| == n
    decreases n
  {
    if n == 0 then [] else ToBits(v / 2, n - 1) + [v % 2 == 1]
  }

  function FromBits(s: seq<bool>): (v: nat)
    ensures v < Pow2(|s|)
  {
    if s == [] then 0 else 2 * FromBits(s[..|s| - 1]) + (if s[|s| - 1] then 1 else 0)
  }

  function Zeros(n: nat): (s: seq<bool>)
    ensures |s| == n && forall i :: 0 <= i < n ==> !s[i]
  {
    seq(n, _ => false)
  }

  lemma {:induction false} ToFrom(s: seq<bool>)
    ensures ToBits(FromBits(s), |s|) == s
  {
    if s != [] {
      ToFrom(s[..|s| - 1]);
      assert s == s[..|s| - 1] + [s[|s| - 1]];
    }
  }

  lemma {:induction false} FromTo(v: nat, n: nat)
    ensures FromBits(ToBits(v, n)) == Low(v, n)
    decreases n
  {
    if n > 0 { FromTo(v / 2, n - 1); }
  }

  lemma {:induction false} LowFits(v: nat, n: nat)
    requires v < Pow2(n)
    ensures Low(v, n) == v
    decreases n
  {
    if n > 0 { LowFits(v / 2, n - 1); }
  }

  /** A byte is its eight bits. */
  lemma ByteBits(b: Byte)
    ensures FromBits(ToBits(b, 8)) == b
  {
    hide ToBits, FromBits, Low;
    FromTo(b, 8);
    LowByte(b);
  }

  /** v >> k drops the last k bits. */
  lemma {:induction false} ShiftRightBits(v: nat, n: nat, k: nat)
    requires k <= n
    ensures ToBits(Shr(v, k), n - k) == ToBits(v, n)[..n - k]
    decreases k
  {
    if k > 0 {
      ShiftRightBits(v / 2, n - 1, k - 1);
      assert ToBits(v, n)[..n - k] == ToBits(v / 2, n - 1)[..n - k];
    } else {
      assert ToBits(v, n)[..n] == ToBits(v, n);
    }
  }

  /** v << k appends k zeros. */
  lemma {:induction false} ShiftLeftBits(v: nat, n: nat, k: nat)
    ensures ToBits(Shl(v, k), n + k) == ToBits(v, n) + Zeros(k)
    decreases k
  {
    if k > 0 {
      var w := Shl(v, k - 1);
      assert (2 * w) / 2 == w && (2 * w) % 2 == 0;
      ShiftLeftBits(v, n, k - 1);
      assert Zeros(k) == Zeros(k - 1) + [false];
    }
  }

  /** The last bits of a word do not depend on how many are looked at. */
  lemma {:induction false} LastBits(v: nat, n: nat, k: nat)
    requires k <= n
    ensures ToBits(v, n)[n - k..] == ToBits(v, k)
    decreases k
  {
    if k > 0 {
      LastBits(v / 2, n - 1, k - 1);
      assert ToBits(v, n)[n - k..] == ToBits(v / 2, n - 1)[n - k..] + [v % 2 == 1];
    }
  }

  lemma {:induction false} TruncateBits(v: nat, n: nat, k: nat)
    requires k <= n
    ensures ToBits(Low(v, n), k) == ToBits(v, k)
    decreases k
  {
    if k > 0 {
      var w := Low(v, n);
      assert w / 2 == Low(v / 2, n - 1) && w % 2 == v % 2;
      TruncateBits(v / 2, n - 1, k - 1);
    }
  }

  lemma {:induction false} OrBits(a: nat, b: nat, n: nat)
    ensures forall i :: 0 <= i < n ==> ToBits(Or(a, b), n)[i] == (ToBits(a, n)[i] || ToBits(b, n)[i])
    decreases n
  {
    if n > 0 {
      OrBits(a / 2, b / 2, n - 1);
      OrHalf(a, b);
    }
  }

  lemma OrHalf(a: nat, b: nat)
    ensures Or(a, b) / 2 == Or(a / 2, b / 2)
    ensures Or(a, b) % 2 == 1 <==> a % 2 == 1 || b % 2 == 1
  {
  }

  lemma {:induction false} OrBound(a: nat, b: nat, n: nat)
    requires a < Pow2(n) && b < Pow2(n)
    ensures Or(a, b) < Pow2(n)
    decreases n
  {
    if n > 0 && a != 0 && b != 0 { OrBound(a / 2, b / 2, n - 1); }
  }

  /** OR-ing a word into trailing zeros replaces them. */
  lemma OrAppend(a: nat, b: nat, n: nat, hi: seq<bool>, lo: seq<bool>)
    requires |hi| + |lo| == n
    requires ToBits(a, n) == hi + Zeros(|lo|) && ToBits(b, n) == Zeros(|hi|) + lo
    ensures ToBits(Or(a, b), n) == hi + lo
  {
    OrBits(a, b, n);
  }

  lemma {:induction false} ZeroBits(n: nat)
    ensures ToBits(0, n) == Zeros(n)
  {
    if n > 0 {
      ZeroBits(n - 1);
      assert Zeros(n) == Zeros(n - 1) + [false];
    }
  }

  /** A word that fits n bits has zeros above them. */
  lemma {:induction false} ZeroExtend(v: nat, n: nat, m: nat)
    requires v < Pow2(n) && n <= m
    ensures ToBits(v, m) == Zeros(m - n) + ToBits(v, n)
    decreases m
  {
    if n == 0 {
      ZeroBits(m);
      assert Zeros(m) + [] == Zeros(m);
    } else {
      ZeroExtend(v / 2, n - 1, m - 1);
      assert Zeros(m - n) + ToBits(v / 2, n - 1) + [v % 2 == 1] == Zeros(m - n) + (ToBits(v / 2, n - 1) + [v % 2 == 1]);
    }
  }

  lemma {:induction false} ShrBound(v: nat, n: nat, k: nat)
    requires v < Pow2(n) && k <= n
    ensures Shr(v, k) < Pow2(n - k)
    decreases k
  {
    if k > 0 { ShrBound(v / 2, n - 1, k - 1); }
  }

  lemma {:induction false} ShlBound(v: nat, n: nat, k: nat)
    requires v < Pow2(n)
    ensures Shl(v, k) < Pow2(n + k)
  {
    if k > 0 { ShlBound(v, n, k - 1); }
  }

  /** A word in two parts. */
  lemma {:induction false} JoinBits(x: nat, m: nat, y: nat, n: nat)
    requires y < Pow2(n)
    ensures ToBits(Shl(x, n) + y, m + n) == ToBits(x, m) + ToBits(y, n)
    decreases n
  {
    if n == 0 {
      assert ToBits(y, 0) == [];
    } else {
      var v := Shl(x, n) + y;
      assert v / 2 == Shl(x, n - 1) + y / 2 && v % 2 == y % 2;
      JoinBits(x, m, y / 2, n - 1);
    }
  }

  lemma Pow2Plus16(m: nat)
    ensures Pow2(0) == 1 && Pow2(m + 16) == 0x1_0000 * Pow2(m)
  {
    assert Pow2(m + 4) == 16 * Pow2(m) by { assert Pow2(m + 2) == 4 * Pow2(m); }
    assert Pow2(m + 8) == 16 * Pow2(m + 4) by { assert Pow2(m + 6) == 4 * Pow2(m + 4); }
    assert Pow2(m + 12) == 16 * Pow2(m + 8) by { assert Pow2(m + 10) == 4 * Pow2(m + 8); }
    assert Pow2(m + 16) == 16 * Pow2(m + 12) by { assert Pow2(m + 14) == 4 * Pow2(m + 12); }
  }

  lemma {:induction false} ShlIs(x: nat, n: nat)
    ensures Shl(x, n) == x * Pow2(n)
  {
    if n > 0 {
      ShlIs(x, n - 1);
      assert x * Pow2(n) == 2 * (x * Pow2(n - 1));
    }
  }

  // --- Bytes -------------------------------------------------------------------------

  function BytesBits(s: seq<Byte>): (b: seq<bool>)
    ensures |b| == 8 * |s|
  {
    if s == [] then [] else BytesBits(s[..|s| - 1]) + ToBits(s[|s| - 1], 8)
  }

  lemma {:induction false} BytesBitsConcat(a: seq<Byte>, b: seq<Byte>)
    ensures BytesBits(a + b) == BytesBits(a) + BytesBits(b)
  {
    hide ToBits;
    if b == [] {
      assert a + b == a && BytesBits(a) + [] == BytesBits(a);
    } else {
      var n := |b| - 1;
      assert (a + b)[..|a + b| - 1] == a + b[..n];
      BytesBitsConcat(a, b[..n]);
      assert BytesBits(a) + BytesBits(b[..n]) + ToBits(b[n], 8) == BytesBits(a) + (BytesBits(b[..n]) + ToBits(b[n], 8));
    }
  }

  lemma BytesBitsOne(b: Byte)
    ensures BytesBits([b]) == ToBits(b, 8)
  {
    assert [b][..0] == [];
    assert BytesBits([]) == [];
    assert [] + ToBits(b, 8) == ToBits(b, 8);
  }

  /** A byte is its high and its low half. */
  lemma Nibbles(b: Byte)
    ensures ToBits(b, 8) == ToBits(b / 16, 4) + ToBits(b % 16, 4)
  {
    assert Shr(b, 4) == b / 16 by { Shr4(b); }
    assert ToBits(b / 16, 4) == ToBits(b, 8)[..4] by { ShiftRightBits(b, 8, 4); }
    assert ToBits(b % 16, 4) == ToBits(b, 8)[4..] by {
      LastBits(b, 8, 4);
      Low4(b);
      TruncateBits(b, 4, 4);
    }
  }

  lemma Shr4(v: nat)
    ensures Shr(v, 4) == v / 16
  {
    assert Shr(v / 8, 1) == v / 16;
    assert Shr(v / 4, 2) == Shr(v / 8, 1);
  }

  lemma Low4(v: nat)
    ensures Low(v, 4) == v % 16
  {
    assert Low(v / 8, 1) == (v / 8) % 2;
    assert Low(v / 4, 2) == 2 * ((v / 8) % 2) + (v / 4) % 2;
    assert Low(v / 2, 3) == 4 * ((v / 8) % 2) + 2 * ((v / 4) % 2) + (v / 2) % 2;
  }

  lemma {:induction false} BytesBitsInjective(a: seq<Byte>, b: seq<Byte>)
    requires BytesBits(a) <= BytesBits(b)
    ensures a <= b
    decreases |b|
  {
    hide BytesBits, FromBits;
    if |b| > 0 {
      var n := |b| - 1;
      LastOctet(b);
      if |a| == |b| {
        assert BytesBits(a) == BytesBits(b);
        LastOctet(a);
        BytesBitsInjective(a[..n], b[..n]);
        assert a == a[..n] + [a[n]] && b == b[..n] + [b[n]];
      } else {
        PrefixOfTake(BytesBits(a), BytesBits(b), 8 * n);
        BytesBitsInjective(a, b[..n]);
      }
    }
  }

  lemma PrefixOfTake(x: seq<bool>, y: seq<bool>, k: nat)
    requires x <= y && |x| <= k <= |y|
    ensures x <= y[..k]
  {
  }

  lemma LastOctet(a: seq<Byte>)
    requires a != []
    ensures var n := |a| - 1;
      && BytesBits(a[..n]) == BytesBits(a)[..8 * n]
      && FromBits(BytesBits(a)[8 * n..]) == a[n]
  {
    var n := |a| - 1;
    hide ToBits, FromBits;
    assert BytesBits(a)[8 * n..] == ToBits(a[n], 8);
    ByteBits(a[n]);
  }
}
