/** libchula/avl.c and the comparison of libchula/buffer.c that it hands to the tree: the order of keys of
    octets, and what becomes of it when the tree narrows the result. */
module AvlKeys {
  import opened Bits
  import opened AvlSpec
  import opened AvlLaws

  /** A difference of two lengths, as an int32_t. */
  function Int32(n: int): int {
    (n + 0x8000_0000) % 0x1_0000_0000 - 0x8000_0000
  }

  /** memcmp of keys of one length: the difference of the first octets that differ. */
  function CompareOctets(a: seq<Byte>, b: seq<Byte>): (r: int)
    requires |a| == |b|
    ensures -255 <= r <= 255
  {
    if a == [] then 0 else if a[0] != b[0] then a[0] - b[0] else CompareOctets(a[1..], b[1..])
  }

  /** chula_buffer_cmp_buf: the shorter key is the smaller one. */
  function CompareKeys(a: seq<Byte>, b: seq<Byte>): int {
    if |a| != |b| then Int32(|a| - |b|) else CompareOctets(a, b)
  }

  /** k octets are common to the keys, and the next ones differ. */
  predicate DifferAt(a: seq<Byte>, b: seq<Byte>, k: nat) {
    k < |a| && k < |b| && a[..k] == b[..k] && a[k] != b[k]
  }

  /** The order that is meant: the shorter key is before the longer one, and of keys of one length the one
      with the smaller octet where they first differ. */
  ghost predicate Before(a: seq<Byte>, b: seq<Byte>) {
    |a| < |b| || (|a| == |b| && exists k: nat :: DifferAt(a, b, k) && a[k] < b[k])
  }

  /** The comparison is that of the first octets that differ. */
  lemma {:induction false} FirstDifference(a: seq<Byte>, b: seq<Byte>, k: nat)
    requires |a| == |b| && DifferAt(a, b, k)
    ensures CompareOctets(a, b) == (a[k] as int) - b[k]
  {
    if k > 0 {
      assert a[0] == a[..k][0] == b[..k][0] == b[0];
      assert a[1..][..k - 1] == a[..k][1..] && b[1..][..k - 1] == b[..k][1..];
      FirstDifference(a[1..], b[1..], k - 1);
    }
  }

  lemma {:induction false} SomeDifference(a: seq<Byte>, b: seq<Byte>) returns (k: nat)
    requires |a| == |b| && a != b
    ensures DifferAt(a, b, k)
  {
    if a[0] != b[0] {
      k := 0;
    } else {
      assert a == [a[0]] + a[1..] && b == [b[0]] + b[1..];
      var j := SomeDifference(a[1..], b[1..]);
      k := j + 1;
      assert a[..k] == [a[0]] + a[1..][..j] && b[..k] == [b[0]] + b[1..][..j];
    }
  }

  lemma EqualOctets(a: seq<Byte>, k: nat)
    ensures CompareOctets(a, a) == 0 && !DifferAt(a, a, k)
  {
    if a != [] { EqualOctets(a[1..], 0); }
  }

  /** The comparison of octets decides the order that is meant. */
  lemma OctetsDecide(a: seq<Byte>, b: seq<Byte>)
    requires |a| == |b|
    ensures CompareOctets(a, b) < 0 <==> Before(a, b)
    ensures CompareOctets(a, b) > 0 <==> Before(b, a)
    ensures CompareOctets(a, b) == 0 <==> a == b
  {
    hide CompareOctets;
    if a == b {
      EqualOctets(a, 0);
    } else {
      var k := SomeDifference(a, b);
      FirstDifference(a, b, k);
      assert DifferAt(b, a, k);
      forall j: nat | DifferAt(a, b, j) ensures CompareOctets(a, b) == (a[j] as int) - b[j] { FirstDifference(a, b, j); }
      forall j: nat | DifferAt(b, a, j) ensures CompareOctets(b, a) == (b[j] as int) - a[j] { FirstDifference(b, a, j); }
      FirstDifference(b, a, k);
    }
  }

  /** The order that is meant as a sign. */
  ghost function KeyOrder(a: seq<Byte>, b: seq<Byte>): int {
    if Before(a, b) then -1 else if Before(b, a) then 1 else 0
  }

  lemma KeySign(a: seq<Byte>, b: seq<Byte>)
    ensures KeyOrder(a, b) == if |a| != |b| then Sign(|a| - |b|) else Sign(CompareOctets(a, b))
  {
    hide CompareOctets;
    if |a| == |b| { OctetsDecide(a, b); }
  }

  /** A shorter key passes for smaller up to a difference of 32768, a longer one for larger only below it;
      and so on modulo 65536. */
  predicate LengthsKept(a: seq<Byte>, b: seq<Byte>) {
    if |a| > |b| then 0 < (|a| - |b|) % 0x1_0000 < 0x8000
    else if |a| < |b| then 0 < (|b| - |a|) % 0x1_0000 <= 0x8000
    else true
  }

  /** The tree orders two keys as it is meant if and only if their lengths allow it. */
  lemma KeysAgree(a: seq<Byte>, b: seq<Byte>)
    ensures Sign(Short(CompareKeys(a, b))) == KeyOrder(a, b) <==> LengthsKept(a, b)
  {
    hide CompareOctets, Int32, Short, KeyOrder;
    KeySign(a, b);
    NarrowTwice(|a| - |b|);
    DifferenceKept(|a| - |b|);
    if |a| == |b| { ShortFits(CompareOctets(a, b)); }
  }

  lemma NarrowTwice(d: int)
    ensures Short(Int32(d)) == Short(d)
  {
    var q := (d + 0x8000_0000) / 0x1_0000_0000;
    assert Int32(d) == d - 0x1_0000 * (0x1_0000 * q);
    hide Int32;
    SameLow(d + 0x8000, 0x1_0000 * q);
  }

  lemma SameLow(x: int, k: int)
    ensures (x - 0x1_0000 * k) % 0x1_0000 == x % 0x1_0000
  {
  }

  lemma DifferenceKept(d: int)
    ensures d > 0 ==> (Short(d) > 0 <==> 0 < d % 0x1_0000 < 0x8000)
    ensures d < 0 ==> (Short(d) < 0 <==> 0 < -d % 0x1_0000 <= 0x8000)
  {
  }

  /** Keys of 1 and of 65537 octets pass for equal, so that one cannot be added beside the other. */
  lemma EqualByLength(a: seq<Byte>, b: seq<Byte>)
    requires |a| == 1 && |b| == 0x1_0001
    ensures a != b && Short(CompareKeys(a, b)) == 0 && Short(CompareKeys(b, a)) == 0
  {
  }

  lemma {:induction false} OctetsFlip(a: seq<Byte>, b: seq<Byte>)
    requires |a| == |b|
    ensures CompareOctets(a, b) == -CompareOctets(b, a)
    ensures CompareOctets(a, b) == 0 <==> a == b
  {
    if a != [] {
      OctetsFlip(a[1..], b[1..]);
      assert a == [a[0]] + a[1..] && b == [b[0]] + b[1..];
    }
  }

  lemma {:induction false} OctetsTransitive(a: seq<Byte>, b: seq<Byte>, c: seq<Byte>)
    requires |a| == |b| == |c| && CompareOctets(a, b) <= 0 && CompareOctets(b, c) <= 0
    ensures CompareOctets(a, c) <= 0
  {
    if a != [] && a[0] == b[0] == c[0] { OctetsTransitive(a[1..], b[1..], c[1..]); }
  }

  predicate Near(a: seq<Byte>, b: seq<Byte>) {
    -0x8000 < |a| - |b| < 0x8000
  }

  /** Among keys whose lengths differ by less than 32768 the order of the tree is a total order: only a key
      itself is equal to it. */
  lemma ShortKeysOrdered(a: seq<Byte>, b: seq<Byte>, c: seq<Byte>)
    requires Near(a, b) && Near(b, c) && Near(a, c)
    ensures Short(CompareKeys(a, b)) == 0 <==> a == b
    ensures Short(CompareKeys(a, b)) < 0 <==> Short(CompareKeys(b, a)) > 0
    ensures Short(CompareKeys(a, b)) <= 0 && Short(CompareKeys(b, c)) <= 0 ==> Short(CompareKeys(a, c)) <= 0
  {
    hide CompareKeys, Short, CompareOctets, KeyOrder;
    KeysAgree(a, b);
    KeysAgree(b, a);
    KeysAgree(b, c);
    KeysAgree(a, c);
    KeySign(a, b);
    KeySign(b, a);
    KeySign(b, c);
    KeySign(a, c);
    if |a| == |b| { OctetsFlip(a, b); }
    if |a| == |b| == |c| && CompareOctets(a, b) <= 0 && CompareOctets(b, c) <= 0 { OctetsTransitive(a, b, c); }
  }
}
