/** Bottom-up merge sort on sequences: what the passes of chula_list_sort in libchula/list.c mean. */
module MergeSort {

  type Key(!new)

  type Comparison = (Key, Key) -> int

  ghost predicate TotalPreorder(cmp: Comparison) {
    && (forall x, y :: cmp(x, y) <= 0 || cmp(y, x) <= 0)
    && (forall x, y, z :: cmp(x, y) <= 0 && cmp(y, z) <= 0 ==> cmp(x, z) <= 0)
  }

  /** An element with its key and its place in the list to be sorted. */
  datatype Item<T> = Item(it: T, key: Key, place: nat)

  // --- Merging ---------------------------------------------------------------------

  /** Of two equal heads the one of the first run is taken. */
  ghost function Merge<T>(cmp: Comparison, a: seq<Item<T>>, b: seq<Item<T>>): (m: seq<Item<T>>)
    ensures |m| == |a| + |b|
  {
    if a == [] then b
    else if b == [] then a
    else if cmp(a[0].key, b[0].key) <= 0 then [a[0]] + Merge(cmp, a[1..], b)
    else [b[0]] + Merge(cmp, a, b[1..])
  }

  function Min(a: nat, b: nat): nat {
    if a < b then a else b
  }

  /** One pass: neighbouring runs of k elements are merged. */
  ghost function Pass<T>(cmp: Comparison, s: seq<Item<T>>, k: nat): (r: seq<Item<T>>)
    requires k >= 1
    ensures |r| == |s|
  {
    if s == [] then []
    else
      var m := Min(k, |s|);
      var t := s[m..];
      var n := Min(k, |t|);
      Merge(cmp, s[..m], t[..n]) + Pass(cmp, t[n..], k)
  }

  lemma PassFrom<T>(cmp: Comparison, s: seq<Item<T>>, k: nat, lo: nat, mid: nat, hi: nat)
    requires k >= 1 && lo < |s| && mid == lo + Min(k, |s| - lo) && hi == mid + Min(k, |s| - mid)
    ensures lo < mid <= hi <= |s|
    ensures Pass(cmp, s[lo..], k) == Merge(cmp, s[lo..mid], s[mid..hi]) + Pass(cmp, s[hi..], k)
  {
    var t := s[lo..];
    var m := Min(k, |t|);
    var u := t[m..];
    var n := Min(k, |u|);
    PassIs(cmp, t, k);
    assert m == mid - lo && n == hi - mid;
    hide Pass, Merge, Min;
    SuffixSlices(s, lo, mid, hi);
  }

  lemma SuffixSlices<T>(s: seq<T>, lo: nat, mid: nat, hi: nat)
    requires lo <= mid <= hi <= |s|
    ensures s[lo..][..mid - lo] == s[lo..mid] && s[lo..][mid - lo..] == s[mid..]
    ensures s[mid..][..hi - mid] == s[mid..hi] && s[mid..][hi - mid..] == s[hi..]
  {
  }

  // --- Sorted and stable --------------------------------------------------------------

  /** x belongs before y: it is not greater, and of equal elements it was first. */
  ghost predicate Before<T>(cmp: Comparison, x: Item<T>, y: Item<T>) {
    cmp(x.key, y.key) <= 0 && (cmp(y.key, x.key) <= 0 ==> x.place < y.place)
  }

  ghost predicate Sorted<T>(cmp: Comparison, s: seq<Item<T>>) {
    forall i, j :: 0 <= i < j < |s| ==> Before(cmp, s[i], s[j])
  }

  ghost predicate Earlier<T>(a: seq<Item<T>>, b: seq<Item<T>>) {
    forall x, y :: x in a && y in b ==> x.place < y.place
  }

  lemma {:induction false} MergeMembers<T>(cmp: Comparison, a: seq<Item<T>>, b: seq<Item<T>>)
    ensures multiset(Merge(cmp, a, b)) == multiset(a) + multiset(b)
  {
    if a == [] {
    } else if b == [] {
    } else if cmp(a[0].key, b[0].key) <= 0 {
      MergeMembers(cmp, a[1..], b);
      Cons(a);
      Members(a[0], Merge(cmp, a[1..], b));
    } else {
      MergeMembers(cmp, a, b[1..]);
      Cons(b);
      Members(b[0], Merge(cmp, a, b[1..]));
    }
  }

  lemma Members<T>(x: T, s: seq<T>)
    ensures multiset([x] + s) == multiset{x} + multiset(s)
  {
  }

  lemma Cons<T>(s: seq<T>)
    requires s != []
    ensures multiset(s) == multiset{s[0]} + multiset(s[1..])
  {
    assert s == [s[0]] + s[1..];
  }

  lemma InMerge<T>(cmp: Comparison, a: seq<Item<T>>, b: seq<Item<T>>, z: Item<T>)
    ensures z in Merge(cmp, a, b) <==> z in a || z in b
  {
    MergeMembers(cmp, a, b);
    assert z in Merge(cmp, a, b) <==> z in multiset(Merge(cmp, a, b));
  }

  lemma SortedCons<T>(cmp: Comparison, x: Item<T>, s: seq<Item<T>>)
    requires Sorted(cmp, s) && forall z :: z in s ==> Before(cmp, x, z)
    ensures Sorted(cmp, [x] + s)
  {
  }

  lemma SortedRest<T>(cmp: Comparison, s: seq<Item<T>>)
    requires Sorted(cmp, s) && s != []
    ensures Sorted(cmp, s[1..]) && forall z :: z in s[1..] ==> Before(cmp, s[0], z)
  {
  }

  lemma BeforeTransitive<T>(cmp: Comparison, x: Item<T>, y: Item<T>, z: Item<T>)
    requires TotalPreorder(cmp) && Before(cmp, x, y) && Before(cmp, y, z)
    ensures Before(cmp, x, z)
  {
  }

  /** Merging two sorted runs, the first of them from further ahead, keeps equal elements in order. */
  lemma {:induction false} MergeSorts<T>(cmp: Comparison, a: seq<Item<T>>, b: seq<Item<T>>)
    requires TotalPreorder(cmp) && Sorted(cmp, a) && Sorted(cmp, b) && Earlier(a, b)
    ensures Sorted(cmp, Merge(cmp, a, b))
  {
    if a != [] && b != [] {
      SortedRest(cmp, a);
      SortedRest(cmp, b);
      var first := cmp(a[0].key, b[0].key) <= 0;
      var x, c, d := if first then a[0] else b[0], if first then a[1..] else a, if first then b else b[1..];
      assert Before(cmp, a[0], b[0]) || Before(cmp, b[0], a[0]) by { assert a[0] in a && b[0] in b; }
      MergeSorts(cmp, c, d);
      forall z | z in Merge(cmp, c, d) ensures Before(cmp, x, z) {
        InMerge(cmp, c, d, z);
        HeadFirst(cmp, a, b, z);
      }
      SortedCons(cmp, x, Merge(cmp, c, d));
    }
  }

  lemma HeadFirst<T>(cmp: Comparison, a: seq<Item<T>>, b: seq<Item<T>>, z: Item<T>)
    requires TotalPreorder(cmp) && Sorted(cmp, a) && Sorted(cmp, b) && Earlier(a, b) && a != [] && b != []
    ensures cmp(a[0].key, b[0].key) <= 0 && (z in a[1..] || z in b) ==> Before(cmp, a[0], z)
    ensures cmp(a[0].key, b[0].key) > 0 && (z in a || z in b[1..]) ==> Before(cmp, b[0], z)
  {
    SortedRest(cmp, a);
    SortedRest(cmp, b);
    assert a[0] in a && b[0] in b;
    var first := cmp(a[0].key, b[0].key) <= 0;
    assert z in a ==> z == a[0] || z in a[1..];
    assert z in b ==> z == b[0] || z in b[1..];
    if first && z in b[1..] { BeforeTransitive(cmp, a[0], b[0], z); }
    if !first && z in a[1..] { BeforeTransitive(cmp, b[0], a[0], z); }
  }

  // --- Passes -------------------------------------------------------------------------

  /** s consists of sorted runs of k elements, each a permutation of the same places of the original. */
  ghost predicate Runs<T>(cmp: Comparison, s: seq<Item<T>>, orig: seq<Item<T>>, k: nat)
    requires k >= 1
  {
    |s| == |orig| && (s != [] ==>
      var m := Min(k, |s|);
      Sorted(cmp, s[..m]) && multiset(s[..m]) == multiset(orig[..m]) && Runs(cmp, s[m..], orig[m..], k))
  }

  ghost predicate Places<T>(orig: seq<Item<T>>) {
    forall i, j :: 0 <= i < j < |orig| ==> orig[i].place < orig[j].place
  }

  lemma {:induction false} SingleRuns<T>(cmp: Comparison, s: seq<Item<T>>)
    ensures Runs(cmp, s, s, 1)
  {
    if s != [] { SingleRuns(cmp, s[1..]); }
  }

  /** Two runs become one. */
  lemma MergeRuns<T>(cmp: Comparison, a: seq<Item<T>>, b: seq<Item<T>>, c: seq<Item<T>>, d: seq<Item<T>>)
    requires TotalPreorder(cmp) && Sorted(cmp, a) && Sorted(cmp, b) && Earlier(c, d)
    requires multiset(a) == multiset(c) && multiset(b) == multiset(d)
    ensures Sorted(cmp, Merge(cmp, a, b)) && multiset(Merge(cmp, a, b)) == multiset(c + d)
  {
    forall x, y | x in a && y in b ensures x.place < y.place {
      assert x in multiset(a) && y in multiset(b);
      assert x in c && y in d;
    }
    MergeSorts(cmp, a, b);
    MergeMembers(cmp, a, b);
  }

  /** A pass turns runs of k elements into runs of 2 k elements. */
  lemma {:induction false} PassDoubles<T>(cmp: Comparison, s: seq<Item<T>>, orig: seq<Item<T>>, k: nat)
    requires k >= 1 && TotalPreorder(cmp) && Places(orig) && Runs(cmp, s, orig, k)
    ensures Runs(cmp, Pass(cmp, s, k), orig, 2 * k)
  {
    hide Pass, Merge, Sorted, Earlier, TotalPreorder;
    if s == [] {
      PassEmpty(cmp, s, k);
    } else {
      var m := Min(k, |s|);
      var t, u := s[m..], orig[m..];
      var n := Min(k, |t|);
      FirstRun(cmp, s, orig, k);
      FirstRun(cmp, t, u, k);
      PlacesSplit(orig, m, n);
      PassIs(cmp, s, k);
      assert m + n == Min(2 * k, |s|);
      hide Runs, Places, Min;
      PassDoubles(cmp, t[n..], u[n..], k);
      MergeRuns(cmp, s[..m], t[..n], orig[..m], u[..n]);
      RunsJoin(cmp, Merge(cmp, s[..m], t[..n]), Pass(cmp, t[n..], k), orig, m + n, 2 * k);
    }
  }

  lemma PassEmpty<T>(cmp: Comparison, s: seq<Item<T>>, k: nat)
    requires k >= 1 && s == []
    ensures Pass(cmp, s, k) == []
  {
  }

  lemma PassIs<T>(cmp: Comparison, s: seq<Item<T>>, k: nat)
    requires k >= 1 && s != []
    ensures var m := Min(k, |s|); var t := s[m..]; var n := Min(k, |t|);
      Pass(cmp, s, k) == Merge(cmp, s[..m], t[..n]) + Pass(cmp, t[n..], k)
  {
    hide Merge;
  }

  lemma RunsJoin<T>(cmp: Comparison, a: seq<Item<T>>, r: seq<Item<T>>, orig: seq<Item<T>>, h: nat, k: nat)
    requires k >= 1 && |a| == h == Min(k, |orig|) && |a| + |r| == |orig| && orig != []
    requires Sorted(cmp, a) && multiset(a) == multiset(orig[..h]) && Runs(cmp, r, orig[h..], k)
    ensures Runs(cmp, a + r, orig, k)
  {
    assert (a + r)[..h] == a && (a + r)[h..] == r;
  }

  lemma FirstRun<T>(cmp: Comparison, s: seq<Item<T>>, orig: seq<Item<T>>, k: nat)
    requires k >= 1 && Runs(cmp, s, orig, k)
    ensures |s| == |orig|
    ensures var m := Min(k, |s|);
      Sorted(cmp, s[..m]) && multiset(s[..m]) == multiset(orig[..m]) && Runs(cmp, s[m..], orig[m..], k)
  {
    if s == [] {
      assert orig == [];
      assert s[0..] == s && orig[0..] == orig && s[..0] == [] && orig[..0] == [];
    }
  }

  lemma PlacesSplit<T>(orig: seq<Item<T>>, m: nat, n: nat)
    requires Places(orig) && m + n <= |orig|
    ensures Earlier(orig[..m], orig[m..][..n]) && Places(orig[m..][n..])
    ensures orig[..m] + orig[m..][..n] == orig[..m + n] && orig[m..][n..] == orig[m + n..]
  {
  }

  /** One run as long as the list is the list sorted, with equal elements in their old order. */
  lemma OneRun<T>(cmp: Comparison, s: seq<Item<T>>, orig: seq<Item<T>>, k: nat)
    requires k >= 1 && Runs(cmp, s, orig, k) && k >= |s|
    ensures Sorted(cmp, s) && multiset(s) == multiset(orig)
  {
    if s != [] {
      assert s[..|s|] == s && orig[..|s|] == orig;
    } else {
      assert orig == [];
    }
  }
}
