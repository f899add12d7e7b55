/** libchula/list.c: sorting a circular, doubly linked list in place by merging ever longer runs. */
module Lists {
  import Sequences
  import opened MergeSort

  /** chula_list_t with the key of the entry that contains it. */
  class Node {
    const key: Key
    var next: Node?
    var prev: Node?

    constructor (key: Key)
      ensures this.key == key
    {
      this.key, next, prev := key, null, null;
    }
  }

  type Items = seq<Item<Node>>

  ghost predicate Distinct(s: Items) {
    forall i, j :: 0 <= i < j < |s| ==> s[i].it != s[j].it
  }

  ghost predicate Among(s: Items, all: set<Node>) {
    forall k :: 0 <= k < |s| ==> s[k].it in all && s[k].key == s[k].it.key
  }

  /** A ring: next and prev are inverse to each other all around. */
  ghost predicate Ring(s: Items, all: set<Node>)
    reads all
  {
    && s != [] && Distinct(s) && Among(s, all)
    && s[|s| - 1].it.next == s[0].it && s[0].it.prev == s[|s| - 1].it
    && forall k :: 0 <= k < |s| - 1 ==> s[k].it.next == s[k + 1].it && s[k + 1].it.prev == s[k].it
  }

  // --- One pass --------------------------------------------------------------------------

  /** The nodes from lo below hi still have the successors with which the pass began. */
  ghost predicate Chain(s: Items, lo: nat, hi: nat, all: set<Node>)
    requires hi <= |s| && Among(s, all)
    reads all`next
  {
    && (forall j :: lo <= j < hi && j < |s| - 1 ==> s[j].it.next == s[j + 1].it)
    && (lo < hi && hi == |s| ==> s[hi - 1].it.next == s[0].it)
  }

  /** The nodes taken so far are linked in both directions, as far as they go. */
  ghost predicate Taken(out: Items, all: set<Node>)
    requires Among(out, all)
    reads all`next, all`prev
  {
    && (out != [] ==> out[0].it.prev == null)
    && forall k :: 0 <= k < |out| - 1 ==> out[k].it.next == out[k + 1].it && out[k + 1].it.prev == out[k].it
  }

  ghost predicate Ends(out: Items, list: Node?, tail: Node?) {
    && list == (if out == [] then null else out[0].it)
    && tail == (if out == [] then null else out[|out| - 1].it)
  }

  ghost predicate Unused(s: Items, lo: nat, hi: nat, out: Items)
    requires hi <= |s|
  {
    forall j, k :: lo <= j < hi && 0 <= k < |out| ==> s[j].it != out[k].it
  }

  ghost function NodeAt(s: Items, i: nat): Node? {
    if i < |s| then s[i].it else null
  }

  /** In a pass over s the nodes below p (and from mid below q) have been taken. */
  ghost predicate Merging(s: Items, all: set<Node>, p: nat, mid: nat, q: nat, out: Items, list: Node?, tail: Node?)
    reads all
  {
    && p <= mid <= q <= |s| && Distinct(s) && Among(s, all) && Chain(s, p, mid, all) && Chain(s, q, |s|, all)
    && Among(out, all) && Distinct(out) && Taken(out, all) && Ends(out, list, tail)
    && Unused(s, p, mid, out) && Unused(s, q, |s|, out)
  }

  /** e goes to the end of what has been taken. */
  method Take(e: Node, list0: Node?, tail0: Node?, ghost x: Item<Node>, ghost out: Items, ghost all: set<Node>)
    returns (list: Node?, tail: Node?)
    requires Among(out, all) && Taken(out, all) && Ends(out, list0, tail0)
    requires x.it == e && x.key == e.key && e in all
    requires Distinct(out) && forall k :: 0 <= k < |out| ==> out[k].it != e
    modifies all`next, all`prev
    ensures Among(out + [x], all) && Taken(out + [x], all) && Ends(out + [x], list, tail) && Distinct(out + [x])
    ensures forall n :: n in all && n != tail0 ==> n.next == old(n.next)
  {
    list := list0;
    if tail0 != null {
      tail0.next := e;
    } else {
      list := e;
    }
    e.prev := tail0;
    tail := e;
    ghost var more := out + [x];
    forall k | 0 <= k < |out| ensures more[k].it.next == more[k + 1].it && more[k + 1].it.prev == more[k].it {
      if k < |out| - 1 {
        assert out[k].it != tail0 && out[k + 1].it != e;
        assert old(out[k].it.next) == out[k + 1].it && old(out[k + 1].it.prev) == out[k].it;
      }
    }
  }

  /** The next node of one of the two runs is taken. */
  method TakeNext(e: Node, first: bool, list0: Node?, tail0: Node?, ghost s: Items, ghost p: nat, ghost mid: nat, ghost q: nat,
                  ghost out: Items, ghost all: set<Node>) returns (list: Node?, tail: Node?)
    requires Merging(s, all, p, mid, q, out, list0, tail0)
    requires if first then p < mid && s[p].it == e else q < |s| && s[q].it == e
    modifies all`next, all`prev
    ensures if first then Merging(s, all, p + 1, mid, q, out + [s[p]], list, tail)
            else Merging(s, all, p, mid, q + 1, out + [s[q]], list, tail)
  {
    hide Taken;
    ghost var i := if first then p else q;
    list, tail := Take(e, list0, tail0, s[i], out, all);
    assert forall j :: p <= j < mid || q <= j < |s| ==> s[j].it in all && s[j].it != tail0;
  }

  /** Where the merging of s[..mid] and s[mid..hi] stands: p and q are the next nodes of the two runs. */
  ghost predicate MergeAt(cmp: Comparison, s: Items, all: set<Node>, result: Items, pi: nat, mid: nat, qi: nat, hi: nat, out: Items,
                          p: Node?, psize: nat, q: Node?, qsize: nat, list: Node?, tail: Node?)
    reads all
  {
    && Leads(cmp, s, pi, mid, qi, hi, out, result) && Merging(s, all, pi, mid, qi, out, list, tail)
    && psize == mid - pi && hi - qi <= qsize && (hi - qi < qsize ==> hi == |s|)
    && (psize > 0 ==> p == s[pi].it) && q == NodeAt(s, qi)
  }

  /** One round of merging. */
  method MergeOne(p0: Node?, psize0: nat, q0: Node?, qsize0: nat, oldhead: Node, list0: Node?, tail0: Node?, cmp: Comparison,
                  ghost s: Items, ghost pi: nat, ghost mid: nat, ghost qi: nat, ghost hi: nat, ghost out0: Items,
                  ghost result: Items, ghost all: set<Node>)
    returns (p: Node?, psize: nat, q: Node?, qsize: nat, list: Node?, tail: Node?, ghost pj: nat, ghost qj: nat, ghost out: Items)
    requires MergeAt(cmp, s, all, result, pi, mid, qi, hi, out0, p0, psize0, q0, qsize0, list0, tail0)
    requires (psize0 > 0 || (qsize0 > 0 && q0 != null)) && s != [] && oldhead == s[0].it
    modifies all`next, all`prev
    ensures MergeAt(cmp, s, all, result, pj, mid, qj, hi, out, p, psize, q, qsize, list, tail)
    ensures psize + qsize < psize0 + qsize0
  {
    LeadsOn(cmp, s, pi, mid, qi, hi, out0, result);
    MergingIs(s, all, pi, mid, qi, out0, list0, tail0);
    hide Merging, Leads;
    p, psize, q, qsize, pj, qj := p0, psize0, q0, qsize0, pi, qi;
    if psize == 0 || (qsize > 0 && q != null && cmp(p.key, q.key) > 0) {
      q, list, tail := TakeOne(q, false, oldhead, list0, tail0, s, pi, mid, qi, out0, all);
      qsize := qsize - 1;
      out, qj := out0 + [s[qi]], qi + 1;
    } else {
      p, list, tail := TakeOne(p, true, oldhead, list0, tail0, s, pi, mid, qi, out0, all);
      psize := psize - 1;
      out, pj := out0 + [s[pi]], pi + 1;
    }
  }

  /** The two runs s[lo..mid] and s[mid..hi] are merged behind what has been taken. */
  method MergeTwo(p0: Node, psize0: nat, q0: Node?, insize: nat, oldhead: Node, list0: Node?, tail0: Node?, cmp: Comparison,
                  ghost s: Items, ghost lo: nat, ghost mid: nat, ghost hi: nat, ghost out0: Items, ghost result: Items,
                  ghost all: set<Node>)
    returns (q: Node?, list: Node?, tail: Node?)
    requires MergeAt(cmp, s, all, result, lo, mid, mid, hi, out0, p0, psize0, q0, insize, list0, tail0)
    requires s != [] && oldhead == s[0].it
    modifies all`next, all`prev
    ensures Merging(s, all, hi, |s|, |s|, result, list, tail) && q == NodeAt(s, hi)
  {
    ghost var pi: nat, qi: nat, out := lo, mid, out0;
    var p: Node?, psize, qsize := p0, psize0, insize;
    q, list, tail := q0, list0, tail0;
    hide MergeAt;
    while psize > 0 || (qsize > 0 && q != null)
      invariant MergeAt(cmp, s, all, result, pi, mid, qi, hi, out, p, psize, q, qsize, list, tail)
      decreases psize + qsize
    {
      p, psize, q, qsize, list, tail, pi, qi, out :=
        MergeOne(p, psize, q, qsize, oldhead, list, tail, cmp, s, pi, mid, qi, hi, out, result, all);
    }
    MergeEnd(cmp, s, all, result, pi, mid, qi, hi, out, p, psize, q, qsize, list, tail);
  }

  lemma MergeEnd(cmp: Comparison, s: Items, all: set<Node>, result: Items, pi: nat, mid: nat, qi: nat, hi: nat, out: Items,
                 p: Node?, psize: nat, q: Node?, qsize: nat, list: Node?, tail: Node?)
    requires MergeAt(cmp, s, all, result, pi, mid, qi, hi, out, p, psize, q, qsize, list, tail)
    requires psize == 0 && (qsize == 0 || q == null)
    ensures Merging(s, all, hi, |s|, |s|, result, list, tail) && q == NodeAt(s, hi)
  {
    LeadsOn(cmp, s, pi, mid, qi, hi, out, result);
    MergingIs(s, all, pi, mid, qi, out, list, tail);
    JoinRuns(s, all, mid, hi, out, list, tail);
    hide Merging, Leads;
  }

  /** The node e of one of the two runs is taken; next is its old successor, or null at the end. */
  method TakeOne(e: Node, first: bool, oldhead: Node, list0: Node?, tail0: Node?,
                 ghost s: Items, ghost p: nat, ghost mid: nat, ghost q: nat, ghost out: Items, ghost all: set<Node>)
    returns (next: Node?, list: Node?, tail: Node?)
    requires Merging(s, all, p, mid, q, out, list0, tail0) && s != [] && oldhead == s[0].it
    requires if first then p < mid && s[p].it == e else q < |s| && s[q].it == e
    modifies all`next, all`prev
    ensures next == NodeAt(s, if first then p + 1 else q + 1)
    ensures if first then Merging(s, all, p + 1, mid, q, out + [s[p]], list, tail)
            else Merging(s, all, p, mid, q + 1, out + [s[q]], list, tail)
  {
    hide Taken, Unused, Ends;
    next := e.next;
    if next == oldhead { next := null; }
    list, tail := TakeNext(e, first, list0, tail0, s, p, mid, q, out, all);
  }

  lemma MergingIs(s: Items, all: set<Node>, p: nat, mid: nat, q: nat, out: Items, list: Node?, tail: Node?)
    requires Merging(s, all, p, mid, q, out, list, tail)
    ensures p <= mid <= q <= |s|
    ensures (p < mid ==> s[p].key == s[p].it.key) && (q < |s| ==> s[q].key == s[q].it.key)
  {
  }

  lemma JoinRuns(s: Items, all: set<Node>, mid: nat, hi: nat, out: Items, list: Node?, tail: Node?)
    requires Merging(s, all, mid, mid, hi, out, list, tail)
    ensures Merging(s, all, hi, |s|, |s|, out, list, tail)
  {
  }

  /** What has been taken and what is left of the two runs make up the result. */
  ghost predicate Leads(cmp: Comparison, s: Items, p: nat, mid: nat, q: nat, hi: nat, out: Items, result: Items) {
    p <= mid <= q <= hi <= |s| && out + Merge(cmp, s[p..mid], s[q..hi]) == result
  }

  lemma LeadsOn(cmp: Comparison, s: Items, pi: nat, mid: nat, qi: nat, hi: nat, out: Items, result: Items)
    requires Leads(cmp, s, pi, mid, qi, hi, out, result)
    ensures pi <= mid <= qi <= hi <= |s|
    ensures if pi == mid && qi == hi then out == result
      else if pi == mid || (qi < hi && cmp(s[pi].key, s[qi].key) > 0) then
        Leads(cmp, s, pi, mid, qi + 1, hi, out + [s[qi]], result)
      else Leads(cmp, s, pi + 1, mid, qi, hi, out + [s[pi]], result)
  {
    var a, b := s[pi..mid], s[qi..hi];
    if pi < mid { assert a[0] == s[pi] && a[1..] == s[pi + 1..mid]; }
    if qi < hi { assert b[0] == s[qi] && b[1..] == s[qi + 1..hi]; }
    if pi == mid && qi < hi { assert b == [b[0]] + b[1..]; }
    if pi < mid && qi == hi { assert a == [a[0]] + a[1..] && Merge(cmp, a[1..], b) == a[1..]; }
  }

  /** The rest of the pass. */
  ghost predicate PassLeads(cmp: Comparison, s: Items, k: nat, lo: nat, out: Items) {
    k >= 1 && lo <= |s| && Pass(cmp, s, k) == out + Pass(cmp, s[lo..], k)
  }

  lemma PassOn(cmp: Comparison, s: Items, k: nat, lo: nat, out: Items) returns (mid: nat, hi: nat, result: Items)
    requires PassLeads(cmp, s, k, lo, out) && lo < |s|
    ensures lo < mid <= hi <= |s| && mid == lo + Min(k, |s| - lo) && hi == mid + Min(k, |s| - mid)
    ensures Leads(cmp, s, lo, mid, mid, hi, out, result) && PassLeads(cmp, s, k, hi, result)
  {
    mid := lo + Min(k, |s| - lo);
    hi := mid + Min(k, |s| - mid);
    PassFrom(cmp, s, k, lo, mid, hi);
    var m := Merge(cmp, s[lo..mid], s[mid..hi]);
    result := out + m;
    hide Pass, Merge, Min;
    Sequences.Associate(out, m, Pass(cmp, s[hi..], k));
  }

  /** The run that begins at p: up to insize elements. */
  method CountRun(p: Node, insize: nat, oldhead: Node, ghost s: Items, ghost lo: nat, ghost all: set<Node>)
    returns (psize: nat, q: Node?)
    requires insize >= 1 && lo < |s| && p == s[lo].it && oldhead == s[0].it
    requires Distinct(s) && Among(s, all) && Chain(s, lo, |s|, all)
    ensures psize == Min(insize, |s| - lo) && q == NodeAt(s, lo + psize)
  {
    psize := 0;
    q := p;
    for i := 0 to insize
      invariant psize == i < |s| - lo && q == s[lo + i].it
    {
      psize := psize + 1;
      assert lo + i + 1 < |s| ==> s[0].it != s[lo + i + 1].it;
      q := if q.next == oldhead then null else q.next;
      if q == null { break; }
    }
  }

  /** How many merges have led to position lo. */
  ghost predicate Counted(nmerges: nat, insize: nat, lo: nat, n: nat) {
    && (nmerges == 0 ==> lo == 0) && (nmerges == 1 ==> lo == Min(2 * insize, n))
    && (nmerges >= 2 ==> n > 2 * insize)
  }

  lemma CountOn(nmerges: nat, insize: nat, lo: nat, n: nat)
    requires Counted(nmerges, insize, lo, n) && lo <= n && insize >= 1
    ensures lo < n ==> var mid := lo + Min(insize, n - lo); Counted(nmerges + 1, insize, mid + Min(insize, n - mid), n)
    ensures lo == n && n > 0 ==> (nmerges <= 1 <==> n <= 2 * insize)
  {
  }

  /** The runs at p and behind it are merged; p goes behind them. */
  method RunAndMerge(p0: Node, insize: nat, oldhead: Node, list0: Node?, tail0: Node?, cmp: Comparison,
                     ghost s: Items, ghost lo: nat, ghost mid: nat, ghost hi: nat, ghost out0: Items, ghost result: Items,
                     ghost all: set<Node>)
    returns (p: Node?, psize: nat, list: Node?, tail: Node?)
    requires insize >= 1 && lo < mid <= hi <= |s| && mid == lo + Min(insize, |s| - lo) && hi == mid + Min(insize, |s| - mid)
    requires p0 == s[lo].it && oldhead == s[0].it
    requires Leads(cmp, s, lo, mid, mid, hi, out0, result) && Merging(s, all, lo, |s|, |s|, out0, list0, tail0)
    modifies all`next, all`prev
    ensures Merging(s, all, hi, |s|, |s|, result, list, tail) && p == NodeAt(s, hi)
  {
    StartOfRun(s, all, lo, mid, out0, list0, tail0);
    hide Merging, Leads, Chain, Distinct, Among;
    var q;
    psize, q := CountRun(p0, insize, oldhead, s, lo, all);
    p, list, tail := MergeTwo(p0, psize, q, insize, oldhead, list0, tail0, cmp, s, lo, mid, hi, out0, result, all);
  }

  /** One pass over the ring s: its runs of insize elements are merged in pairs. */
  method OnePass(list0: Node, insize: nat, cmp: Comparison, ghost s: Items, ghost all: set<Node>)
    returns (list: Node, nmerges: nat, ghost out: Items)
    requires Ring(s, all) && list0 == s[0].it && insize >= 1
    modifies all`next, all`prev
    ensures out == Pass(cmp, s, insize) && Ring(out, all) && list == out[0].it
    ensures nmerges <= 1 <==> |s| <= 2 * insize
  {
    var p: Node?, oldhead := list0, list0;
    var l: Node?, tail: Node? := null, null;
    nmerges := 0;
    out := [];
    ghost var lo := 0;
    PassStart(cmp, s, insize, all);
    hide Taken, Unused, Ends, Merge, Merging, Leads, Chain, Distinct, Among, PassLeads, Pass, Ring, Min;
    while p != null
      invariant 0 <= lo <= |s| && p == NodeAt(s, lo) && Counted(nmerges, insize, lo, |s|)
      invariant Merging(s, all, lo, |s|, |s|, out, l, tail) && PassLeads(cmp, s, insize, lo, out)
      decreases |s| - lo
    {
      CountOn(nmerges, insize, lo, |s|);
      nmerges := nmerges + 1;
      ghost var mid, hi, result := PassOn(cmp, s, insize, lo, out);
      var psize;
      p, psize, l, tail := RunAndMerge(p, insize, oldhead, l, tail, cmp, s, lo, mid, hi, out, result, all);
      lo, out := hi, result;
    }
    CountOn(nmerges, insize, lo, |s|);
    PassEnd(cmp, s, insize, out, all, l, tail);
    list := l;
    Close(list, tail, out, all);
  }

  method Close(list: Node, tail: Node, ghost out: Items, ghost all: set<Node>)
    requires out != [] && Among(out, all) && Distinct(out) && Taken(out, all) && Ends(out, list, tail)
    modifies all`next, all`prev
    ensures Ring(out, all)
  {
    assert out[0].it in all && out[|out| - 1].it in all;
    tail.next := list;
    list.prev := tail;
    forall k | 0 <= k < |out| - 1 ensures out[k].it.next == out[k + 1].it && out[k + 1].it.prev == out[k].it {
      assert out[k].it != tail && out[k + 1].it != list;
    }
  }

  lemma PassStart(cmp: Comparison, s: Items, k: nat, all: set<Node>)
    requires Ring(s, all) && k >= 1
    ensures s != [] && PassLeads(cmp, s, k, 0, []) && Merging(s, all, 0, |s|, |s|, [], null, null)
  {
    assert s[0..] == s && [] + Pass(cmp, s, k) == Pass(cmp, s, k);
  }

  lemma StartOfRun(s: Items, all: set<Node>, lo: nat, mid: nat, out: Items, list: Node?, tail: Node?)
    requires lo < mid <= |s| && Merging(s, all, lo, |s|, |s|, out, list, tail)
    ensures Distinct(s) && Among(s, all) && Chain(s, lo, |s|, all) && Merging(s, all, lo, mid, mid, out, list, tail)
  {
  }

  lemma PassEnd(cmp: Comparison, s: Items, k: nat, out: Items, all: set<Node>, list: Node?, tail: Node?)
    requires s != [] && PassLeads(cmp, s, k, |s|, out) && Merging(s, all, |s|, |s|, |s|, out, list, tail)
    ensures out == Pass(cmp, s, k) && out != [] && Taken(out, all) && Ends(out, list, tail) && Distinct(out) && Among(out, all)
    ensures list != null && tail != null
  {
    assert s[|s|..] == [] && out + [] == out;
    assert out[0].it in all && out[|out| - 1].it in all;
  }

  // --- The whole sort ------------------------------------------------------------------------

  /** The nodes of a list in their order. */
  function Of(nodes: seq<Node>): (s: Items)
    ensures |s| == |nodes|
  {
    seq(|nodes|, i requires 0 <= i < |nodes| => Item(nodes[i], nodes[i].key, i))
  }

  lemma OfPlaces(nodes: seq<Node>)
    ensures Places(Of(nodes))
  {
  }

  /** A list is the ring of its head and its nodes. */
  ghost predicate List(head: Node, s: Items, all: set<Node>)
    reads all
  {
    Ring([Item(head, head.key, 0)] + s, all)
  }

  /** The passes over a ring: runs of doubling length, until one pass makes a single run. */
  method SortRing(list0: Node, cmp: Comparison, ghost orig: Items, ghost all: set<Node>) returns (list: Node, ghost s: Items)
    requires Ring(orig, all) && list0 == orig[0].it && TotalPreorder(cmp) && Places(orig)
    modifies all`next, all`prev
    ensures Ring(s, all) && list == s[0].it && Sorted(cmp, s) && multiset(s) == multiset(orig)
  {
    assert orig != [];
    hide Ring, Runs, TotalPreorder, Places, Sorted, Pass;
    list, s := list0, orig;
    var insize := 1;
    SingleRuns(cmp, s);
    while true
      invariant insize >= 1 && |s| == |orig| && Ring(s, all) && s != [] && list == s[0].it && Runs(cmp, s, orig, insize)
      decreases |orig| - insize
    {
      PassDoubles(cmp, s, orig, insize);
      var nmerges;
      list, nmerges, s := OnePass(list, insize, cmp, s, all);
      if nmerges <= 1 { break; }
      insize := insize * 2;
    }
    OneRun(cmp, s, orig, 2 * insize);
  }

  /** chula_list_sort: the head is taken out of the list, the ring of the nodes is sorted, and the
      head is linked in before the first.  An empty list is a ring of the head alone. */
  method Sort(head: Node, cmp: Comparison, ghost nodes: seq<Node>, ghost all: set<Node>) returns (ghost sorted: Items)
    requires List(head, Of(nodes), all) && TotalPreorder(cmp)
    modifies all`next, all`prev
    ensures List(head, sorted, all) && Sorted(cmp, sorted) && multiset(sorted) == multiset(Of(nodes))
  {
    ghost var h, orig := Item(head, head.key, 0), Of(nodes);
    OfPlaces(nodes);
    ListEnds(head, orig, all);
    var list := head.next;
    Unlink(head, orig, all);
    ghost var s := if nodes == [] then [h] else orig;
    hide List, Ring, Sorted, TotalPreorder, Of;
    list, s := SortRing(list, cmp, s, all);
    sorted := if nodes == [] then [] else s;
    if nodes != [] { SameNodes(s, orig, head); }
    Relink(head, list, s, nodes == [], all);
  }

  lemma SameNodes(s: Items, t: Items, head: Node)
    requires multiset(s) == multiset(t) && forall k :: 0 <= k < |t| ==> t[k].it != head
    ensures forall k :: 0 <= k < |s| ==> s[k].it != head
  {
    forall k | 0 <= k < |s| ensures s[k].it != head {
      assert s[k] in multiset(t);
      assert s[k] in t;
    }
  }

  lemma ListEnds(head: Node, s: Items, all: set<Node>)
    requires List(head, s, all)
    ensures head in all && head.next != null && head.prev != null && head.next in all && head.prev in all
    ensures head.next == if s == [] then head else s[0].it
  {
    var r := [Item(head, head.key, 0)] + s;
    assert r[0].it in all && r[|r| - 1].it in all && (s != [] ==> r[1] == s[0] && r[1].it in all);
  }

  /** The ring of a list without its head, but for the two links across it. */
  lemma ListTail(head: Node, s: Items, all: set<Node>)
    requires List(head, s, all)
    ensures Distinct(s) && Among(s, all) && forall k :: 0 <= k < |s| ==> s[k].it != head
    ensures forall k :: 0 <= k < |s| - 1 ==> s[k].it.next == s[k + 1].it && s[k + 1].it.prev == s[k].it
  {
    var r, n := [Item(head, head.key, 0)] + s, |s|;
    forall k | 0 <= k < n ensures s[k].it != head && r[k + 1] == s[k] {
      assert r[0].it != r[k + 1].it;
    }
    forall k | 0 <= k < n - 1 ensures s[k].it.next == s[k + 1].it && s[k + 1].it.prev == s[k].it {
      assert r[k + 1].it.next == r[k + 2].it && r[k + 2].it.prev == r[k + 1].it;
    }
    forall i, j | 0 <= i < j < n ensures s[i].it != s[j].it { assert r[i + 1].it != r[j + 1].it; }
  }

  /** chula_list_del */
  method Unlink(head: Node, ghost s: Items, ghost all: set<Node>)
    requires List(head, s, all)
    modifies all`next, all`prev
    ensures s == [] ==> Ring([Item(head, head.key, 0)], all)
    ensures s != [] ==> Ring(s, all)
    ensures head in all && forall k :: 0 <= k < |s| ==> s[k].it != head
  {
    ListEnds(head, s, all);
    ListTail(head, s, all);
    ghost var r, n := [Item(head, head.key, 0)] + s, |s|;
    head.next.prev := head.prev;
    head.prev.next := head.next;
    assert n == 0 ==> r == [Item(head, head.key, 0)];
  }

  method Relink(head: Node, list: Node, ghost s: Items, ghost empty: bool, ghost all: set<Node>)
    requires Ring(s, all) && list == s[0].it && head in all
    requires if empty then s == [Item(head, head.key, 0)] else forall k :: 0 <= k < |s| ==> s[k].it != head
    modifies all`next, all`prev
    ensures List(head, if empty then [] else s, all)
  {
    assert s[0].it in all && s[|s| - 1].it in all;
    head.next := list;
    head.prev := list.prev;
    list.prev.next := head;
    list.prev := head;
  }
}
