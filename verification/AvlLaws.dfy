/** What insertion, deletion and search mean for the in-order sequence of a tree, how that
    sequence refines a finite map, and how high an AVL tree can be. */
module AvlLaws {
  import opened AvlSpec

  // --- The sorted sequence as a finite map -----------------------------------

  ghost predicate Ascending(s: seq<Node>, cmp: Comparator) {
    forall i, j :: 0 <= i < j < |s| ==> Order(cmp, s[i].key, s[j].key) < 0
  }

  /** All keys of s are smaller than key. */
  ghost predicate Below(s: seq<Node>, key: Key, cmp: Comparator) {
    forall i :: 0 <= i < |s| ==> Order(cmp, key, s[i].key) > 0
  }

  ghost predicate Above(s: seq<Node>, key: Key, cmp: Comparator) {
    forall i :: 0 <= i < |s| ==> Order(cmp, key, s[i].key) < 0
  }

  /** The number of leading keys smaller than key. */
  ghost function Rank(s: seq<Node>, key: Key, cmp: Comparator): (k: nat)
    ensures k <= |s|
  {
    if s == [] || Order(cmp, key, s[0].key) <= 0 then 0 else 1 + Rank(s[1..], key, cmp)
  }

  ghost function Get(s: seq<Node>, key: Key, cmp: Comparator): Option<Node> {
    var k := Rank(s, key, cmp);
    if k < |s| && Order(cmp, key, s[k].key) == 0 then Some(s[k]) else None
  }

  ghost function Add(s: seq<Node>, n: Node, cmp: Comparator): seq<Node> {
    var k := Rank(s, n.key, cmp);
    s[..k] + [n] + s[k..]
  }

  ghost function Remove(s: seq<Node>, key: Key, cmp: Comparator): seq<Node> {
    var k := Rank(s, key, cmp);
    if Get(s, key, cmp).Some? then s[..k] + s[k + 1..] else s
  }

  lemma {:induction false} RankAt(p: seq<Node>, q: seq<Node>, key: Key, cmp: Comparator)
    requires Below(p, key, cmp)
    requires q == [] || Order(cmp, key, q[0].key) <= 0
    ensures Rank(p + q, key, cmp) == |p|
  {
    if p == [] {
      assert p + q == q;
    } else {
      assert (p + q)[1..] == p[1..] + q;
      RankAt(p[1..], q, key, cmp);
    }
  }

  /** In an ascending sequence the rank splits the smaller keys from the rest. */
  lemma {:induction false} RankSplits(s: seq<Node>, key: Key, cmp: Comparator)
    requires TotalOrder(cmp) && Ascending(s, cmp)
    ensures var k := Rank(s, key, cmp);
      && (forall i :: 0 <= i < k ==> Order(cmp, key, s[i].key) > 0)
      && (forall i :: k <= i < |s| ==> Order(cmp, key, s[i].key) <= 0)
      && (forall i :: k < i < |s| ==> Order(cmp, key, s[i].key) < 0)
  {
    var k := Rank(s, key, cmp);
    hide Order, TotalOrder;
    if s == [] {
    } else if Order(cmp, key, s[0].key) <= 0 {
      forall i | 0 < i < |s| ensures Order(cmp, key, s[i].key) < 0 {
        StrictTrans(key, s[0].key, s[i].key, cmp);
      }
    } else {
      RankSplits(s[1..], key, cmp);
      forall i | 0 <= i < k ensures Order(cmp, key, s[i].key) > 0 {
        if i > 0 { assert s[i] == s[1..][i - 1]; }
      }
      forall i | k <= i < |s| ensures s[i] == s[1..][i - 1] {}
    }
  }

  lemma StrictTrans(a: Key, b: Key, c: Key, cmp: Comparator)
    requires TotalOrder(cmp)
    requires Order(cmp, a, b) <= 0 && Order(cmp, b, c) <= 0
    requires Order(cmp, a, b) < 0 || Order(cmp, b, c) < 0
    ensures Order(cmp, a, c) < 0 && Order(cmp, c, a) > 0
  {
    hide Order;
    assert Order(cmp, c, a) <= 0 && Order(cmp, a, b) <= 0 ==> Order(cmp, c, b) <= 0;
    assert Order(cmp, b, c) <= 0 && Order(cmp, c, a) <= 0 ==> Order(cmp, b, a) <= 0;
  }

  /** Get finds exactly the stored node whose key compares equal. */
  lemma GetIsMembership(s: seq<Node>, key: Key, cmp: Comparator, n: Node)
    requires TotalOrder(cmp) && Ascending(s, cmp)
    ensures Get(s, key, cmp) == Some(n) <==> n in s && Order(cmp, key, n.key) == 0
  {
    hide Order, TotalOrder;
    RankSplits(s, key, cmp);
    if n in s && Order(cmp, key, n.key) == 0 {
      var k := Rank(s, key, cmp);
      var i :| 0 <= i < |s| && s[i] == n;
      assert i == k;
    }
  }

  lemma GetInside(s: seq<Node>, key: Key, cmp: Comparator)
    ensures var g := Get(s, key, cmp); g.Some? ==> g.value in s
  {
  }

  lemma AddedElements(s: seq<Node>, n: Node, cmp: Comparator)
    ensures forall x :: x in Add(s, n, cmp) <==> x == n || x in s
  {
    hide Order, Rank;
    var k := Rank(s, n.key, cmp);
    assert s == s[..k] + s[k..];
  }

  /** Adding a new key keeps the order and defines that key and no other. */
  lemma AddIsMapUpdate(s: seq<Node>, n: Node, cmp: Comparator, key: Key)
    requires TotalOrder(cmp) && Ascending(s, cmp) && Get(s, n.key, cmp).None?
    ensures Ascending(Add(s, n, cmp), cmp)
    ensures Get(Add(s, n, cmp), key, cmp) == if Order(cmp, key, n.key) == 0 then Some(n) else Get(s, key, cmp)
  {
    hide Order, TotalOrder, Ascending, Get;
    var k := Rank(s, n.key, cmp);
    var t := Add(s, n, cmp);
    AddAscends(s, n, cmp);
    AddedElements(s, n, cmp);
    var g, h := Get(s, key, cmp), Get(t, key, cmp);
    GetIsMembership(t, key, cmp, n);
    if g.Some? {
      GetIsMembership(s, key, cmp, g.value);
      GetIsMembership(t, key, cmp, g.value);
    }
    if h.Some? {
      GetIsMembership(t, key, cmp, h.value);
      GetIsMembership(s, key, cmp, h.value);
    }
  }

  lemma AddAscends(s: seq<Node>, n: Node, cmp: Comparator)
    requires TotalOrder(cmp) && Ascending(s, cmp) && Get(s, n.key, cmp).None?
    ensures Ascending(Add(s, n, cmp), cmp)
  {
    hide Order, TotalOrder, Rank;
    var k := Rank(s, n.key, cmp);
    var t := Add(s, n, cmp);
    RankSplits(s, n.key, cmp);
    forall i, j | 0 <= i < j < |t| ensures Order(cmp, t[i].key, t[j].key) < 0 {
      if i == k {
        assert t[j] == s[j - 1];
      } else if j == k {
        assert t[i] == s[i];
        Flip(n.key, t[i].key, cmp);
      } else {
        assert t[i] == s[if i < k then i else i - 1] && t[j] == s[if j < k then j else j - 1];
      }
    }
  }

  lemma Flip(a: Key, b: Key, cmp: Comparator)
    requires TotalOrder(cmp)
    ensures Order(cmp, a, b) > 0 <==> Order(cmp, b, a) < 0
    ensures Order(cmp, a, b) == 0 <==> Order(cmp, b, a) == 0
  {
  }

  lemma RemoveMembers(s: seq<Node>, gone: Key, cmp: Comparator, x: Node)
    requires TotalOrder(cmp) && Ascending(s, cmp)
    ensures x in Remove(s, gone, cmp) <==> x in s && Order(cmp, gone, x.key) != 0
  {
    hide Order, TotalOrder, Ascending;
    var k := Rank(s, gone, cmp);
    var t := Remove(s, gone, cmp);
    RankSplits(s, gone, cmp);
    if Get(s, gone, cmp).Some? {
      if x in t {
        var i :| 0 <= i < |t| && t[i] == x;
        assert x == s[if i < k then i else i + 1];
      }
      if x in s && x != s[k] {
        var i :| 0 <= i < |s| && s[i] == x;
        assert x == t[if i < k then i else i - 1];
      }
    }
  }

  lemma RemoveAscends(s: seq<Node>, gone: Key, cmp: Comparator)
    requires Ascending(s, cmp)
    ensures Ascending(Remove(s, gone, cmp), cmp)
  {
    hide Order, Rank;
    var k := Rank(s, gone, cmp);
    var t := Remove(s, gone, cmp);
    if Get(s, gone, cmp).Some? {
      forall i, j | 0 <= i < j < |t| ensures Order(cmp, t[i].key, t[j].key) < 0 {
        assert t[i] == s[if i < k then i else i + 1] && t[j] == s[if j < k then j else j + 1];
      }
    }
  }

  /** Removing a key keeps the order, undefines that key and no other. */
  lemma RemoveIsMapRemoval(s: seq<Node>, gone: Key, cmp: Comparator, key: Key)
    requires TotalOrder(cmp) && Ascending(s, cmp)
    ensures Ascending(Remove(s, gone, cmp), cmp)
    ensures Get(Remove(s, gone, cmp), key, cmp) == if Order(cmp, key, gone) == 0 then None else Get(s, key, cmp)
  {
    hide Order, TotalOrder, Ascending, Get, Remove;
    var t := Remove(s, gone, cmp);
    var g, h := Get(s, key, cmp), Get(t, key, cmp);
    RemoveAscends(s, gone, cmp);
    if g.Some? {
      GetIsMembership(s, key, cmp, g.value);
      GetIsMembership(t, key, cmp, g.value);
      RemoveMembers(s, gone, cmp, g.value);
      EqualKeys(key, gone, g.value.key, cmp);
    }
    if h.Some? {
      GetIsMembership(s, key, cmp, h.value);
      GetIsMembership(t, key, cmp, h.value);
      RemoveMembers(s, gone, cmp, h.value);
      EqualKeys(key, gone, h.value.key, cmp);
    }
  }

  lemma EqualKeys(a: Key, b: Key, c: Key, cmp: Comparator)
    requires TotalOrder(cmp)
    ensures Order(cmp, a, b) == 0 && Order(cmp, a, c) == 0 ==> Order(cmp, b, c) == 0
    ensures Order(cmp, a, c) == 0 && Order(cmp, b, c) == 0 ==> Order(cmp, a, b) == 0
  {
    hide Order;
    Flip(a, b, cmp);
    Flip(b, c, cmp);
    Flip(a, c, cmp);
  }

  // --- The narrowed comparison ---------------------------------------------------

  function Sign(n: int): int {
    if n < 0 then -1 else if n > 0 then 1 else 0
  }

  /** The low 16 bits, read as signed, have the sign of the whole. */
  predicate SignKept(n: int) {
    n == 0 || (n > 0 && 0 < n % 0x1_0000 < 0x8000) || (n < 0 && n % 0x1_0000 >= 0x8000)
  }

  /** A result keeps its sign exactly then: 65536 passes for equal, 32768 for less. */
  lemma ShortFits(n: int)
    ensures Sign(Short(n)) == Sign(n) <==> SignKept(n)
    ensures Short(n) == 0 <==> n % 0x1_0000 == 0
    ensures Short(0x1_0000) == 0 && Short(0x8000) < 0
  {
  }

  ghost predicate OrderAgrees(cmp: Comparator) {
    forall a, b :: Sign(Order(cmp, a, b)) == Sign(cmp(a, b))
  }

  ghost predicate SignsKept(cmp: Comparator) {
    forall a, b :: SignKept(cmp(a, b))
  }

  /** The order of the tree is that of the comparator if and only if all its results keep their sign. */
  lemma NarrowingFits(cmp: Comparator)
    ensures OrderAgrees(cmp) <==> SignsKept(cmp)
  {
    forall a, b ensures Sign(Order(cmp, a, b)) == Sign(cmp(a, b)) <==> SignKept(cmp(a, b)) { ShortFits(cmp(a, b)); }
    if OrderAgrees(cmp) {
      forall a, b ensures SignKept(cmp(a, b)) { assert Sign(Order(cmp, a, b)) == Sign(cmp(a, b)); }
    }
  }

  /** Then a comparator that is a total preorder makes an ordered tree. */
  lemma NarrowedTotal(cmp: Comparator)
    requires SignsKept(cmp)
    requires forall a, b :: cmp(a, b) < 0 <==> cmp(b, a) > 0
    requires forall a, b, c :: cmp(a, b) <= 0 && cmp(b, c) <= 0 ==> cmp(a, c) <= 0
    ensures TotalOrder(cmp)
  {
    NarrowingFits(cmp);
    hide Order, SignsKept;
    forall a, b ensures Order(cmp, a, b) < 0 <==> Order(cmp, b, a) > 0 {
      assert Sign(Order(cmp, a, b)) == Sign(cmp(a, b)) && Sign(Order(cmp, b, a)) == Sign(cmp(b, a));
    }
    forall a, b, c | Order(cmp, a, b) <= 0 && Order(cmp, b, c) <= 0 ensures Order(cmp, a, c) <= 0 {
      assert Sign(Order(cmp, a, b)) == Sign(cmp(a, b)) && Sign(Order(cmp, b, c)) == Sign(cmp(b, c));
      assert Sign(Order(cmp, a, c)) == Sign(cmp(a, c));
    }
  }

  // --- The tree operations on the sequence -------------------------------------

  /** One comparison places a key relative to everything on one side of the node. */
  lemma CompareSplits(x: seq<Node>, n: Node, y: seq<Node>, key: Key, cmp: Comparator)
    requires TotalOrder(cmp) && Ascending(x + [n] + y, cmp)
    ensures Order(cmp, key, n.key) <= 0 ==> Above(y, key, cmp)
    ensures Order(cmp, key, n.key) >= 0 ==> Below(x, key, cmp)
    ensures Order(cmp, key, n.key) < 0 ==> Above([n] + y, key, cmp)
    ensures Order(cmp, key, n.key) > 0 ==> Below(x + [n], key, cmp)
  {
    hide Order, TotalOrder;
    var s := x + [n] + y;
    if Order(cmp, key, n.key) <= 0 {
      forall i | 0 <= i < |y| ensures Order(cmp, key, y[i].key) < 0 {
        assert y[i] == s[|x| + 1 + i] && n == s[|x|];
        StrictTrans(key, n.key, y[i].key, cmp);
      }
    }
    if Order(cmp, key, n.key) >= 0 {
      Flip(key, n.key, cmp);
      forall i | 0 <= i < |x| ensures Order(cmp, key, x[i].key) > 0 {
        assert x[i] == s[i] && n == s[|x|];
        StrictTrans(x[i].key, n.key, key, cmp);
      }
    }
  }

  /** The keys left of the hole are below the key, those right of it above. */
  ghost predicate Bracketed(c: Ctx, t: Tree, key: Key, cmp: Comparator) {
    && Ascending(Before(c) + Inorder(t) + After(c), cmp)
    && Below(Before(c), key, cmp) && Above(After(c), key, cmp)
  }

  lemma BracketStep(c: Ctx, t: Tree, key: Key, cmp: Comparator)
    requires t.Branch? && TotalOrder(cmp) && Bracketed(c, t, key, cmp)
    ensures Order(cmp, key, t.node.key) < 0 ==> Bracketed(InLeft(c, t.node, t.bal, t.right), t.left, key, cmp)
    ensures Order(cmp, key, t.node.key) > 0 ==> Bracketed(InRight(c, t.node, t.bal, t.left), t.right, key, cmp)
    ensures Order(cmp, key, t.node.key) == 0 ==>
      Below(Before(c) + Inorder(t.left), key, cmp) && Above(Inorder(t.right) + After(c), key, cmp)
  {
    hide Order, TotalOrder, Ascending, Below, Above;
    Regroup(Before(c), Inorder(t.left), [t.node], Inorder(t.right), After(c));
    var x, y := Before(c) + Inorder(t.left), Inorder(t.right) + After(c);
    assert x + [t.node] + y == Before(c) + Inorder(t) + After(c);
    CompareSplits(x, t.node, y, key, cmp);
    assert [t.node] + y == [t.node] + Inorder(t.right) + After(c);
  }

  /** node_add inserts a new key at its rank and rejects a key that is present. */
  lemma {:induction false} AddFromInorder(c: Ctx, t: Tree, child: Node, cmp: Comparator)
    requires t.Branch? && TotalOrder(cmp) && Bracketed(c, t, child.key, cmp)
    ensures var s := Before(c) + Inorder(t) + After(c);
      match AddFrom(c, t, child, cmp)
      case None => Get(s, child.key, cmp).Some?
      case Some(u) => Get(s, child.key, cmp).None? && Inorder(u) == Add(s, child, cmp)
    decreases t
  {
    hide Order, TotalOrder, Ascending, Bracketed, Get, Add;
    var key, re := child.key, Order(cmp, child.key, t.node.key);
    BracketStep(c, t, key, cmp);
    var s := Before(c) + Inorder(t) + After(c);
    Regroup(Before(c), Inorder(t.left), [t.node], Inorder(t.right), After(c));
    if re < 0 && t.left.Branch? {
      AddFromInorder(InLeft(c, t.node, t.bal, t.right), t.left, child, cmp);
    } else if re > 0 && t.right.Branch? {
      AddFromInorder(InRight(c, t.node, t.bal, t.left), t.right, child, cmp);
    } else if re == 0 {
      SearchHits(Before(c), Inorder(t.left), t.node, Inorder(t.right), After(c), key, cmp);
    } else {
      AddLeafInorder(c, t, child, cmp);
    }
  }

  lemma FoundAt(x: seq<Node>, n: Node, y: seq<Node>, key: Key, cmp: Comparator)
    requires Below(x, key, cmp) && Order(cmp, key, n.key) == 0
    ensures Rank(x + [n] + y, key, cmp) == |x| && Get(x + [n] + y, key, cmp) == Some(n)
    ensures Remove(x + [n] + y, key, cmp) == x + y
  {
    hide Order;
    assert x + [n] + y == x + ([n] + y);
    RankAt(x, [n] + y, key, cmp);
  }

  lemma NotFoundAt(x: seq<Node>, y: seq<Node>, key: Key, cmp: Comparator)
    requires Below(x, key, cmp) && Above(y, key, cmp)
    ensures Rank(x + y, key, cmp) == |x| && Get(x + y, key, cmp).None?
  {
    hide Order;
    RankAt(x, y, key, cmp);
  }

  lemma AddLeafInorder(c: Ctx, t: Tree, child: Node, cmp: Comparator)
    requires t.Branch? && TotalOrder(cmp) && Bracketed(c, t, child.key, cmp)
    requires var re := Order(cmp, child.key, t.node.key); (re < 0 && t.left.Leaf?) || (re > 0 && t.right.Leaf?)
    ensures var s := Before(c) + Inorder(t) + After(c);
      && AddFrom(c, t, child, cmp).Some? && Get(s, child.key, cmp).None?
      && Inorder(AddFrom(c, t, child, cmp).value) == Add(s, child, cmp)
  {
    hide Order, TotalOrder, Ascending, AddUp, Before, After;
    BracketStep(c, t, child.key, cmp);
    var s := Before(c) + Inorder(t) + After(c);
    var single := Branch(Leaf, child, 0, Leaf);
    assert Inorder(single) == [child];
    if Order(cmp, child.key, t.node.key) < 0 {
      var d := InLeft(c, t.node, t.bal, t.right);
      assert Bracketed(d, Leaf, child.key, cmp);
      var u := Branch(single, t.node, t.bal - 1, t.right);
      AddUpInorder(c, u);
      FoldInorder(d, single, u);
      FoldInorder(d, Leaf, t);
      SpliceAdd(Before(d), After(d), child, cmp);
    } else {
      var d := InRight(c, t.node, t.bal, t.left);
      assert Bracketed(d, Leaf, child.key, cmp);
      var u := Branch(t.left, t.node, t.bal + 1, single);
      AddUpInorder(c, u);
      FoldInorder(d, single, u);
      FoldInorder(d, Leaf, t);
      SpliceAdd(Before(d), After(d), child, cmp);
    }
  }

  lemma SpliceAdd(x: seq<Node>, y: seq<Node>, n: Node, cmp: Comparator)
    requires Below(x, n.key, cmp) && Above(y, n.key, cmp)
    ensures x + [] + y == x + y && Get(x + y, n.key, cmp).None? && Add(x + y, n, cmp) == x + [n] + y
  {
    hide Order;
    assert x + [] + y == x + y;
    NotFoundAt(x, y, n.key, cmp);
  }

  lemma {:induction false} AddFromAvl(c: Ctx, t: Tree, child: Node, cmp: Comparator)
    requires t.Branch? && Avl(t) && CtxAvl(c, Height(t)) && AddFrom(c, t, child, cmp).Some?
    ensures Avl(AddFrom(c, t, child, cmp).value)
    decreases t
  {
    hide Order, AddUp;
    var re := Order(cmp, child.key, t.node.key);
    var single := Branch(Leaf, child, 0, Leaf);
    if re < 0 {
      if t.left.Branch? {
        AddFromAvl(InLeft(c, t.node, t.bal, t.right), t.left, child, cmp);
      } else {
        assert Height(single) == 1 && Avl(single);
        AddUpAvl(c, Branch(single, t.node, t.bal - 1, t.right), Height(t));
      }
    } else if re > 0 {
      if t.right.Branch? {
        AddFromAvl(InRight(c, t.node, t.bal, t.left), t.right, child, cmp);
      } else {
        assert Height(single) == 1 && Avl(single);
        AddUpAvl(c, Branch(t.left, t.node, t.bal + 1, single), Height(t));
      }
    }
  }

  /** The search ends at the node whose key compares equal, or there is none. */
  lemma {:induction false} SearchFinds(c: Ctx, t: Tree, key: Key, cmp: Comparator)
    requires t.Branch? && TotalOrder(cmp) && Bracketed(c, t, key, cmp)
    ensures var s := Before(c) + Inorder(t) + After(c);
      match Search(c, t, key, cmp)
      case None => Get(s, key, cmp).None?
      case Some((d, u)) =>
        && Get(s, key, cmp) == Some(u.node)
        && Remove(s, key, cmp) == Before(d) + (Inorder(u.left) + Inorder(u.right)) + After(d)
    decreases t
  {
    hide Order, TotalOrder, Ascending, Bracketed, Get, Remove;
    var re := Order(cmp, key, t.node.key);
    BracketStep(c, t, key, cmp);
    if re == 0 {
      SearchHits(Before(c), Inorder(t.left), t.node, Inorder(t.right), After(c), key, cmp);
    } else if re < 0 {
      if t.left.Branch? {
        FoldInorder(InLeft(c, t.node, t.bal, t.right), t.left, t);
        SearchFinds(InLeft(c, t.node, t.bal, t.right), t.left, key, cmp);
      } else {
        SearchStops(c, t, key, cmp);
      }
    } else {
      if t.right.Branch? {
        FoldInorder(InRight(c, t.node, t.bal, t.left), t.right, t);
        SearchFinds(InRight(c, t.node, t.bal, t.left), t.right, key, cmp);
      } else {
        SearchStops(c, t, key, cmp);
      }
    }
  }

  lemma SearchHits(b: seq<Node>, l: seq<Node>, n: Node, r: seq<Node>, a: seq<Node>, key: Key, cmp: Comparator)
    requires Below(b + l, key, cmp) && Order(cmp, key, n.key) == 0
    ensures var s := b + (l + [n] + r) + a;
      Get(s, key, cmp) == Some(n) && Remove(s, key, cmp) == b + (l + r) + a
  {
    hide Order, Get, Remove, Below;
    FoundAt(b + l, n, r + a, key, cmp);
    assert (b + l) + [n] + (r + a) == b + (l + [n] + r) + a;
    assert (b + l) + (r + a) == b + (l + r) + a;
  }

  lemma SearchStops(c: Ctx, t: Tree, key: Key, cmp: Comparator)
    requires t.Branch? && TotalOrder(cmp) && Bracketed(c, t, key, cmp)
    requires var re := Order(cmp, key, t.node.key); (re < 0 && t.left.Leaf?) || (re > 0 && t.right.Leaf?)
    ensures Get(Before(c) + Inorder(t) + After(c), key, cmp).None?
  {
    hide Order, TotalOrder, Ascending, Before, After;
    BracketStep(c, t, key, cmp);
    var d := if t.left.Leaf? && Order(cmp, key, t.node.key) < 0
      then InLeft(c, t.node, t.bal, t.right) else InRight(c, t.node, t.bal, t.left);
    assert Bracketed(d, Leaf, key, cmp);
    FoldInorder(d, Leaf, t);
    assert Before(d) + [] + After(d) == Before(d) + After(d);
    NotFoundAt(Before(d), After(d), key, cmp);
  }

  // --- Height ------------------------------------------------------------------

  /** The fewest nodes of an AVL tree of height h: the Fibonacci numbers, shifted. */
  function MinNodes(h: nat): nat {
    if h < 2 then h else 1 + MinNodes(h - 1) + MinNodes(h - 2)
  }

  lemma {:induction false} MinNodesGrows(h: nat, k: nat)
    requires h <= k
    ensures MinNodes(h) <= MinNodes(k)
  {
    if h < k { MinNodesGrows(h, k - 1); }
  }

  lemma {:induction false} AvlSize(t: Tree)
    requires Avl(t)
    ensures |Inorder(t)| >= MinNodes(Height(t))
  {
    if t.Branch? && Height(t) >= 2 {
      AvlSize(t.left);
      AvlSize(t.right);
      MinNodesGrows(Height(t) - 2, Height(t.left));
      MinNodesGrows(Height(t) - 2, Height(t.right));
    }
  }

  const MAX_HEIGHT := 45
  const MAX_NODES := 4807526974

  /** Nine steps of the recurrence at once. */
  lemma {:induction false} MinNodesLeap(h: nat)
    ensures var a, b := MinNodes(h), MinNodes(h + 1);
      MinNodes(h + 9) == 21 * a + 34 * b + 54 && MinNodes(h + 10) == 34 * a + 55 * b + 88
  {
    var a, b := MinNodes(h), MinNodes(h + 1);
    assert MinNodes(h + 3) == a + 2 * b + 2;
    assert MinNodes(h + 4) == 2 * a + 3 * b + 4;
    assert MinNodes(h + 6) == 5 * a + 8 * b + 12;
    assert MinNodes(h + 7) == 8 * a + 13 * b + 20;
  }

  lemma MinNodesOf46()
    ensures MinNodes(MAX_HEIGHT + 1) == MAX_NODES + 1
  {
    MinNodesStart();
    hide MinNodes;
    MinNodesLeap(0);
    MinNodesLeap(9);
    MinNodesLeap(18);
    MinNodesLeap(27);
    MinNodesLeap(36);
  }

  lemma MinNodesStart()
    ensures MinNodes(0) == 0 && MinNodes(1) == 1
  {
  }

  /** MAX_HEIGHT slots hold NULL and every proper ancestor in a tree of at most MAX_NODES nodes. */
  lemma HeightFits(t: Tree)
    requires Avl(t) && |Inorder(t)| <= MAX_NODES
    ensures Height(t) <= MAX_HEIGHT
  {
    hide MinNodes;
    AvlSize(t);
    MinNodesOf46();
    if Height(t) > MAX_HEIGHT { MinNodesGrows(MAX_HEIGHT + 1, Height(t)); }
  }

  /** The highest AVL tree of given nodes, in their order. */
  ghost function Sparsest(s: seq<Node>, h: nat): Tree
    requires |s| == MinNodes(h)
    decreases h
  {
    if h == 0 then Leaf
    else if h == 1 then Branch(Leaf, s[0], 0, Leaf)
    else
      var k := MinNodes(h - 2);
      Branch(Sparsest(s[..k], h - 2), s[k], 1, Sparsest(s[k + 1..], h - 1))
  }

  /** Whatever the nodes are, in particular if their keys ascend, the least number of them suffices. */
  lemma {:induction false} MinNodesAttained(s: seq<Node>, h: nat)
    requires |s| == MinNodes(h)
    ensures var t := Sparsest(s, h); Avl(t) && Height(t) == h && Inorder(t) == s
    decreases h
  {
    if h == 1 {
      assert s == [s[0]];
    } else if h >= 2 {
      var k := MinNodes(h - 2);
      hide MinNodes;
      SplitAt(s, k);
      MinNodesAttained(s[..k], h - 2);
      MinNodesAttained(s[k + 1..], h - 1);
    }
  }

  lemma SplitAt<T>(s: seq<T>, k: nat)
    requires k < |s|
    ensures s == s[..k] + [s[k]] + s[k + 1..]
  {
  }

  /** The bound is sharp: with one node more, some tree in order needs a slot more than there are. */
  lemma StackOverrun(s: seq<Node>, cmp: Comparator)
    requires |s| == MAX_NODES + 1 && Ascending(s, cmp)
    ensures exists t :: Avl(t) && Inorder(t) == s && Height(t) == MAX_HEIGHT + 1
  {
    MinNodesOf46();
    hide MinNodes, Ascending;
    MinNodesAttained(s, MAX_HEIGHT + 1);
  }
}
