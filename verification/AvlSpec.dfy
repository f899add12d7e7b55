/** The value model of the threaded AVL tree of libchula/avl_generic.c.

    A `Tree` records which node sits where and which balance it caches; the heap
    module `AvlTree` ties the mutable nodes to such a tree.  The two bottom-up
    rebalancing loops are the functions `AddUp` and `DelUp` over a context (the
    ancestors of the node in hand, innermost first), so what the loops achieve
    is proved here without any heap. */
module AvlSpec {

  type Key(==, !new)
  type Value(==, 0)

  /** struct chula_avl_generic_node.  The key lives in the structure that embeds the
      node and never changes; `freed` records that node_free released the node. */
  class Node {
    const key: Key
    var value: Value
    var balance: int
    var left: Node?
    var right: Node?
    var leftChild: bool
    var rightChild: bool
    ghost var freed: bool

    constructor (key: Key, value: Value)
      ensures this.key == key && this.value == value && this.balance == 0
      ensures left == null && right == null && !leftChild && !rightChild && !freed
    {
      this.key, this.value, this.balance := key, value, 0;
      left, right, leftChild, rightChild := null, null, false, false;
      freed := false;
    }
  }

  datatype Option<+T> = None | Some(value: T)

  type Comparator = (Key, Key) -> int

  /** The comparison result is stored in a C `short` before its sign is inspected. */
  function Short(n: int): int {
    (n + 0x8000) % 0x1_0000 - 0x8000
  }

  function Order(cmp: Comparator, a: Key, b: Key): int {
    Short(cmp(a, b))
  }

  /** A total preorder after narrowing: keys that compare equal are interchangeable. */
  ghost predicate TotalOrder(cmp: Comparator) {
    && (forall a, b :: Order(cmp, a, b) < 0 <==> Order(cmp, b, a) > 0)
    && (forall a, b, c :: Order(cmp, a, b) <= 0 && Order(cmp, b, c) <= 0 ==> Order(cmp, a, c) <= 0)
  }

  // --- Trees ---------------------------------------------------------------

  datatype Tree = Leaf | Branch(left: Tree, node: Node, bal: int, right: Tree)

  ghost function Nodes(t: Tree): set<Node> {
    match t
    case Leaf => {}
    case Branch(l, n, _, r) => Nodes(l) + {n} + Nodes(r)
  }

  ghost function Inorder(t: Tree): seq<Node> {
    match t
    case Leaf => []
    case Branch(l, n, _, r) => Inorder(l) + [n] + Inorder(r)
  }

  function Max(a: int, b: int): int {
    if a > b then a else b
  }

  function Height(t: Tree): nat {
    match t
    case Leaf => 0
    case Branch(l, _, _, r) => 1 + Max(Height(l), Height(r))
  }

  /** Every cached balance is the right height minus the left height. */
  ghost predicate Exact(t: Tree) {
    t.Branch? ==> Exact(t.left) && Exact(t.right) && t.bal == Height(t.right) - Height(t.left)
  }

  /** Every cached balance is exact and in {-1, 0, 1}. */
  ghost predicate Avl(t: Tree) {
    t.Branch? ==> Avl(t.left) && Avl(t.right) && t.bal == Height(t.right) - Height(t.left) && -1 <= t.bal <= 1
  }

  ghost predicate Distinct(t: Tree) {
    t.Branch? ==>
      && Distinct(t.left) && Distinct(t.right)
      && t.node !in Nodes(t.left) && t.node !in Nodes(t.right)
      && Nodes(t.left) !! Nodes(t.right)
  }

  // --- Rotations -----------------------------------------------------------

  /** The balances that node_rotate_left stores in the old root and in the new one. */
  function LeftBalances(a: int, b: int): (int, int) {
    if b <= 0 then
      (a - 1, if a >= 1 then b - 1 else a + b - 2)
    else
      (a - b - 1, if a <= b then a - 2 else b - 1)
  }

  /** The balances that node_rotate_right stores in the old root and in the new one. */
  function RightBalances(a: int, b: int): (int, int) {
    if b <= 0 then
      (a - b + 1, if b > a then b + 1 else a + 2)
    else
      (a + 1, if a <= -1 then b + 1 else a + b + 2)
  }

  function RotL(t: Tree): Tree
    requires t.Branch? && t.right.Branch?
  {
    var (a, b) := LeftBalances(t.bal, t.right.bal);
    Branch(Branch(t.left, t.node, a, t.right.left), t.right.node, b, t.right.right)
  }

  function RotR(t: Tree): Tree
    requires t.Branch? && t.left.Branch?
  {
    var (a, b) := RightBalances(t.bal, t.left.bal);
    Branch(t.left.left, t.left.node, b, Branch(t.left.right, t.node, a, t.right))
  }

  /** For subtrees of any heights x, y, z hanging left to right below the two rotated nodes,
      the stored balances are the new height differences. */
  lemma LeftBalancesExact(x: int, y: int, z: int)
    ensures LeftBalances(1 + Max(y, z) - x, z - y) == (y - x, z - (1 + Max(x, y)))
  {
  }

  lemma RightBalancesExact(x: int, y: int, z: int)
    ensures RightBalances(z - (1 + Max(x, y)), y - x) == (z - y, 1 + Max(y, z) - x)
  {
  }

  /** Rotating keeps every balance exact, whatever the heights, and keeps the order. */
  lemma RotLExact(t: Tree)
    requires t.Branch? && t.right.Branch? && Exact(t)
    ensures Exact(RotL(t)) && Inorder(RotL(t)) == Inorder(t)
  {
    LeftBalancesExact(Height(t.left), Height(t.right.left), Height(t.right.right));
    RotLInorder(t);
  }

  lemma RotRExact(t: Tree)
    requires t.Branch? && t.left.Branch? && Exact(t)
    ensures Exact(RotR(t)) && Inorder(RotR(t)) == Inorder(t)
  {
    RightBalancesExact(Height(t.left.left), Height(t.left.right), Height(t.right));
    RotRInorder(t);
  }

  lemma RotLInorder(t: Tree)
    requires t.Branch? && t.right.Branch?
    ensures Inorder(RotL(t)) == Inorder(t)
  {
    var l, n, r := Inorder(t.left), [t.node], t.right;
    var x, y, z := Inorder(r.left), [r.node], Inorder(r.right);
    assert Inorder(t) == l + n + (x + y + z);
    assert l + n + (x + y + z) == (l + n + x) + y + z;
  }

  lemma RotRInorder(t: Tree)
    requires t.Branch? && t.left.Branch?
    ensures Inorder(RotR(t)) == Inorder(t)
  {
    var l, n, r := t.left, [t.node], Inorder(t.right);
    var x, y, z := Inorder(l.left), [l.node], Inorder(l.right);
    assert Inorder(t) == (x + y + z) + n + r;
    assert (x + y + z) + n + r == x + y + (z + n + r);
  }

  /** node_balance: at most one double rotation towards the lighter side. */
  function Balanced(t: Tree): (r: Tree)
    requires t.Branch?
    ensures r.Branch?
  {
    if t.bal < -1 && t.left.Branch? then
      if t.left.bal > 0 && t.left.right.Branch? then RotR(t.(left := RotL(t.left))) else RotR(t)
    else if t.bal > 1 && t.right.Branch? then
      if t.right.bal < 0 && t.right.left.Branch? then RotL(t.(right := RotR(t.right))) else RotL(t)
    else t
  }

  /** One side is too high by at most two: what both loops hand to node_balance. */
  ghost predicate Near(t: Tree) {
    t.Branch? && Avl(t.left) && Avl(t.right) && t.bal == Height(t.right) - Height(t.left) && -2 <= t.bal <= 2
  }

  lemma AvlIsExact(t: Tree)
    requires Avl(t)
    ensures Exact(t)
  {
    if t.Branch? { AvlIsExact(t.left); AvlIsExact(t.right); }
  }

  /** node_balance makes the subtree AVL again; it becomes lower unless the heavier child was even,
      and exactly then the stored balance of the new root is zero. */
  lemma BalancedAvl(t: Tree)
    requires Near(t)
    ensures Balanced(t).Branch? && Avl(Balanced(t))
    ensures -1 <= t.bal <= 1 ==> Balanced(t) == t
    ensures t.bal == -2 ==> var even := t.left.bal == 0;
      Height(Balanced(t)) == Height(t) - (if even then 0 else 1) && (Balanced(t).bal == 0 <==> !even)
    ensures t.bal == 2 ==> var even := t.right.bal == 0;
      Height(Balanced(t)) == Height(t) - (if even then 0 else 1) && (Balanced(t).bal == 0 <==> !even)
  {
    if t.bal == -2 {
      LeftHeavyAvl(t);
    } else if t.bal == 2 {
      RightHeavyAvl(t);
    }
  }

  /** Avl, one level at a time. */
  lemma JoinAvl(t: Tree)
    requires t.Branch? && Avl(t.left) && Avl(t.right)
    requires t.bal == Height(t.right) - Height(t.left) && -1 <= t.bal <= 1
    ensures Avl(t)
  {
  }

  lemma LeftHeavyAvl(t: Tree)
    requires Near(t) && t.bal == -2
    ensures Balanced(t).Branch? && Avl(Balanced(t))
    ensures Height(Balanced(t)) == Height(t) - (if t.left.bal == 0 then 0 else 1)
    ensures Balanced(t).bal == 0 <==> t.left.bal != 0
  {
    var l, r := t.left, t.right;
    if l.bal > 0 {
      assert Avl(l.right);
      DoubleRight(l.left, l.node, l.right.left, l.right.node, l.right.bal, l.right.right, t.node, r);
      DoubleAvl(l.left, l.node, l.right.left, l.right.node, l.right.right, t.node, r);
    } else {
      RightBalancesExact(Height(l.left), Height(l.right), Height(r));
      JoinAvl(RotR(t).right);
    }
  }

  /** The four subtrees keep their places; only the cached balances need the formulas. */
  lemma DoubleRight(a: Tree, p: Node, b: Tree, m: Node, mb: int, c: Tree, n: Node, d: Tree)
    requires mb == Height(c) - Height(b) && -1 <= mb <= 1
    requires Height(a) == Height(d) == Max(Height(b), Height(c))
    ensures var t := Branch(Branch(a, p, 1, Branch(b, m, mb, c)), n, -2, d);
      && Balanced(t) == Double(a, p, b, m, c, n, d)
      && Height(t) == Height(a) + 3
  {
    assert Height(Branch(b, m, mb, c)) == 1 + Height(a);
    LeftBalancesExact(Height(a), Height(b), Height(c));
    RightBalancesExact(1 + Max(Height(a), Height(b)), Height(c), Height(d));
  }

  /** The outcome of both double rotations. */
  function Double(a: Tree, p: Node, b: Tree, m: Node, c: Tree, n: Node, d: Tree): Tree {
    Branch(Branch(a, p, Height(b) - Height(a), b), m, 0, Branch(c, n, Height(d) - Height(c), d))
  }

  lemma DoubleAvl(a: Tree, p: Node, b: Tree, m: Node, c: Tree, n: Node, d: Tree)
    requires Avl(a) && Avl(b) && Avl(c) && Avl(d)
    requires -1 <= Height(c) - Height(b) <= 1
    requires Height(a) == Height(d) == Max(Height(b), Height(c))
    ensures Avl(Double(a, p, b, m, c, n, d)) && Height(Double(a, p, b, m, c, n, d)) == Height(a) + 2
  {
    JoinAvl(Branch(a, p, Height(b) - Height(a), b));
    JoinAvl(Branch(c, n, Height(d) - Height(c), d));
  }

  lemma RightHeavyAvl(t: Tree)
    requires Near(t) && t.bal == 2
    ensures Balanced(t).Branch? && Avl(Balanced(t))
    ensures Height(Balanced(t)) == Height(t) - (if t.right.bal == 0 then 0 else 1)
    ensures Balanced(t).bal == 0 <==> t.right.bal != 0
  {
    var l, r := t.left, t.right;
    if r.bal < 0 {
      assert Avl(r.left);
      DoubleLeft(l, t.node, r.left.left, r.left.node, r.left.bal, r.left.right, r.node, r.right);
      DoubleAvl(l, t.node, r.left.left, r.left.node, r.left.right, r.node, r.right);
    } else {
      LeftBalancesExact(Height(l), Height(r.left), Height(r.right));
      JoinAvl(RotL(t).left);
    }
  }

  lemma DoubleLeft(a: Tree, n: Node, b: Tree, m: Node, mb: int, c: Tree, p: Node, d: Tree)
    requires mb == Height(c) - Height(b) && -1 <= mb <= 1
    requires Height(a) == Height(d) == Max(Height(b), Height(c))
    ensures var t := Branch(a, n, 2, Branch(Branch(b, m, mb, c), p, -1, d));
      && Balanced(t) == Double(a, n, b, m, c, p, d)
      && Height(t) == Height(a) + 3
  {
    assert Height(Branch(b, m, mb, c)) == 1 + Height(a);
    RightBalancesExact(Height(b), Height(c), Height(d));
    LeftBalancesExact(Height(a), Height(b), 1 + Max(Height(c), Height(d)));
  }

  lemma BalancedInorder(t: Tree)
    requires t.Branch?
    ensures Inorder(Balanced(t)) == Inorder(t)
  {
    if t.bal < -1 && t.left.Branch? {
      if t.left.bal > 0 && t.left.right.Branch? {
        RotLInorder(t.left);
        RotRInorder(t.(left := RotL(t.left)));
      } else {
        RotRInorder(t);
      }
    } else if t.bal > 1 && t.right.Branch? {
      if t.right.bal < 0 && t.right.left.Branch? {
        RotRInorder(t.right);
        RotLInorder(t.(right := RotR(t.right)));
      } else {
        RotLInorder(t);
      }
    }
  }

  // --- Contexts: the ancestors of a node, innermost first --------------------

  datatype Ctx =
    | Top
    | InLeft(up: Ctx, node: Node, bal: int, sibling: Tree)   // the hole is the left child of node
    | InRight(up: Ctx, node: Node, bal: int, sibling: Tree)  // the hole is the right child of node

  function Plug(c: Ctx, t: Tree): (r: Tree)
    ensures t.Branch? ==> r.Branch?
  {
    match c
    case Top => t
    case InLeft(up, n, b, s) => Plug(up, Branch(t, n, b, s))
    case InRight(up, n, b, s) => Plug(up, Branch(s, n, b, t))
  }

  ghost function Before(c: Ctx): seq<Node> {
    match c
    case Top => []
    case InLeft(up, _, _, _) => Before(up)
    case InRight(up, n, _, s) => Before(up) + Inorder(s) + [n]
  }

  ghost function After(c: Ctx): seq<Node> {
    match c
    case Top => []
    case InLeft(up, n, _, s) => [n] + Inorder(s) + After(up)
    case InRight(up, _, _, _) => After(up)
  }

  /** Closing one context frame around t keeps the sequence. */
  lemma FoldInorder(c: Ctx, t: Tree, u: Tree)
    requires c.InLeft? ==> Inorder(u) == Inorder(t) + [c.node] + Inorder(c.sibling)
    requires c.InRight? ==> Inorder(u) == Inorder(c.sibling) + [c.node] + Inorder(t)
    requires !c.Top?
    ensures Before(c.up) + Inorder(u) + After(c.up) == Before(c) + Inorder(t) + After(c)
  {
    var b, i, n, s, a := Before(c.up), Inorder(t), [c.node], Inorder(c.sibling), After(c.up);
    if c.InLeft? {
      Regroup(b, i, n, s, a);
    } else {
      Regroup(b, s, n, i, a);
    }
  }

  lemma Regroup(b: seq<Node>, x: seq<Node>, n: seq<Node>, y: seq<Node>, a: seq<Node>)
    ensures b + (x + n + y) + a == b + x + (n + y + a) == (b + x + n) + y + a
  {
    assert (b + x + n) + y + a == (b + x + n) + (y + a);
    assert (b + x) + n + (y + a) == (b + x) + (n + (y + a));
    assert n + (y + a) == n + y + a;
    assert (x + n) + y == x + (n + y);
    assert b + (x + (n + y)) == (b + x) + (n + y);
    assert ((b + x) + (n + y)) + a == (b + x) + ((n + y) + a);
  }

  lemma {:induction false} PlugInorder(c: Ctx, t: Tree)
    ensures Inorder(Plug(c, t)) == Before(c) + Inorder(t) + After(c)
  {
    if !c.Top? {
      var u := if c.InLeft? then Branch(t, c.node, c.bal, c.sibling) else Branch(c.sibling, c.node, c.bal, t);
      PlugInorder(c.up, u);
      FoldInorder(c, t, u);
    }
  }

  /** The ancestors are AVL, and their balances are exact for a hole of height h. */
  ghost predicate CtxAvl(c: Ctx, h: nat) {
    match c
    case Top => true
    case InLeft(up, _, b, s) =>
      Avl(s) && b == Height(s) - h && -1 <= b <= 1 && CtxAvl(up, 1 + Max(h, Height(s)))
    case InRight(up, _, b, s) =>
      Avl(s) && b == h - Height(s) && -1 <= b <= 1 && CtxAvl(up, 1 + Max(Height(s), h))
  }

  lemma PlugAvl(c: Ctx, t: Tree)
    ensures Avl(Plug(c, t)) <==> Avl(t) && CtxAvl(c, Height(t))
  {
    match c
    case Top =>
    case InLeft(up, n, b, s) => PlugAvl(up, Branch(t, n, b, s));
    case InRight(up, n, b, s) => PlugAvl(up, Branch(s, n, b, t));
  }

  function Depth(c: Ctx): nat {
    if c.Top? then 0 else 1 + Depth(c.up)
  }

  lemma DepthBound(c: Ctx, t: Tree)
    ensures Depth(c) + Height(t) <= Height(Plug(c, t))
  {
    match c
    case Top =>
    case InLeft(up, n, b, s) => DepthBound(up, Branch(t, n, b, s));
    case InRight(up, n, b, s) => DepthBound(up, Branch(s, n, b, t));
  }

  // --- The rebalancing loops -------------------------------------------------

  /** The loop at the end of node_add: t holds the new node, and its balance is up to date. */
  function AddUp(c: Ctx, t: Tree): (r: Tree)
    requires t.Branch?
    ensures r.Branch?
    decreases c
  {
    var b := Balanced(t);
    match c
    case Top => b
    case InLeft(up, n, bal, s) => if b.bal == 0 then Plug(c, b) else AddUp(up, Branch(b, n, bal - 1, s))
    case InRight(up, n, bal, s) => if b.bal == 0 then Plug(c, b) else AddUp(up, Branch(s, n, bal + 1, b))
  }

  /** What t may look like when its subtree, of height h before, received a node. */
  ghost predicate Grown(t: Tree, h: nat) {
    && Near(t)
    && Height(t) == h + (if t.bal == 0 then 0 else 1)
    && (t.bal == -2 ==> t.left.bal != 0)
    && (t.bal == 2 ==> t.right.bal != 0)
  }

  lemma GrownBalanced(t: Tree, h: nat)
    requires Grown(t, h)
    ensures Avl(Balanced(t)) && Height(Balanced(t)) == h + (if Balanced(t).bal == 0 then 0 else 1)
  {
    hide Balanced;
    BalancedAvl(t);
  }

  lemma {:induction false} AddUpAvl(c: Ctx, t: Tree, h: nat)
    requires t.Branch? && Grown(t, h) && CtxAvl(c, h)
    ensures Avl(AddUp(c, t))
    decreases c
  {
    hide Balanced, Grown;
    var b := Balanced(t);
    GrownBalanced(t, h);
    if c.Top? {
    } else if b.bal == 0 {
      PlugAvl(c, b);
    } else if c.InLeft? {
      GrownLeft(c, b, h);
      AddUpAvl(c.up, Branch(b, c.node, c.bal - 1, c.sibling), 1 + Max(h, Height(c.sibling)));
    } else {
      GrownRight(c, b, h);
      AddUpAvl(c.up, Branch(c.sibling, c.node, c.bal + 1, b), 1 + Max(Height(c.sibling), h));
    }
  }

  lemma GrownLeft(c: Ctx, b: Tree, h: nat)
    requires c.InLeft? && CtxAvl(c, h) && b.Branch? && Avl(b) && b.bal != 0 && Height(b) == h + 1
    ensures Grown(Branch(b, c.node, c.bal - 1, c.sibling), 1 + Max(h, Height(c.sibling)))
  {
  }

  lemma GrownRight(c: Ctx, b: Tree, h: nat)
    requires c.InRight? && CtxAvl(c, h) && b.Branch? && Avl(b) && b.bal != 0 && Height(b) == h + 1
    ensures Grown(Branch(c.sibling, c.node, c.bal + 1, b), 1 + Max(Height(c.sibling), h))
  {
  }

  lemma {:induction false} AddUpInorder(c: Ctx, t: Tree)
    requires t.Branch?
    ensures Inorder(AddUp(c, t)) == Before(c) + Inorder(t) + After(c)
    decreases c
  {
    var b := Balanced(t);
    BalancedInorder(t);
    if c.Top? {
    } else if b.bal == 0 {
      PlugInorder(c, b);
    } else {
      var u := if c.InLeft? then Branch(b, c.node, c.bal - 1, c.sibling) else Branch(c.sibling, c.node, c.bal + 1, b);
      AddUpInorder(c.up, u);
      FoldInorder(c, t, u);
    }
  }

  /** The loop at the end of chula_avl_generic_del: a child of t became lower, and t's balance is up to date. */
  function DelUp(c: Ctx, t: Tree): (r: Tree)
    requires t.Branch?
    ensures r.Branch?
    decreases c
  {
    var b := Balanced(t);
    match c
    case Top => b
    case InLeft(up, n, bal, s) => if b.bal != 0 then Plug(c, b) else DelUp(up, Branch(b, n, bal + 1, s))
    case InRight(up, n, bal, s) => if b.bal != 0 then Plug(c, b) else DelUp(up, Branch(s, n, bal - 1, b))
  }

  /** What t may look like when its subtree, of height h before, lost a node. */
  ghost predicate Reduced(t: Tree, h: nat) {
    Near(t) && Height(t) == h - (if t.bal == 0 then 1 else 0)
  }

  lemma ReducedBalanced(t: Tree, h: nat)
    requires Reduced(t, h)
    ensures Avl(Balanced(t)) && Height(Balanced(t)) == h - (if Balanced(t).bal == 0 then 1 else 0)
  {
    hide Balanced;
    BalancedAvl(t);
  }

  lemma {:induction false} DelUpAvl(c: Ctx, t: Tree, h: nat)
    requires t.Branch? && Reduced(t, h) && CtxAvl(c, h)
    ensures Avl(DelUp(c, t))
    decreases c
  {
    hide Balanced, Reduced;
    var b := Balanced(t);
    ReducedBalanced(t, h);
    if c.Top? {
    } else if b.bal != 0 {
      PlugAvl(c, b);
    } else if c.InLeft? {
      ReducedLeft(c, b, h);
      DelUpAvl(c.up, Branch(b, c.node, c.bal + 1, c.sibling), 1 + Max(h, Height(c.sibling)));
    } else {
      ReducedRight(c, b, h);
      DelUpAvl(c.up, Branch(c.sibling, c.node, c.bal - 1, b), 1 + Max(Height(c.sibling), h));
    }
  }

  lemma ReducedLeft(c: Ctx, b: Tree, h: nat)
    requires c.InLeft? && CtxAvl(c, h) && Avl(b) && Height(b) + 1 == h
    ensures Reduced(Branch(b, c.node, c.bal + 1, c.sibling), 1 + Max(h, Height(c.sibling)))
  {
  }

  lemma ReducedRight(c: Ctx, b: Tree, h: nat)
    requires c.InRight? && CtxAvl(c, h) && Avl(b) && Height(b) + 1 == h
    ensures Reduced(Branch(c.sibling, c.node, c.bal - 1, b), 1 + Max(Height(c.sibling), h))
  {
  }

  lemma {:induction false} DelUpInorder(c: Ctx, t: Tree)
    requires t.Branch?
    ensures Inorder(DelUp(c, t)) == Before(c) + Inorder(t) + After(c)
    decreases c
  {
    var b := Balanced(t);
    BalancedInorder(t);
    if c.Top? {
    } else if b.bal != 0 {
      PlugInorder(c, b);
    } else {
      var u := if c.InLeft? then Branch(b, c.node, c.bal + 1, c.sibling) else Branch(c.sibling, c.node, c.bal - 1, b);
      DelUpInorder(c.up, u);
      FoldInorder(c, t, u);
    }
  }

  /** A subtree one higher than s is replaced by s; the parent, if any, is rebalanced upwards. */
  function Shrink(c: Ctx, s: Tree): Tree {
    match c
    case Top => s
    case InLeft(up, n, b, sib) => DelUp(up, Branch(s, n, b + 1, sib))
    case InRight(up, n, b, sib) => DelUp(up, Branch(sib, n, b - 1, s))
  }

  lemma ShrinkAvl(c: Ctx, s: Tree)
    requires Avl(s) && CtxAvl(c, Height(s) + 1)
    ensures Avl(Shrink(c, s))
  {
    match c
    case Top =>
    case InLeft(up, n, b, sib) =>
      ReducedLeft(c, s, Height(s) + 1);
      DelUpAvl(up, Branch(s, n, b + 1, sib), 1 + Max(Height(s) + 1, Height(sib)));
    case InRight(up, n, b, sib) =>
      ReducedRight(c, s, Height(s) + 1);
      DelUpAvl(up, Branch(sib, n, b - 1, s), 1 + Max(Height(sib), Height(s) + 1));
  }

  lemma ShrinkInorder(c: Ctx, s: Tree)
    ensures Inorder(Shrink(c, s)) == Before(c) + Inorder(s) + After(c)
  {
    if !c.Top? {
      var u := if c.InLeft? then Branch(s, c.node, c.bal + 1, c.sibling) else Branch(c.sibling, c.node, c.bal - 1, s);
      DelUpInorder(c.up, u);
      FoldInorder(c, s, u);
    }
  }

  // --- Insertion and deletion --------------------------------------------------

  /** node_add from the point where the search stands at the root of t below c; None: duplicate. */
  function AddFrom(c: Ctx, t: Tree, child: Node, cmp: Comparator): (r: Option<Tree>)
    requires t.Branch?
    ensures r.Some? ==> r.value.Branch?
    decreases t
  {
    var re := Order(cmp, child.key, t.node.key);
    var single := Branch(Leaf, child, 0, Leaf);
    if re < 0 then
      if t.left.Branch? then AddFrom(InLeft(c, t.node, t.bal, t.right), t.left, child, cmp)
      else Some(AddUp(c, Branch(single, t.node, t.bal - 1, t.right)))
    else if re > 0 then
      if t.right.Branch? then AddFrom(InRight(c, t.node, t.bal, t.left), t.right, child, cmp)
      else Some(AddUp(c, Branch(t.left, t.node, t.bal + 1, single)))
    else None
  }

  function LeftmostCtx(c: Ctx, t: Tree): Ctx
    requires t.Branch?
    decreases t
  {
    if t.left.Leaf? then c else LeftmostCtx(InLeft(c, t.node, t.bal, t.right), t.left)
  }

  function Leftmost(t: Tree): Tree
    requires t.Branch?
    ensures Leftmost(t).Branch? && Leftmost(t).left.Leaf?
  {
    if t.left.Leaf? then t else Leftmost(t.left)
  }

  /** Removal of the root of t, below c: the in-order successor takes the place of a node with two children. */
  function Removed(c: Ctx, t: Tree): Tree
    requires t.Branch?
  {
    if t.left.Leaf? then Shrink(c, t.right)
    else if t.right.Leaf? then Shrink(c, t.left)
    else
      var next := Leftmost(t.right);
      Shrink(LeftmostCtx(InRight(c, next.node, t.bal, t.left), t.right), next.right)
  }

  /** The search of chula_avl_generic_del and _get: where the key sits, if anywhere. */
  function Search(c: Ctx, t: Tree, key: Key, cmp: Comparator): (r: Option<(Ctx, Tree)>)
    requires t.Branch?
    ensures r.Some? ==> r.value.1.Branch? && Plug(r.value.0, r.value.1) == Plug(c, t)
    decreases t
  {
    var re := Order(cmp, key, t.node.key);
    if re == 0 then Some((c, t))
    else if re < 0 then
      if t.left.Leaf? then None else Search(InLeft(c, t.node, t.bal, t.right), t.left, key, cmp)
    else
      if t.right.Leaf? then None else Search(InRight(c, t.node, t.bal, t.left), t.right, key, cmp)
  }

  lemma {:induction false} LeftmostCorrect(c: Ctx, t: Tree)
    requires t.Branch?
    ensures Plug(LeftmostCtx(c, t), Leftmost(t)) == Plug(c, t)
    ensures Before(LeftmostCtx(c, t)) == Before(c)
    ensures [Leftmost(t).node] + Inorder(Leftmost(t).right) + After(LeftmostCtx(c, t)) == Inorder(t) + After(c)
    decreases t
  {
    if t.left.Branch? {
      var u := InLeft(c, t.node, t.bal, t.right);
      LeftmostCorrect(u, t.left);
      Regroup([], Inorder(t.left), [t.node], Inorder(t.right), After(c));
      assert [] + Inorder(t.left) == Inorder(t.left);
      assert [] + Inorder(t) == Inorder(t);
    }
  }

  /** Replacing the node just above the leftmost path changes no height on it. */
  lemma {:induction false} LeftmostAvl(c: Ctx, t: Tree)
    requires t.Branch? && Avl(t) && CtxAvl(c, Height(t))
    ensures Avl(Leftmost(t)) && CtxAvl(LeftmostCtx(c, t), Height(Leftmost(t)))
    decreases t
  {
    if t.left.Branch? {
      LeftmostAvl(InLeft(c, t.node, t.bal, t.right), t.left);
    }
  }

  lemma LeftmostShrinkAvl(c: Ctx, t: Tree)
    requires t.Branch? && Avl(t) && CtxAvl(c, Height(t))
    ensures Avl(Shrink(LeftmostCtx(c, t), Leftmost(t).right))
  {
    hide Shrink, CtxAvl;
    var next := Leftmost(t);
    LeftmostAvl(c, t);
    assert Height(next) == Height(next.right) + 1;
    ShrinkAvl(LeftmostCtx(c, t), next.right);
  }

  lemma RemovedAvl(c: Ctx, t: Tree)
    requires t.Branch? && Avl(t) && CtxAvl(c, Height(t))
    ensures Avl(Removed(c, t))
  {
    hide Shrink;
    if t.left.Leaf? {
      ShrinkAvl(c, t.right);
    } else if t.right.Leaf? {
      ShrinkAvl(c, t.left);
    } else {
      var u := InRight(c, Leftmost(t.right).node, t.bal, t.left);
      assert CtxAvl(u, Height(t.right));
      LeftmostShrinkAvl(u, t.right);
    }
  }

  lemma RemovedInorder(c: Ctx, t: Tree)
    requires t.Branch?
    ensures Inorder(Removed(c, t)) == Before(c) + (Inorder(t.left) + Inorder(t.right)) + After(c)
  {
    hide Shrink;
    if t.left.Leaf? {
      ShrinkInorder(c, t.right);
    } else if t.right.Leaf? {
      ShrinkInorder(c, t.left);
    } else {
      var next := Leftmost(t.right);
      var u := InRight(c, next.node, t.bal, t.left);
      LeftmostCorrect(u, t.right);
      var v := LeftmostCtx(u, t.right);
      ShrinkInorder(v, next.right);
      JoinSeqs(Before(c), Inorder(t.left), next.node, Inorder(next.right), After(v), Inorder(t.right), After(c));
    }
  }

  lemma JoinSeqs(b: seq<Node>, l: seq<Node>, n: Node, x: seq<Node>, y: seq<Node>, r: seq<Node>, a: seq<Node>)
    requires [n] + x + y == r + a
    ensures (b + l + [n]) + x + y == b + (l + r) + a
  {
    assert (b + l + [n]) + x + y == b + l + ([n] + x + y);
    assert b + (l + r) + a == b + l + (r + a);
  }
}
