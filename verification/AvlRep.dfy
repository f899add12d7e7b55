/** How the mutable nodes of libchula/avl_generic.c represent a tree and a context, and the
    operations on nodes: rotations, threads, taking a node out. */
module AvlRep {
  import opened AvlSpec
  import opened AvlLaws

  // --- Representation ---------------------------------------------------------

  /** The nodes of t hold its shape and balances; every missing child is a thread to the in-order
      neighbour: lo before the first node of t, hi after its last. */
  ghost predicate Rep(t: Tree, lo: Node?, hi: Node?)
    reads Nodes(t)`balance, Nodes(t)`left, Nodes(t)`right, Nodes(t)`leftChild, Nodes(t)`rightChild
  {
    match t
    case Leaf => true
    case Branch(l, n, b, r) =>
      && n.balance == b
      && n.leftChild == l.Branch? && n.left == Link(l, lo) && Rep(l, lo, n)
      && n.rightChild == r.Branch? && n.right == Link(r, hi) && Rep(r, n, hi)
  }

  ghost function Link(t: Tree, thread: Node?): Node? {
    if t.Branch? then t.node else thread
  }

  /** The in-order neighbours of the hole of a context; lo and hi are those of the whole. */
  ghost function Lo(c: Ctx, lo: Node?): Node? {
    match c
    case Top => lo
    case InLeft(up, _, _, _) => Lo(up, lo)
    case InRight(_, n, _, _) => n
  }

  ghost function Hi(c: Ctx, hi: Node?): Node? {
    match c
    case Top => hi
    case InLeft(_, n, _, _) => n
    case InRight(up, _, _, _) => Hi(up, hi)
  }

  ghost function CtxNodes(c: Ctx): set<Node> {
    if c.Top? then {} else {c.node} + Nodes(c.sibling) + CtxNodes(c.up)
  }

  /** The ancestors hold their balances and siblings, and the innermost one links to hole. */
  ghost predicate RepCtx(c: Ctx, hole: Node?, lo: Node?, hi: Node?)
    reads CtxNodes(c)`balance, CtxNodes(c)`left, CtxNodes(c)`right, CtxNodes(c)`leftChild, CtxNodes(c)`rightChild
  {
    match c
    case Top => true
    case InLeft(up, n, b, s) =>
      && n.balance == b && n.leftChild && n.left == hole
      && n.rightChild == s.Branch? && n.right == Link(s, Hi(up, hi)) && Rep(s, n, Hi(up, hi))
      && RepCtx(up, n, lo, hi)
    case InRight(up, n, b, s) =>
      && n.balance == b && n.rightChild && n.right == hole
      && n.leftChild == s.Branch? && n.left == Link(s, Lo(up, lo)) && Rep(s, Lo(up, lo), n)
      && RepCtx(up, n, lo, hi)
  }

  ghost predicate DistinctCtx(c: Ctx) {
    !c.Top? ==>
      && Distinct(c.sibling) && DistinctCtx(c.up)
      && c.node !in Nodes(c.sibling) && c.node !in CtxNodes(c.up)
      && Nodes(c.sibling) !! CtxNodes(c.up)
  }

  /** No node occurs twice in t and its context. */
  ghost predicate Apart(c: Ctx, t: Tree) {
    Distinct(t) && DistinctCtx(c) && Nodes(t) !! CtxNodes(c)
  }

  ghost function All(c: Ctx, t: Tree): set<Node> {
    Nodes(t) + CtxNodes(c)
  }

  lemma {:induction false} PlugApart(c: Ctx, t: Tree)
    ensures Nodes(Plug(c, t)) == All(c, t)
    ensures Distinct(Plug(c, t)) <==> Apart(c, t)
  {
    if !c.Top? {
      var u := if c.InLeft? then Branch(t, c.node, c.bal, c.sibling) else Branch(c.sibling, c.node, c.bal, t);
      PlugApart(c.up, u);
    }
  }

  /** The entries of `path` below index Depth(c) + 1: NULL, then the ancestors from the root down. */
  ghost function Ancestors(c: Ctx): (s: seq<Node?>)
    ensures |s| == Depth(c) + 1
  {
    if c.Top? then [null] else Ancestors(c.up) + [c.node]
  }

  ghost function Outermost(c: Ctx, hole: Node?): Node? {
    if c.Top? then hole else Outermost(c.up, c.node)
  }

  /** A tree is represented exactly when a subtree and its context are. */
  lemma {:induction false} RepPlug(c: Ctx, t: Tree, lo: Node?, hi: Node?)
    requires t.Branch?
    ensures Rep(Plug(c, t), lo, hi) <==> Rep(t, Lo(c, lo), Hi(c, hi)) && RepCtx(c, t.node, lo, hi)
    ensures Plug(c, t).node == Outermost(c, t.node)
    decreases c
  {
    if !c.Top? {
      var u := if c.InLeft? then Branch(t, c.node, c.bal, c.sibling) else Branch(c.sibling, c.node, c.bal, t);
      assert Rep(u, Lo(c.up, lo), Hi(c.up, hi)) && RepCtx(c.up, u.node, lo, hi) <==>
        Rep(t, Lo(c, lo), Hi(c, hi)) && RepCtx(c, t.node, lo, hi);
      RepPlug(c.up, u, lo, hi);
    }
  }

  /** The nodes of a tree in hand exist, so no call allocates them anew. */
  lemma {:induction false} Allocated(t: Tree)
    ensures forall n :: n in Nodes(t) ==> allocated(n)
  {
    if t.Branch? { Allocated(t.left); Allocated(t.right); assert allocated(t.node); }
  }

  lemma {:induction false} AllocatedCtx(c: Ctx)
    ensures forall n :: n in CtxNodes(c) ==> allocated(n)
  {
    if !c.Top? { Allocated(c.sibling); AllocatedCtx(c.up); assert allocated(c.node); }
  }

  // --- Rotations ---------------------------------------------------------------

  /** The second half of node_rotate_left. */
  method StoreLeftBalances(node: Node, right: Node)
    requires node != right
    modifies node`balance, right`balance
    ensures (node.balance, right.balance) == LeftBalances(old(node.balance), old(right.balance))
  {
    var a, b := node.balance, right.balance;
    if b <= 0 {
      if a >= 1 {
        right.balance := b - 1;
      } else {
        right.balance := a + b - 2;
      }
      node.balance := a - 1;
    } else {
      if a <= b {
        right.balance := a - 2;
      } else {
        right.balance := b - 1;
      }
      node.balance := a - b - 1;
    }
  }

  /** The second half of node_rotate_right. */
  method StoreRightBalances(node: Node, left: Node)
    requires node != left
    modifies node`balance, left`balance
    ensures (node.balance, left.balance) == RightBalances(old(node.balance), old(left.balance))
  {
    var a, b := node.balance, left.balance;
    if b <= 0 {
      if b > a {
        left.balance := b + 1;
      } else {
        left.balance := a + 2;
      }
      node.balance := a - b + 1;
    } else {
      if a <= -1 {
        left.balance := b + 1;
      } else {
        left.balance := a + b + 2;
      }
      node.balance := a + 1;
    }
  }

  /** n holds the links of a node between the subtrees l and r. */
  ghost predicate Holding(n: Node, l: Tree, r: Tree, lo: Node?, hi: Node?)
    reads n`left, n`right, n`leftChild, n`rightChild
  {
    && n.leftChild == l.Branch? && n.left == Link(l, lo)
    && n.rightChild == r.Branch? && n.right == Link(r, hi)
  }

  /** The statements of node_rotate_left, in terms of the three subtrees. */
  method LiftRight(node: Node, ghost right: Node, ghost x: Tree, ghost y: Tree, ghost z: Tree,
                   ghost r: Tree, ghost lo: Node?, ghost hi: Node?) returns (top: Node)
    requires node != right && r.Branch? && r.node == right
    requires Holding(node, x, r, lo, hi) && Holding(right, y, z, node, hi)
    modifies node`left, node`right, node`leftChild, node`rightChild, node`balance
    modifies right`left, right`leftChild, right`balance
    ensures top == right
    ensures (node.balance, right.balance) == LeftBalances(old(node.balance), old(right.balance))
    ensures Holding(node, x, y, lo, right) && right.leftChild && right.left == node
    ensures right.rightChild == z.Branch? && right.right == Link(z, hi)
  {
    top := node.right;
    if top.leftChild {
      node.right := top.left;
    } else {
      node.rightChild := false;
      node.right := top;
      top.leftChild := true;
    }
    top.left := node;
    StoreLeftBalances(node, top);
  }

  /** The statements of node_rotate_right. */
  method LiftLeft(node: Node, ghost left: Node, ghost x: Tree, ghost y: Tree, ghost z: Tree,
                  ghost l: Tree, ghost lo: Node?, ghost hi: Node?) returns (top: Node)
    requires node != left && l.Branch? && l.node == left
    requires Holding(node, l, z, lo, hi) && Holding(left, x, y, lo, node)
    modifies node`left, node`right, node`leftChild, node`rightChild, node`balance
    modifies left`right, left`rightChild, left`balance
    ensures top == left
    ensures (node.balance, left.balance) == RightBalances(old(node.balance), old(left.balance))
    ensures Holding(node, y, z, left, hi) && left.rightChild && left.right == node
    ensures left.leftChild == x.Branch? && left.left == Link(x, lo)
  {
    top := node.left;
    if top.rightChild {
      node.left := top.right;
    } else {
      node.leftChild := false;
      node.left := top;
      top.rightChild := true;
    }
    top.right := node;
    StoreRightBalances(node, top);
  }

  lemma RightParts(t: Tree, lo: Node?, hi: Node?)
    requires t.Branch? && t.right.Branch? && Rep(t, lo, hi) && Distinct(t)
    ensures var n, r, x, y, z := t.node, t.right.node, t.left, t.right.left, t.right.right;
      && Rep(x, lo, n) && Rep(y, n, r) && Rep(z, r, hi)
      && Holding(n, x, t.right, lo, hi) && Holding(r, y, z, n, hi)
      && n.balance == t.bal && r.balance == t.right.bal && n != r
      && n !in Nodes(x) && n !in Nodes(y) && n !in Nodes(z)
      && r !in Nodes(x) && r !in Nodes(y) && r !in Nodes(z)
  {
  }

  lemma LeftParts(t: Tree, lo: Node?, hi: Node?)
    requires t.Branch? && t.left.Branch? && Rep(t, lo, hi) && Distinct(t)
    ensures var n, l, x, y, z := t.node, t.left.node, t.left.left, t.left.right, t.right;
      && Rep(x, lo, l) && Rep(y, l, n) && Rep(z, n, hi)
      && Holding(n, t.left, z, lo, hi) && Holding(l, x, y, lo, n)
      && n.balance == t.bal && l.balance == t.left.bal && n != l
      && n !in Nodes(x) && n !in Nodes(y) && n !in Nodes(z)
      && l !in Nodes(x) && l !in Nodes(y) && l !in Nodes(z)
  {
  }

  lemma RotatedLeft(t: Tree, lo: Node?, hi: Node?)
    requires t.Branch? && t.right.Branch?
    requires var n, r, x, y, z := t.node, t.right.node, t.left, t.right.left, t.right.right;
      && Rep(x, lo, n) && Rep(y, n, r) && Rep(z, r, hi)
      && Holding(n, x, y, lo, r) && r.leftChild && r.left == n
      && r.rightChild == z.Branch? && r.right == Link(z, hi)
      && (n.balance, r.balance) == LeftBalances(t.bal, t.right.bal)
    ensures Rep(RotL(t), lo, hi)
  {
    hide LeftBalances;
    RepJoin(RotL(t).left, lo, t.right.node);
    RepJoin(RotL(t), lo, hi);
  }

  lemma RotatedRight(t: Tree, lo: Node?, hi: Node?)
    requires t.Branch? && t.left.Branch?
    requires var n, l, x, y, z := t.node, t.left.node, t.left.left, t.left.right, t.right;
      && Rep(x, lo, l) && Rep(y, l, n) && Rep(z, n, hi)
      && Holding(n, y, z, l, hi) && l.rightChild && l.right == n
      && l.leftChild == x.Branch? && l.left == Link(x, lo)
      && (n.balance, l.balance) == RightBalances(t.bal, t.left.bal)
    ensures Rep(RotR(t), lo, hi)
  {
    hide RightBalances;
    RepJoin(RotR(t).right, t.left.node, hi);
    RepJoin(RotR(t), lo, hi);
  }

  /** node_rotate_left. */
  method RotateLeft(node: Node, ghost t: Tree, ghost lo: Node?, ghost hi: Node?) returns (right: Node)
    requires t.Branch? && t.node == node && t.right.Branch?
    requires Rep(t, lo, hi) && Distinct(t)
    modifies node`left, node`right, node`leftChild, node`rightChild, node`balance
    modifies t.right.node`left, t.right.node`leftChild, t.right.node`balance
    ensures right == RotL(t).node && Rep(RotL(t), lo, hi)
  {
    ghost var x, y, z := t.left, t.right.left, t.right.right;
    hide Rep, Distinct, LeftBalances, Nodes;
    RightParts(t, lo, hi);
    Allocated(x); Allocated(y); Allocated(z);
    right := LiftRight(node, t.right.node, x, y, z, t.right, lo, hi);
    RotatedLeft(t, lo, hi);
  }

  /** node_rotate_right. */
  method RotateRight(node: Node, ghost t: Tree, ghost lo: Node?, ghost hi: Node?) returns (left: Node)
    requires t.Branch? && t.node == node && t.left.Branch?
    requires Rep(t, lo, hi) && Distinct(t)
    modifies node`left, node`right, node`leftChild, node`rightChild, node`balance
    modifies t.left.node`right, t.left.node`rightChild, t.left.node`balance
    ensures left == RotR(t).node && Rep(RotR(t), lo, hi)
  {
    ghost var x, y, z := t.left.left, t.left.right, t.right;
    hide Rep, Distinct, RightBalances, Nodes;
    LeftParts(t, lo, hi);
    Allocated(x); Allocated(y); Allocated(z);
    left := LiftLeft(node, t.left.node, x, y, z, t.left, lo, hi);
    RotatedRight(t, lo, hi);
  }

  ghost predicate NoDuplicates(s: seq<Node>) {
    forall i, j :: 0 <= i < j < |s| ==> s[i] != s[j]
  }

  ghost function Elements(s: seq<Node>): set<Node> {
    set n | n in s
  }

  lemma NoDuplicatesJoin(x: seq<Node>, n: Node, y: seq<Node>)
    ensures Elements(x + [n] + y) == Elements(x) + {n} + Elements(y)
    ensures NoDuplicates(x + [n] + y) <==>
      NoDuplicates(x) && NoDuplicates(y) && n !in Elements(x) && n !in Elements(y) && Elements(x) !! Elements(y)
  {
    var s := x + [n] + y;
    if NoDuplicates(s) {
      forall i, j | 0 <= i < j < |x| ensures x[i] != x[j] { assert x[i] == s[i] && x[j] == s[j]; }
      forall i, j | 0 <= i < j < |y| ensures y[i] != y[j] { assert y[i] == s[|x| + 1 + i] && y[j] == s[|x| + 1 + j]; }
      forall i | 0 <= i < |x| ensures x[i] != n { assert x[i] == s[i] && n == s[|x|]; }
      forall i | 0 <= i < |y| ensures y[i] != n { assert y[i] == s[|x| + 1 + i] && n == s[|x|]; }
      forall i, j | 0 <= i < |x| && 0 <= j < |y| ensures x[i] != y[j] {
        assert x[i] == s[i] && y[j] == s[|x| + 1 + j];
      }
    }
    if NoDuplicates(x) && NoDuplicates(y) && n !in Elements(x) && n !in Elements(y) && Elements(x) !! Elements(y) {
      forall i, j | 0 <= i < j < |s| ensures s[i] != s[j] {
        if j < |x| {
          assert s[i] == x[i] && s[j] == x[j];
        } else if |x| < i {
          assert s[i] == y[i - |x| - 1] && s[j] == y[j - |x| - 1];
        } else {
          assert i < |x| ==> s[i] in Elements(x);
          assert j > |x| ==> s[j] in Elements(y);
        }
      }
    }
  }

  lemma {:induction false} DistinctInorder(t: Tree)
    ensures Nodes(t) == Elements(Inorder(t))
    ensures Distinct(t) <==> NoDuplicates(Inorder(t))
  {
    if t.Branch? {
      DistinctInorder(t.left);
      DistinctInorder(t.right);
      NoDuplicatesJoin(Inorder(t.left), t.node, Inorder(t.right));
    }
  }

  /** Trees with the same sequence consist of the same nodes. */
  lemma SameInorder(t: Tree, u: Tree)
    requires Inorder(t) == Inorder(u)
    ensures Nodes(t) == Nodes(u) && (Distinct(t) <==> Distinct(u))
  {
    DistinctInorder(t);
    DistinctInorder(u);
  }

  /** Every side that node_balance looks into is a child. */
  ghost predicate Tilted(t: Tree) {
    && t.Branch?
    && (t.bal < -1 ==> t.left.Branch? && (t.left.bal > 0 ==> t.left.right.Branch?))
    && (t.bal > 1 ==> t.right.Branch? && (t.right.bal < 0 ==> t.right.left.Branch?))
  }

  lemma NearIsTilted(t: Tree)
    requires Near(t)
    ensures Tilted(t)
  {
  }

  method NodeBalance(node: Node, ghost t: Tree, ghost lo: Node?, ghost hi: Node?) returns (top: Node)
    requires Tilted(t) && t.node == node
    requires Rep(t, lo, hi) && Distinct(t)
    modifies Nodes(t)`left, Nodes(t)`right, Nodes(t)`leftChild, Nodes(t)`rightChild, Nodes(t)`balance
    ensures top == Balanced(t).node && Rep(Balanced(t), lo, hi)
  {
    hide RotL, RotR;
    top := node;
    if node.balance < -1 {
      ghost var u := t;
      if node.left.balance > 0 {
        u := RotateLeftChild(node, t, lo, hi);
      }
      top := RotateRight(node, u, lo, hi);
    } else if node.balance > 1 {
      ghost var u := t;
      if node.right.balance < 0 {
        u := RotateRightChild(node, t, lo, hi);
      }
      top := RotateLeft(node, u, lo, hi);
    }
  }

  method RotateLeftChild(node: Node, ghost t: Tree, ghost lo: Node?, ghost hi: Node?) returns (ghost u: Tree)
    requires t.Branch? && t.node == node && t.left.Branch? && t.left.right.Branch?
    requires Rep(t, lo, hi) && Distinct(t)
    modifies node`left
    modifies Nodes(t.left)`left, Nodes(t.left)`right
    modifies Nodes(t.left)`leftChild, Nodes(t.left)`rightChild, Nodes(t.left)`balance
    ensures u == t.(left := RotL(t.left))
    ensures Rep(u, lo, hi) && Distinct(u) && Nodes(u) == Nodes(t)
  {
    u := t.(left := RotL(t.left));
    Allocated(t.right);
    RotLInorder(t.left);
    SameInorder(t.left, u.left);
    assert Rep(t.left, lo, node) && Rep(t.right, node, hi);
    hide RotL, Rep;
    var l := RotateLeft(node.left, t.left, lo, node);
    node.left := l;
    assert Rep(u.left, lo, node) && Rep(t.right, node, hi);
    RepJoin(u, lo, hi);
  }

  method RotateRightChild(node: Node, ghost t: Tree, ghost lo: Node?, ghost hi: Node?) returns (ghost u: Tree)
    requires t.Branch? && t.node == node && t.right.Branch? && t.right.left.Branch?
    requires Rep(t, lo, hi) && Distinct(t)
    modifies node`right
    modifies Nodes(t.right)`left, Nodes(t.right)`right
    modifies Nodes(t.right)`leftChild, Nodes(t.right)`rightChild, Nodes(t.right)`balance
    ensures u == t.(right := RotR(t.right))
    ensures Rep(u, lo, hi) && Distinct(u) && Nodes(u) == Nodes(t)
  {
    u := t.(right := RotR(t.right));
    Allocated(t.left);
    RotRInorder(t.right);
    SameInorder(t.right, u.right);
    assert Rep(t.left, lo, node) && Rep(t.right, node, hi);
    hide RotR, Rep;
    var r := RotateRight(node.right, t.right, node, hi);
    node.right := r;
    assert Rep(u.right, node, hi) && Rep(t.left, lo, node);
    RepJoin(u, lo, hi);
  }

  /** Rep, one level at a time. */
  lemma RepJoin(t: Tree, lo: Node?, hi: Node?)
    requires t.Branch?
    requires Rep(t.left, lo, t.node) && Rep(t.right, t.node, hi)
    requires t.node.balance == t.bal
    requires t.node.leftChild == t.left.Branch? && t.node.left == Link(t.left, lo)
    requires t.node.rightChild == t.right.Branch? && t.node.right == Link(t.right, hi)
    ensures Rep(t, lo, hi)
  {
  }

  // --- Climbing towards the root -------------------------------------------------

  lemma {:induction false} NeighboursAbove(c: Ctx)
    ensures Lo(c, null) == null || Lo(c, null) in CtxNodes(c)
    ensures Hi(c, null) == null || Hi(c, null) in CtxNodes(c)
  {
    if !c.Top? { NeighboursAbove(c.up); }
  }

  ghost function Parent(c: Ctx): Node? {
    if c.Top? then null else c.node
  }

  /** The context closed by one frame around the subtree t. */
  ghost function Fold(c: Ctx, t: Tree, delta: int): Tree
    requires !c.Top?
  {
    if c.InLeft? then Branch(t, c.node, c.bal + delta, c.sibling) else Branch(c.sibling, c.node, c.bal + delta, t)
  }

  /** `is_left` tests the pointer alone, which may be a thread; it is still exact. */
  lemma SideIsExact(c: Ctx, t: Tree)
    requires t.Branch? && Apart(c, t) && RepCtx(c, t.node, null, null) && !c.Top?
    ensures c.node.left == t.node <==> c.InLeft?
  {
    NeighboursAbove(c.up);
    if c.InRight? && c.sibling.Branch? { assert c.sibling.node in Nodes(c.sibling); }
  }

  lemma FoldApart(c: Ctx, t: Tree, delta: int)
    requires Apart(c, t) && !c.Top?
    ensures Apart(c.up, Fold(c, t, delta)) && All(c.up, Fold(c, t, delta)) == All(c, t)
  {
  }

  /** The parent's balance is adjusted; the loop moves on to it. */
  method Tilt(parent: Node, delta: int, ghost c: Ctx, ghost t: Tree)
    requires !c.Top? && parent == c.node && t.Branch?
    requires Apart(c, t) && Rep(t, Lo(c, null), Hi(c, null)) && RepCtx(c, t.node, null, null)
    modifies parent`balance
    ensures Rep(Fold(c, t, delta), Lo(c.up, null), Hi(c.up, null)) && RepCtx(c.up, parent, null, null)
  {
    Allocated(t); Allocated(c.sibling); AllocatedCtx(c.up);
    parent.balance := parent.balance + delta;
    RepJoin(Fold(c, t, delta), Lo(c.up, null), Hi(c.up, null));
  }

  /** The last entry of the path is the parent; the rest leads to it. */
  lemma PathTop(p: seq<Node?>, c: Ctx)
    requires p == Ancestors(c)
    ensures p[Depth(c)] == Parent(c)
    ensures !c.Top? ==> p[..Depth(c)] == Ancestors(c.up)
  {
  }

  lemma GrownTilted(t: Tree, h: nat)
    requires t.Branch? && Grown(t, h)
    ensures Tilted(t)
  {
    NearIsTilted(t);
  }

  lemma ReducedTilted(t: Tree, h: nat)
    requires t.Branch? && Reduced(t, h)
    ensures Tilted(t)
  {
    NearIsTilted(t);
  }

  lemma DelUpStops(c: Ctx, t: Tree)
    requires t.Branch? && (Balanced(t).bal != 0 || c.Top?)
    ensures DelUp(c, t) == Plug(c, Balanced(t))
  {
    hide Balanced;
  }

  lemma ReducedFold(c: Ctx, t: Tree, h: nat) returns (k: nat)
    requires t.Branch? && Reduced(t, h) && CtxAvl(c, h) && !c.Top? && Balanced(t).bal == 0
    ensures var u := Fold(c, Balanced(t), if c.InLeft? then 1 else -1);
      Reduced(u, k) && CtxAvl(c.up, k) && DelUp(c, t) == DelUp(c.up, u)
  {
    hide Balanced, Reduced, Near, Avl, Height;
    ReducedBalanced(t, h);
    k := 1 + Max(h, Height(c.sibling));
    if c.InLeft? {
      ReducedLeft(c, Balanced(t), h);
    } else {
      ReducedRight(c, Balanced(t), h);
    }
  }

  lemma BalancedKeepsAll(c: Ctx, t: Tree)
    requires t.Branch?
    ensures All(c, Balanced(t)) == All(c, t)
  {
    BalancedInorder(t);
    SameInorder(t, Balanced(t));
  }

  lemma AddUpStops(c: Ctx, t: Tree)
    requires t.Branch? && (Balanced(t).bal == 0 || c.Top?)
    ensures AddUp(c, t) == Plug(c, Balanced(t))
  {
    hide Balanced;
  }

  lemma GrownFold(c: Ctx, t: Tree, h: nat) returns (k: nat)
    requires t.Branch? && Grown(t, h) && CtxAvl(c, h) && !c.Top? && Balanced(t).bal != 0
    ensures var u := Fold(c, Balanced(t), if c.InLeft? then -1 else 1);
      Grown(u, k) && CtxAvl(c.up, k) && AddUp(c, t) == AddUp(c.up, u)
  {
    hide Balanced, Grown, Near, Avl, Height;
    GrownBalanced(t, h);
    k := 1 + Max(h, Height(c.sibling));
    if c.InLeft? {
      GrownLeft(c, Balanced(t), h);
    } else {
      GrownRight(c, Balanced(t), h);
    }
  }

  // --- Threads -------------------------------------------------------------------

  function Rightmost(t: Tree): (r: Tree)
    requires t.Branch?
    ensures r.Branch? && r.right.Leaf?
  {
    if t.right.Leaf? then t else Rightmost(t.right)
  }

  ghost function RightmostCtx(c: Ctx, t: Tree): Ctx
    requires t.Branch?
    decreases t
  {
    if t.right.Leaf? then c else RightmostCtx(InRight(c, t.node, t.bal, t.left), t.right)
  }

  /** Contexts that only go left see one and the same left neighbour. */
  ghost predicate LeftOnly(c: Ctx) {
    c.Top? || (c.InLeft? && LeftOnly(c.up))
  }

  ghost predicate RightOnly(c: Ctx) {
    c.Top? || (c.InRight? && RightOnly(c.up))
  }

  lemma {:induction false} LeftOnlyThread(c: Ctx, hole: Node?, lo: Node?, lo2: Node?, hi: Node?)
    requires LeftOnly(c)
    ensures Lo(c, lo) == lo && (RepCtx(c, hole, lo, hi) <==> RepCtx(c, hole, lo2, hi))
  {
    if !c.Top? { LeftOnlyThread(c.up, c.node, lo, lo2, hi); }
  }

  lemma {:induction false} RightOnlyThread(c: Ctx, hole: Node?, lo: Node?, hi: Node?, hi2: Node?)
    requires RightOnly(c)
    ensures Hi(c, hi) == hi && (RepCtx(c, hole, lo, hi) <==> RepCtx(c, hole, lo, hi2))
  {
    if !c.Top? { RightOnlyThread(c.up, c.node, lo, hi, hi2); }
  }

  lemma {:induction false} LeftmostPlug(c: Ctx, t: Tree)
    requires t.Branch?
    ensures Plug(LeftmostCtx(c, t), Leftmost(t)) == Plug(c, t)
    ensures LeftOnly(c) ==> LeftOnly(LeftmostCtx(c, t))
    decreases t
  {
    if t.left.Branch? { LeftmostPlug(InLeft(c, t.node, t.bal, t.right), t.left); }
  }

  lemma {:induction false} RightmostPlug(c: Ctx, t: Tree)
    requires t.Branch?
    ensures Plug(RightmostCtx(c, t), Rightmost(t)) == Plug(c, t)
    ensures RightOnly(c) ==> RightOnly(RightmostCtx(c, t))
    decreases t
  {
    if t.right.Branch? { RightmostPlug(InRight(c, t.node, t.bal, t.left), t.right); }
  }

  /** Storing the left thread of the first node. */
  method RethreadFirst(tmp: Node, thread: Node?, ghost t: Tree, ghost was: Node?, ghost hi: Node?)
    requires t.Branch? && Distinct(t) && Rep(t, was, hi) && tmp == Leftmost(t).node
    modifies tmp`left
    ensures Rep(t, thread, hi)
  {
    ghost var e, u := LeftmostCtx(Top, t), Leftmost(t);
    LeftmostPlug(Top, t);
    PlugApart(e, u);
    RepPlug(e, u, was, hi);
    LeftOnlyThread(e, tmp, was, thread, hi);
    LeftOnlyThread(e, tmp, thread, was, hi);
    tmp.left := thread;
    RepJoin(u, thread, Hi(e, hi));
    LeftOnlyThread(e, tmp, was, thread, hi);
    RepPlug(e, u, thread, hi);
  }

  /** Storing the right thread of the last node. */
  method RethreadLast(tmp: Node, thread: Node?, ghost t: Tree, ghost lo: Node?, ghost was: Node?)
    requires t.Branch? && Distinct(t) && Rep(t, lo, was) && tmp == Rightmost(t).node
    modifies tmp`right
    ensures Rep(t, lo, thread)
  {
    ghost var e, u := RightmostCtx(Top, t), Rightmost(t);
    RightmostPlug(Top, t);
    PlugApart(e, u);
    RepPlug(e, u, lo, was);
    RightOnlyThread(e, tmp, lo, was, thread);
    RightOnlyThread(e, tmp, lo, thread, was);
    tmp.right := thread;
    RepJoin(u, Lo(e, lo), thread);
    RightOnlyThread(e, tmp, lo, was, thread);
    RepPlug(e, u, lo, thread);
  }

  /** The inner loop of node_next: down the left children. */
  method First(start: Node, ghost t: Tree, ghost lo: Node?, ghost hi: Node?) returns (tmp: Node)
    requires t.Branch? && t.node == start && Rep(t, lo, hi)
    ensures tmp == Leftmost(t).node
  {
    tmp := start;
    ghost var u, h := t, hi;
    while tmp.leftChild
      invariant u.Branch? && u.node == tmp && Rep(u, lo, h) && Leftmost(u) == Leftmost(t)
      decreases u
    {
      h := tmp;
      tmp := tmp.left;
      u := u.left;
    }
  }

  /** The inner loop of node_prev: down the right children. */
  method Last(start: Node, ghost t: Tree, ghost lo: Node?, ghost hi: Node?) returns (tmp: Node)
    requires t.Branch? && t.node == start && Rep(t, lo, hi)
    ensures tmp == Rightmost(t).node
  {
    tmp := start;
    ghost var u, l := t, lo;
    while tmp.rightChild
      invariant u.Branch? && u.node == tmp && Rep(u, l, hi) && Rightmost(u) == Rightmost(t)
      decreases u
    {
      l := tmp;
      tmp := tmp.right;
      u := u.right;
    }
  }

  // --- Taking the first node out of a tree -----------------------------------------

  /** t without its first node; only the balance of that node's parent is adjusted. */
  ghost function Cut(t: Tree): Tree
    requires t.Branch?
  {
    if t.left.Leaf? then t.right
    else if t.left.left.Leaf? then Branch(t.left.right, t.node, t.bal + 1, t.right)
    else Branch(Cut(t.left), t.node, t.bal, t.right)
  }

  lemma {:induction false} CutInorder(t: Tree)
    requires t.Branch?
    ensures Inorder(t) == [Leftmost(t).node] + Inorder(Cut(t))
    ensures t.left.Branch? ==> Cut(t).Branch? && Cut(t).node == t.node
  {
    if t.left.Branch? {
      CutInorder(t.left);
      var m, x, n, r := [Leftmost(t).node], Inorder(Cut(t.left)), [t.node], Inorder(t.right);
      assert (m + x) + n + r == m + (x + n + r);
    }
  }

  lemma CutNodes(t: Tree)
    requires t.Branch? && Distinct(t)
    ensures var m := Leftmost(t).node;
      Nodes(t) == {m} + Nodes(Cut(t)) && m !in Nodes(Cut(t)) && Distinct(Cut(t))
  {
    hide Cut, Leftmost, Inorder, Nodes, Distinct;
    var s, u, m := Inorder(t), Inorder(Cut(t)), Leftmost(t).node;
    CutInorder(t);
    DistinctInorder(t);
    DistinctInorder(Cut(t));
    assert [] + [m] + u == [m] + u;
    NoDuplicatesJoin([], m, u);
  }

  /** The cut tree, seen from the parent of the node taken out. */
  lemma {:induction false} CutPlug(d: Ctx, t: Tree)
    requires t.Branch? && t.left.Branch?
    ensures var e := LeftmostCtx(d, t);
      && e.InLeft? && Plug(e.up, Fold(e, Leftmost(t).right, 1)) == Plug(d, Cut(t))
    decreases t
  {
    if t.left.left.Branch? { CutPlug(InLeft(d, t.node, t.bal, t.right), t.left); }
  }

  /** `next` leaves the tree t through its parent `nextp`; threads to it remain. */
  method DetachNext(next: Node, nextp: Node, ghost t: Tree, ghost was: Node?, ghost hi: Node?)
    requires t.Branch? && t.left.Branch? && Distinct(t) && Rep(t, was, hi)
    requires next == Leftmost(t).node && nextp == Parent(LeftmostCtx(Top, t))
    modifies nextp`left, nextp`leftChild, nextp`balance
    ensures Rep(Cut(t), next, hi)
  {
    hide Cut, LeftmostCtx, Leftmost;
    ghost var e, u := LeftmostCtx(Top, t), Leftmost(t);
    LeftmostPlug(Top, t);
    CutPlug(Top, t);
    PlugApart(e, u);
    RepPlug(e, u, was, hi);
    LeftOnlyThread(e.up, nextp, was, next, hi);
    ghost var w := Fold(e, u.right, 1);
    assert Rep(u.right, next, nextp) && Rep(e.sibling, nextp, Hi(e.up, hi)) && RepCtx(e.up, nextp, next, hi);
    if next.rightChild {
      nextp.left := next.right;
    } else {
      nextp.leftChild := false;
    }
    nextp.balance := nextp.balance + 1;
    LeftOnlyThread(e.up, nextp, next, was, hi);
    RepJoin(w, next, Hi(e.up, hi));
    RepPlug(e.up, w, next, hi);
  }

  // --- Descending ----------------------------------------------------------------

  ghost function Down(c: Ctx, t: Tree, left: bool): Ctx
    requires t.Branch?
  {
    if left then InLeft(c, t.node, t.bal, t.right) else InRight(c, t.node, t.bal, t.left)
  }

  ghost function Child(t: Tree, left: bool): Tree
    requires t.Branch?
  {
    if left then t.left else t.right
  }

  /** t with a new leaf below its root, whose balance is adjusted. */
  function WithLeaf(t: Tree, child: Node, left: bool): (u: Tree)
    requires t.Branch?
    ensures u.Branch?
  {
    var single := Branch(Leaf, child, 0, Leaf);
    if left then Branch(single, t.node, t.bal - 1, t.right) else Branch(t.left, t.node, t.bal + 1, single)
  }

  lemma WithLeafApart(c: Ctx, t: Tree, child: Node, left: bool)
    requires t.Branch? && Child(t, left).Leaf? && Apart(c, t) && child !in All(c, t)
    ensures Apart(c, WithLeaf(t, child, left)) && All(c, WithLeaf(t, child, left)) == All(c, t) + {child}
  {
    var single := Branch(Leaf, child, 0, Leaf);
    assert Distinct(single) && Nodes(single) == {child};
  }

  lemma DownApart(c: Ctx, t: Tree, left: bool)
    requires t.Branch? && Apart(c, t)
    ensures Apart(Down(c, t, left), Child(t, left)) && All(Down(c, t, left), Child(t, left)) == All(c, t)
    ensures Plug(Down(c, t, left), Child(t, left)) == Plug(c, t)
    ensures Ancestors(Down(c, t, left)) == Ancestors(c) + [t.node]
  {
  }

  lemma StillBalanced(t: Tree)
    requires t.Branch? && -1 <= t.bal <= 1
    ensures Balanced(t) == t
  {
  }

  // --- Replacing a node with two children by its successor --------------------------

  /** What stands in the place of t when its root is replaced by the in-order successor. */
  ghost function Replaced(t: Tree): Tree
    requires t.Branch? && t.right.Branch?
  {
    Branch(t.left, Leftmost(t.right).node, if t.right.left.Leaf? then t.bal - 1 else t.bal, Cut(t.right))
  }

  lemma ReplacedApart(c: Ctx, t: Tree)
    requires t.Branch? && t.right.Branch? && Apart(c, t)
    ensures Apart(c, Replaced(t)) && All(c, Replaced(t)) == All(c, t) - {t.node}
    ensures Leftmost(t.right).node in Nodes(t.right)
  {
    hide Cut, Leftmost;
    CutNodes(t.right);
  }

  /** The parent of the successor, before the replacement. */
  ghost function NextParent(t: Tree): Node
    requires t.Branch? && t.right.Branch?
  {
    var e := LeftmostCtx(Top, t.right);
    if e.Top? then t.node else e.node
  }

  lemma {:induction false} NextParentInside(c: Ctx, t: Tree)
    requires t.Branch?
    ensures t.left.Branch? ==> LeftmostCtx(c, t).InLeft? && LeftmostCtx(c, t).node in Nodes(t)
    ensures t.left.Leaf? ==> LeftmostCtx(c, t) == c
    decreases t
  {
    if t.left.Branch? { NextParentInside(InLeft(c, t.node, t.bal, t.right), t.left); }
  }

  /** First step: the successor leaves its place and takes over the right side. */
  method TakeRight(node: Node, next: Node, nextp: Node, ghost t: Tree, ghost lo: Node?, ghost hi: Node?)
    requires t.Branch? && t.right.Branch? && Distinct(t) && Rep(t, lo, hi)
    requires node == t.node && next == Leftmost(t.right).node && nextp == NextParent(t)
    modifies node`balance, next`right, next`rightChild, nextp`left, nextp`leftChild, nextp`balance
    ensures Rep(Cut(t.right), next, hi)
    ensures next.rightChild == Cut(t.right).Branch? && next.right == Link(Cut(t.right), hi)
    ensures node.balance == Replaced(t).bal
    ensures node.leftChild == old(node.leftChild) && node.left == old(node.left)
  {
    ghost var r := t.right;
    CutNodes(r);
    NextParentInside(Top, r);
    assert Rep(r, node, hi);
    CutInorder(r);
    if nextp != node {
      hide Rep;
      DetachNext(next, nextp, r, node, hi);
      next.rightChild := true;
      next.right := node.right;
    } else {
      node.balance := node.balance - 1;
    }
  }

  /** Second step: the predecessor's thread moves from the node to its successor. */
  method TakeThread(node: Node, next: Node, ghost l: Tree, ghost lo: Node?)
    requires l.Branch? && Distinct(l) && node.left == l.node && Rep(l, lo, node)
    modifies Nodes(l)`right
    ensures Rep(l, lo, next)
  {
    Allocated(l);
    LastIn(l);
    var prev := Last(node.left, l, lo, node);
    RethreadLast(prev, next, l, lo, node);
  }

  /** Third step: the successor takes over the left side and the balance. */
  method TakeLeft(node: Node, next: Node, ghost t: Tree, ghost lo: Node?, ghost hi: Node?)
    requires t.Branch? && t.left.Branch? && t.right.Branch? && next == Leftmost(t.right).node
    requires next !in Nodes(t.left) && next !in Nodes(Cut(t.right))
    requires node.leftChild && node.left == t.left.node && node.balance == Replaced(t).bal
    requires Rep(t.left, lo, next) && Rep(Cut(t.right), next, hi)
    requires next.rightChild == Cut(t.right).Branch? && next.right == Link(Cut(t.right), hi)
    modifies next`left, next`leftChild, next`balance
    ensures Rep(Replaced(t), lo, hi)
  {
    hide Cut, Leftmost, Rep;
    next.leftChild := true;
    next.left := node.left;
    next.balance := node.balance;
    RepJoin(Replaced(t), lo, hi);
  }

  /** The pointer surgery of the case with two children, up to the link from above. */
  method TakePlace(node: Node, next: Node, nextp: Node, ghost t: Tree, ghost lo: Node?, ghost hi: Node?)
    requires t.Branch? && t.left.Branch? && t.right.Branch? && Distinct(t) && Rep(t, lo, hi)
    requires node == t.node && next == Leftmost(t.right).node && nextp == NextParent(t)
    modifies Nodes(t)`left, Nodes(t)`right, Nodes(t)`leftChild, Nodes(t)`rightChild, Nodes(t)`balance
    ensures Rep(Replaced(t), lo, hi)
  {
    hide Leftmost, Cut, NextParent, LeftmostCtx;
    ghost var l, u := t.left, Cut(t.right);
    CutNodes(t.right);
    NextParentIn(t);
    assert Rep(l, lo, node) && node.leftChild && node.left == l.node && Distinct(l);
    assert next in Nodes(t.right) && next !in Nodes(l) && Nodes(l) !! Nodes(u);
    Allocated(l);
    Allocated(u);
    TakeRight(node, next, nextp, t, lo, hi);
    hide Rep, Distinct;
    TakeThread(node, next, l, lo);
    TakeLeft(node, next, t, lo, hi);
  }

  lemma NextParentIn(t: Tree)
    requires t.Branch? && t.right.Branch?
    ensures NextParent(t) == t.node || NextParent(t) in Nodes(t.right)
  {
    NextParentInside(Top, t.right);
  }

  lemma {:induction false} LastIn(t: Tree)
    requires t.Branch?
    ensures Rightmost(t).node in Nodes(t)
  {
    if t.right.Branch? { LastIn(t.right); }
  }

  // --- The path below the node that is being replaced --------------------------------

  /** The context e with d in place of its top. */
  ghost function Over(e: Ctx, d: Ctx): (r: Ctx)
    ensures Depth(r) == Depth(e) + Depth(d)
  {
    if e.Top? then d
    else if e.InLeft? then InLeft(Over(e.up, d), e.node, e.bal, e.sibling)
    else InRight(Over(e.up, d), e.node, e.bal, e.sibling)
  }

  ghost function Names(e: Ctx): (s: seq<Node?>)
    ensures |s| == Depth(e)
  {
    if e.Top? then [] else Names(e.up) + [e.node]
  }

  lemma {:induction false} AncestorsOver(e: Ctx, d: Ctx)
    ensures Ancestors(Over(e, d)) == Ancestors(d) + Names(e)
  {
    if !e.Top? {
      AncestorsOver(e.up, d);
      assert Ancestors(d) + Names(e.up) + [e.node] == Ancestors(d) + (Names(e.up) + [e.node]);
    }
  }

  lemma {:induction false} LeftmostOver(e: Ctx, d: Ctx, t: Tree)
    requires t.Branch?
    ensures LeftmostCtx(Over(e, d), t) == Over(LeftmostCtx(e, t), d)
    decreases t
  {
    if t.left.Branch? { LeftmostOver(InLeft(e, t.node, t.bal, t.right), d, t.left); }
  }

  /** Where the search for the successor stands: at u, below e in the right subtree of t. */
  ghost predicate OnSpine(e: Ctx, u: Tree, t: Tree) {
    && u.Branch? && t.Branch? && t.right.Branch?
    && Plug(e, u) == t.right && LeftmostCtx(e, u) == LeftmostCtx(Top, t.right)
    && Leftmost(u) == Leftmost(t.right)
  }

  lemma SpineRoom(c: Ctx, t: Tree, e: Ctx, u: Tree, limit: nat)
    requires OnSpine(e, u, t) && Height(Plug(c, t)) <= limit
    ensures Depth(c) + Depth(e) + 1 < limit
    ensures u.left.Branch? ==> Depth(c) + Depth(e) + 2 < limit
  {
    DepthBound(c, t);
    DepthBound(e, u);
  }

  lemma SpineStep(e: Ctx, u: Tree, t: Tree)
    requires OnSpine(e, u, t) && u.left.Branch?
    ensures OnSpine(InLeft(e, u.node, u.bal, u.right), u.left, t)
  {
  }

  lemma SpineFlags(e: Ctx, u: Tree, t: Tree, hi: Node?)
    requires OnSpine(e, u, t) && Rep(t.right, t.node, hi)
    ensures u.node.leftChild == u.left.Branch? && (u.left.Branch? ==> u.node.left == u.left.node)
  {
    RepPlug(e, u, t.node, hi);
  }

  /** The loop that walks to the successor and records the nodes it passes. */
  method FindNext(node: Node, path: array<Node?>, depth: nat, ghost c: Ctx, ghost t: Tree, ghost hi: Node?)
    returns (next: Node, nextp: Node, idx: nat)
    requires t.Branch? && t.right.Branch? && t.node == node && node.right == t.right.node
    requires Rep(t.right, node, hi) && Height(Plug(c, t)) <= path.Length
    requires depth == Depth(c) < path.Length && path[..depth + 1] == Ancestors(c)
    modifies path
    ensures next == Leftmost(t.right).node && nextp == NextParent(t)
    ensures var e := LeftmostCtx(Top, t.right);
      && idx == depth + 1 + Depth(e) < path.Length
      && path[..depth + 1] == Ancestors(c) && path[depth + 2..idx + 1] == Names(e)
  {
    hide Rep, Height, Plug, OnSpine, Ancestors, Leftmost;
    next, nextp, idx := node.right, node, depth + 1;
    ghost var e, u := Top, t.right;
    SpineStart(t);
    SpineRoom(c, t, e, u, path.Length);
    while true
      invariant OnSpine(e, u, t) && u.Branch? && next == u.node && Rep(t.right, node, hi)
      invariant nextp == if e.Top? then node else e.node
      invariant idx == depth + 1 + Depth(e) < path.Length
      invariant path[..depth + 1] == Ancestors(c) && path[depth + 2..idx + 1] == Names(e)
      decreases u
    {
      SpineFlags(e, u, t, hi);
      SpineRoom(c, t, e, u, path.Length);
      if !next.leftChild {
        SpineEnd(e, u, t);
        return;
      }
      SpineStep(e, u, t);
      idx := idx + 1;
      assert forall n :: n in Nodes(t.right) ==> n as object != path;
      path[idx] := next;
      nextp := next;
      next := next.left;
      e, u := InLeft(e, u.node, u.bal, u.right), u.left;
    }
  }

  lemma SpineStart(t: Tree)
    requires t.Branch? && t.right.Branch?
    ensures OnSpine(Top, t.right, t) && Names(Top) == [] && Depth(Top) == 0
  {
  }

  lemma SpineEnd(e: Ctx, u: Tree, t: Tree)
    requires OnSpine(e, u, t) && u.left.Leaf?
    ensures u.node == Leftmost(t.right).node && e == LeftmostCtx(Top, t.right)
  {
  }

  /** Once the successor is stored at its level, the path leads to where it was. */
  lemma PathBelow(p: seq<Node?>, c: Ctx, t: Tree)
    requires t.Branch? && t.right.Branch?
    requires var e := LeftmostCtx(Top, t.right);
      && |p| > Depth(c) + 1 + Depth(e)
      && p[..Depth(c) + 1] == Ancestors(c) && p[Depth(c) + 1] == Leftmost(t.right).node
      && p[Depth(c) + 2..Depth(c) + 2 + Depth(e)] == Names(e)
    ensures var v := LeftmostCtx(InRight(c, Leftmost(t.right).node, t.bal, t.left), t.right);
      && Depth(v) == Depth(c) + 1 + Depth(LeftmostCtx(Top, t.right))
      && p[..Depth(v) + 1] == Ancestors(v)
  {
    var d := InRight(c, Leftmost(t.right).node, t.bal, t.left);
    var e := LeftmostCtx(Top, t.right);
    LeftmostOver(Top, d, t.right);
    AncestorsOver(e, d);
    hide LeftmostCtx, Leftmost, Names;
    var k, x := Depth(c) + 1, [p[Depth(c) + 1]];
    assert Ancestors(d) == Ancestors(c) + x;
    assert p[..k + 1 + Depth(e)] == p[..k] + x + p[k + 1..k + 1 + Depth(e)];
  }

  /** The thread of the in-order neighbour to a node with one child is replaced by the node's own. */
  method PassThread(node: Node, left: bool, ghost t: Tree, ghost lo: Node?, ghost hi: Node?)
    requires t.Branch? && t.node == node && Distinct(t) && Rep(t, lo, hi)
    requires Child(t, !left).Leaf? && Child(t, left).Branch?
    modifies Nodes(Child(t, left))`left, Nodes(Child(t, left))`right
    ensures Rep(Child(t, left), lo, hi)
    ensures (if left then node.left else node.right) == Child(t, left).node
  {
    if left {
      Allocated(t.left);
      LastIn(t.left);
      var tmp := Last(node.left, t.left, lo, node);
      RethreadLast(tmp, node.right, t.left, lo, node);
    } else {
      Allocated(t.right);
      FirstIn(t.right);
      var tmp := First(node.right, t.right, node, hi);
      RethreadFirst(tmp, node.left, t.right, node, hi);
    }
  }

  lemma {:induction false} FirstIn(t: Tree)
    requires t.Branch?
    ensures Leftmost(t).node in Nodes(t)
  {
    if t.left.Branch? { FirstIn(t.left); }
  }

  // --- Positions -----------------------------------------------------------------------

  /** The node at position i of the sequence, as a subtree and its context. */
  lemma {:induction false} FocusAt(c: Ctx, t: Tree, i: nat) returns (d: Ctx, u: Tree)
    requires i < |Inorder(t)|
    ensures Plug(d, u) == Plug(c, t) && u.Branch? && u.node == Inorder(t)[i]
    ensures |Before(d)| + |Inorder(u.left)| == |Before(c)| + i
    decreases t
  {
    var k := |Inorder(t.left)|;
    if i < k {
      d, u := FocusAt(InLeft(c, t.node, t.bal, t.right), t.left, i);
    } else if i == k {
      d, u := c, t;
    } else {
      d, u := FocusAt(InRight(c, t.node, t.bal, t.left), t.right, i - k - 1);
    }
  }

  /** The right neighbour of a hole is the first node after it. */
  lemma {:induction false} HiIsFirst(c: Ctx)
    ensures Hi(c, null) == if After(c) == [] then null else After(c)[0]
  {
    if c.InRight? { HiIsFirst(c.up); }
  }

  /** The walk down the left children, when none of the nodes is freed. */
  method LiveFirst(start: Node, ghost t: Tree, ghost lo: Node?, ghost hi: Node?) returns (tmp: Node)
    requires t.Branch? && t.node == start && Rep(t, lo, hi)
    requires forall n :: n in Nodes(t) ==> !n.freed
    ensures tmp == Leftmost(t).node
  {
    tmp := start;
    ghost var u, h := t, hi;
    while HasLeft(tmp)
      invariant u.Branch? && u.node == tmp && Rep(u, lo, h) && Leftmost(u) == Leftmost(t)
      invariant Nodes(u) <= Nodes(t)
      decreases u
    {
      h := tmp;
      tmp := Left(tmp);
      u := u.left;
    }
  }

  // Looking into a node is allowed only while it is not freed.

  function HasLeft(n: Node): bool
    reads n
    requires !n.freed
  {
    n.leftChild
  }

  function HasRight(n: Node): bool
    reads n
    requires !n.freed
  {
    n.rightChild
  }

  function Left(n: Node): Node?
    reads n
    requires !n.freed
  {
    n.left
  }

  function Right(n: Node): Node?
    reads n
    requires !n.freed
  {
    n.right
  }
}
