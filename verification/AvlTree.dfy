/** The threaded AVL tree of libchula/avl_generic.c and its public operations. */
module AvlTree {
  import opened AvlSpec
  import opened AvlLaws
  import opened AvlRep

  datatype Result = Ok | Error | NotFound

  /** chula_avl_generic_t. */
  class AvlMap {
    var root: Node?
    ghost var tree: Tree
    const cmp: Comparator
    const isEmpty: Key -> bool

    /** The C structure holds some tree, whether or not it is balanced or sorted. */
    ghost predicate Holds(t: Tree)
      reads this`root
      reads Nodes(t)`balance, Nodes(t)`left, Nodes(t)`right, Nodes(t)`leftChild, Nodes(t)`rightChild
    {
      Rep(t, null, null) && Distinct(t) && root == Link(t, null)
    }

    /** The threaded AVL invariant: shape, threads, balances, order, and no freed node in the tree. */
    ghost predicate Valid()
      reads this, Nodes(tree)
    {
      && Holds(tree) && Avl(tree) && Ascending(Inorder(tree), cmp) && TotalOrder(cmp)
      && Live(tree)
    }

    ghost predicate Live(t: Tree)
      reads Nodes(t)`freed
    {
      forall n :: n in Nodes(t) ==> !n.freed
    }

    /** The map that the tree represents. */
    ghost function Lookup(key: Key): Option<Value>
      reads this, Nodes(tree)
    {
      GetNode(tree, key);
      match Get(Inorder(tree), key, cmp)
      case None => None
      case Some(n) => Some(n.value)
    }

    constructor (cmp: Comparator, isEmpty: Key -> bool)
      requires TotalOrder(cmp)
      ensures Valid() && tree == Leaf && this.cmp == cmp && this.isEmpty == isEmpty
    {
      this.root, this.tree, this.cmp, this.isEmpty := null, Leaf, cmp, isEmpty;
    }

    /** What both loops know at their head: subtree t below context c. */
    ghost predicate At(c: Ctx, t: Tree)
      reads this`root
      reads All(c, t)`balance, All(c, t)`left, All(c, t)`right, All(c, t)`leftChild, All(c, t)`rightChild
    {
      && t.Branch? && Apart(c, t)
      && Rep(t, Lo(c, null), Hi(c, null)) && RepCtx(c, t.node, null, null)
      && root == Outermost(c, t.node)
    }

    /** The link from the parent, or from the root, to the subtree that now stands there. */
    method Relink(parent: Node?, isLeft: bool, top: Node, ghost c: Ctx, ghost t: Tree, ghost was: Node)
      requires t.Branch? && t.node == top && Apart(c, t) && Rep(t, Lo(c, null), Hi(c, null))
      requires RepCtx(c, was, null, null) && root == Outermost(c, was)
      requires parent == Parent(c) && isLeft == c.InLeft?
      modifies this`root
      modifies (if parent == null then {} else {parent})`left, (if parent == null then {} else {parent})`right
      ensures At(c, t)
    {
      hide Rep;
      if parent == null {
        root := top;
      } else if isLeft {
        parent.left := top;
      } else {
        parent.right := top;
      }
    }

    /** node_balance on the node in hand, and the link to it. */
    method Settle(node: Node, parent: Node?, ghost c: Ctx, ghost t: Tree) returns (top: Node, isLeft: bool)
      requires At(c, t) && Tilted(t) && t.node == node && parent == Parent(c)
      modifies this`root, All(c, t)`left, All(c, t)`right
      modifies Nodes(t)`leftChild, Nodes(t)`rightChild, Nodes(t)`balance
      ensures top == Balanced(t).node && At(c, Balanced(t)) && top.balance == Balanced(t).bal
      ensures isLeft == c.InLeft?
    {
      hide Balanced;
      top := node;
      if parent != null { SideIsExact(c, t); }
      isLeft := parent != null && parent.left == node;
      BalancedInorder(t);
      SameInorder(t, Balanced(t));
      if node.balance < -1 || node.balance > 1 {
        AllocatedCtx(c);
        top := NodeBalance(node, t, Lo(c, null), Hi(c, null));
        Relink(parent, isLeft, top, c, Balanced(t), node);
      } else {
        StillBalanced(t);
      }
    }

    /** The subtree in hand is final: the whole tree is its context filled. */
    lemma Finish(c: Ctx, t: Tree)
      requires At(c, t)
      ensures Holds(Plug(c, t))
    {
      RepPlug(c, t, null, null);
      PlugApart(c, t);
    }

    /** One step of a search: the child takes the place of the node, which joins the path. */
    lemma Descend(c: Ctx, t: Tree, left: bool)
      requires At(c, t) && Child(t, left).Branch?
      ensures At(Down(c, t, left), Child(t, left))
      ensures t.node.leftChild == t.left.Branch? && t.node.rightChild == t.right.Branch?
      ensures Child(t, left).node == if left then t.node.left else t.node.right
    {
      DownApart(c, t, left);
    }

    lemma Start(t: Tree)
      requires Holds(t) && t.Branch?
      ensures At(Top, t) && root == t.node && Plug(Top, t) == t
    {
    }

    lemma Flags(c: Ctx, t: Tree)
      requires At(c, t)
      ensures t.node.leftChild == t.left.Branch? && t.node.rightChild == t.right.Branch?
      ensures t.node.balance == t.bal
    {
    }

    /** The new node becomes the left child of a node without one. */
    method AttachLeft(child: Node, node: Node, ghost c: Ctx, ghost t: Tree)
      requires At(c, t) && node == t.node && t.left.Leaf? && child !in All(c, t)
      requires child.balance == 0 && !child.leftChild && !child.rightChild
      modifies child`left, child`right, node`left, node`leftChild, node`balance
      ensures At(c, WithLeaf(t, child, true))
    {
      WithLeafApart(c, t, child, true);
      assert Rep(t.right, node, Hi(c, null)) && node.left == Lo(c, null);
      assert child !in Nodes(t.right) && child !in CtxNodes(c) && child != node;
      hide Apart;
      child.left := node.left;
      child.right := node;
      node.left := child;
      node.leftChild := true;
      node.balance := node.balance - 1;
      RepJoin(WithLeaf(t, child, true).left, Lo(c, null), node);
      RepJoin(WithLeaf(t, child, true), Lo(c, null), Hi(c, null));
    }

    method AttachRight(child: Node, node: Node, ghost c: Ctx, ghost t: Tree)
      requires At(c, t) && node == t.node && t.right.Leaf? && child !in All(c, t)
      requires child.balance == 0 && !child.leftChild && !child.rightChild
      modifies child`left, child`right, node`right, node`rightChild, node`balance
      ensures At(c, WithLeaf(t, child, false))
    {
      WithLeafApart(c, t, child, false);
      assert Rep(t.left, Lo(c, null), node) && node.right == Hi(c, null);
      assert child !in Nodes(t.left) && child !in CtxNodes(c) && child != node;
      hide Apart;
      child.right := node.right;
      child.left := node;
      node.right := child;
      node.rightChild := true;
      node.balance := node.balance + 1;
      RepJoin(WithLeaf(t, child, false).right, node, Hi(c, null));
      RepJoin(WithLeaf(t, child, false), Lo(c, null), Hi(c, null));
    }

    method Attach(child: Node, node: Node, left: bool, ghost c: Ctx, ghost t: Tree)
      requires At(c, t) && node == t.node && Child(t, left).Leaf? && child !in All(c, t)
      requires child.balance == 0 && !child.leftChild && !child.rightChild
      modifies child`left, child`right
      modifies node`left, node`right, node`leftChild, node`rightChild, node`balance
      ensures At(c, WithLeaf(t, child, left))
    {
      hide At;
      if left {
        AttachLeft(child, node, c, t);
      } else {
        AttachRight(child, node, c, t);
      }
    }

    /** The rebalancing loop of node_add. */
    method RebalanceAdd(path: array<Node?>, start: Node, depth: nat, ghost c0: Ctx, ghost t0: Tree, ghost h0: nat)
      requires t0.Branch? && At(c0, t0) && start == t0.node
      requires Grown(t0, h0) && CtxAvl(c0, h0)
      requires depth == Depth(c0) && depth < path.Length && path[..depth + 1] == Ancestors(c0)
      modifies this`root, All(c0, t0)`left, All(c0, t0)`right
      modifies All(c0, t0)`leftChild, All(c0, t0)`rightChild, All(c0, t0)`balance
      ensures Holds(AddUp(c0, t0))
    {
      hide Balanced, Near, Grown, CtxAvl, At, Ancestors, Plug, AddUp;
      var node, idx := start, depth + 1;
      ghost var c, t, h := c0, t0, h0;
      while true
        invariant At(c, t) && t.Branch? && node == t.node && All(c, t) == All(c0, t0)
        invariant Grown(t, h) && CtxAvl(c, h)
        invariant idx == Depth(c) + 1 <= path.Length && path[..idx] == Ancestors(c)
        invariant AddUp(c, t) == AddUp(c0, t0)
        decreases idx
      {
        PathTop(path[..idx], c);
        idx := idx - 1;
        var parent := path[idx];
        var isLeft;
        GrownTilted(t, h);
        BalancedKeepsAll(c, t);
        node, isLeft := Settle(node, parent, c, t);
        ghost var b := Balanced(t);
        if node.balance == 0 || parent == null {
          AddUpStops(c, t);
          Finish(c, b);
          break;
        }
        h := GrownFold(c, t, h);
        Climb(parent, if isLeft then -1 else 1, c, b);
        c, t := c.up, Fold(c, b, if isLeft then -1 else 1);
        node := parent;
      }
    }

    /** The rebalancing loop of chula_avl_generic_del. */
    method RebalanceDel(path: array<Node?>, start: Node, depth: nat, ghost c0: Ctx, ghost t0: Tree, ghost h0: nat)
      requires t0.Branch? && At(c0, t0) && start == t0.node
      requires Reduced(t0, h0) && CtxAvl(c0, h0)
      requires depth == Depth(c0) && depth < path.Length && path[..depth + 1] == Ancestors(c0)
      modifies this`root, All(c0, t0)`left, All(c0, t0)`right
      modifies All(c0, t0)`leftChild, All(c0, t0)`rightChild, All(c0, t0)`balance
      ensures Holds(DelUp(c0, t0))
    {
      hide Balanced, Near, Reduced, CtxAvl, At, Ancestors, Plug, DelUp;
      var node, idx := start, depth + 1;
      ghost var c, t, h := c0, t0, h0;
      while true
        invariant At(c, t) && t.Branch? && node == t.node && All(c, t) == All(c0, t0)
        invariant Reduced(t, h) && CtxAvl(c, h)
        invariant idx == Depth(c) + 1 <= path.Length && path[..idx] == Ancestors(c)
        invariant DelUp(c, t) == DelUp(c0, t0)
        decreases idx
      {
        PathTop(path[..idx], c);
        idx := idx - 1;
        var parent := path[idx];
        var isLeft;
        ReducedTilted(t, h);
        BalancedKeepsAll(c, t);
        node, isLeft := Settle(node, parent, c, t);
        ghost var b := Balanced(t);
        if node.balance != 0 || parent == null {
          DelUpStops(c, t);
          Finish(c, b);
          break;
        }
        h := ReducedFold(c, t, h);
        Climb(parent, if isLeft then 1 else -1, c, b);
        c, t := c.up, Fold(c, b, if isLeft then 1 else -1);
        node := parent;
      }
    }

    /** Tilt, and the loop's view one level up. */
    method Climb(parent: Node, delta: int, ghost c: Ctx, ghost t: Tree)
      requires At(c, t) && !c.Top? && parent == c.node
      modifies parent`balance
      ensures At(c.up, Fold(c, t, delta)) && All(c.up, Fold(c, t, delta)) == All(c, t)
    {
      FoldApart(c, t, delta);
      Tilt(parent, delta, c, t);
    }

    /** A whole tree can be looked at from any of its subtrees. */
    lemma Focus(c: Ctx, t: Tree)
      requires t.Branch? && Holds(Plug(c, t))
      ensures At(c, t)
    {
      RepPlug(c, t, null, null);
      PlugApart(c, t);
    }

    // --- Insertion ---------------------------------------------------------------

    /** Room in the path, and the same search one level down. */
    lemma AddStep(c: Ctx, t: Tree, child: Node, left: bool)
      requires t.Branch? && Child(t, left).Branch? && Height(Plug(c, t)) <= MAX_HEIGHT
      requires var re := Order(cmp, child.key, t.node.key); if left then re < 0 else re > 0
      ensures Depth(c) + 1 < MAX_HEIGHT
      ensures AddFrom(Down(c, t, left), Child(t, left), child, cmp) == AddFrom(c, t, child, cmp)
    {
      hide Order;
      DepthBound(c, t);
    }

    /** The subtree with the new leaf is what the rebalancing loop expects. */
    lemma AddLeaf(c: Ctx, t: Tree, child: Node, left: bool)
      requires t.Branch? && Child(t, left).Leaf? && Avl(Plug(c, t)) && Height(Plug(c, t)) <= MAX_HEIGHT
      requires var re := Order(cmp, child.key, t.node.key); if left then re < 0 else re > 0
      ensures Depth(c) < MAX_HEIGHT && CtxAvl(c, Height(t))
      ensures var u := WithLeaf(t, child, left);
        && Grown(u, Height(t)) && AddFrom(c, t, child, cmp) == Some(AddUp(c, u))
        && Nodes(u) == Nodes(t) + {child}
    {
      hide Order, AddUp;
      DepthBound(c, t);
      PlugAvl(c, t);
      var single := Branch(Leaf, child, 0, Leaf);
      assert Height(single) == 1 && Avl(single);
    }

    /** The search loop of node_add: where the new leaf goes, or that its key is present. */
    method FindSlot(child: Node, path: array<Node?>)
      returns (dup: bool, left: bool, node: Node, depth: nat, ghost c: Ctx, ghost t: Tree)
      requires Valid() && tree.Branch? && Height(tree) <= MAX_HEIGHT && path.Length == MAX_HEIGHT
      modifies path
      ensures t.Branch? && At(c, t) && node == t.node && node in Nodes(tree)
      ensures All(c, t) == Nodes(tree) && Plug(c, t) == tree
      ensures depth == Depth(c) < MAX_HEIGHT && path[..depth + 1] == Ancestors(c)
      ensures AddFrom(c, t, child, cmp) == AddFrom(Top, tree, child, cmp)
      ensures var re := Order(cmp, child.key, t.node.key);
        if dup then re == 0 else Child(t, left).Leaf? && (if left then re < 0 else re > 0)
    {
      hide Order, Avl, AddFrom, Plug, Ancestors, Rep, RepCtx, Height, Apart, Distinct, TotalOrder, Ascending;
      StartSearch();
      node, depth := root, 0;
      path[0] := null;
      c, t, dup, left := Top, tree, false, false;
      while true
        invariant At(c, t) && t.Branch? && node == t.node && All(c, t) == Nodes(tree) && Plug(c, t) == tree
        invariant depth == Depth(c) < MAX_HEIGHT && path[..depth + 1] == Ancestors(c)
        invariant AddFrom(c, t, child, cmp) == AddFrom(Top, tree, child, cmp)
        decreases t
      {
        var re := Order(cmp, child.key, node.key);
        Flags(c, t);
        if re < 0 {
          left := true;
          if !node.leftChild {
            return;
          }
        } else if re > 0 {
          left := false;
          if !node.rightChild {
            return;
          }
        } else {
          dup := true;
          return;
        }
        AddStep(c, t, child, left);
        Descend(c, t, left);
        DownApart(c, t, left);
        depth := depth + 1;
        path[depth] := node;
        node := if left then node.left else node.right;
        c, t := Down(c, t, left), Child(t, left);
      }
    }

    /** node_add: the tree gains the node at its place, or rejects and frees it. */
    method NodeAdd(child: Node) returns (ret: Result)
      requires Valid() && |Inorder(tree)| <= MAX_NODES
      requires child !in Nodes(tree) && child.balance == 0
      requires child.left == null && child.right == null && !child.leftChild && !child.rightChild && !child.freed
      modifies this, child`left, child`right, child`leftChild, child`rightChild, child`balance, child`freed
      modifies Nodes(tree)`left, Nodes(tree)`right, Nodes(tree)`leftChild, Nodes(tree)`rightChild
      modifies Nodes(tree)`balance
      ensures Valid()
      ensures Get(old(Inorder(tree)), child.key, cmp).Some? ==>
        ret == Error && tree == old(tree) && child.freed
      ensures Get(old(Inorder(tree)), child.key, cmp).None? ==>
        && ret == Ok && Inorder(tree) == Add(old(Inorder(tree)), child, cmp) && !child.freed
        && Nodes(tree) == old(Nodes(tree)) + {child}
    {
      hide Order, Avl, TotalOrder, Ascending, Get, Add, AddFrom, Plug, Height;
      if root == null {
        root := child;
        tree := Branch(Leaf, child, 0, Leaf);
        AddToEmpty(child);
        RepJoin(tree, null, null);
        return Ok;
      }
      Allocated(tree);
      AddMeaning(tree, child);
      HeightFits(tree);
      ret := NodeAddBelow(child);
    }

    /** node_add on a tree that is not empty. */
    method NodeAddBelow(child: Node) returns (ret: Result)
      requires Valid() && tree.Branch? && Height(tree) <= MAX_HEIGHT
      requires child !in Nodes(tree) && child.balance == 0 && !child.leftChild && !child.rightChild
      modifies this`root, this`tree, child`left, child`right, child`leftChild, child`rightChild
      modifies child`balance, child`freed
      modifies Nodes(tree)`left, Nodes(tree)`right, Nodes(tree)`leftChild, Nodes(tree)`rightChild
      modifies Nodes(tree)`balance
      ensures Holds(tree)
      ensures match AddFrom(Top, old(tree), child, cmp)
        case None => ret == Error && tree == old(tree) && child.freed
        case Some(u) => ret == Ok && tree == u && child.freed == old(child.freed)
    {
      hide Order, Avl, Exact, TotalOrder, Ascending, AddFrom, AddUp, Plug, Height, At, Holds, Rep, RepCtx, Distinct, Grown, CtxAvl, Nodes;
      var path := new Node?[MAX_HEIGHT];
      var dup, left, node, depth;
      ghost var c, t;
      dup, left, node, depth, c, t := FindSlot(child, path);
      if dup {
        AddDuplicate(c, t, child);
        child.freed := true;
        Finish(c, t);
        return Error;
      }
      AddLeaf(c, t, child, left);
      Attach(child, node, left, c, t);
      ghost var u := WithLeaf(t, child, left);
      tree := AddUp(c, u);
      RebalanceAdd(path, node, depth, c, u, HeightOf(t));
      return Ok;
    }

    lemma AddMeaning(t: Tree, child: Node)
      requires t.Branch? && Avl(t) && Ascending(Inorder(t), cmp) && TotalOrder(cmp)
      ensures match AddFrom(Top, t, child, cmp)
        case None => Get(Inorder(t), child.key, cmp).Some?
        case Some(u) => Get(Inorder(t), child.key, cmp).None? && Inorder(u) == Add(Inorder(t), child, cmp)
                        && Avl(u) && Ascending(Inorder(u), cmp) && Nodes(u) == Nodes(t) + {child}
    {
      hide Order, TotalOrder, Ascending, Get, Add, AddFrom;
      assert [] + Inorder(t) + [] == Inorder(t);
      AddFromInorder(Top, t, child, cmp);
      if AddFrom(Top, t, child, cmp).Some? {
        AddFromAvl(Top, t, child, cmp);
        AddAscends(Inorder(t), child, cmp);
        AddedNodes(t, AddFrom(Top, t, child, cmp).value, child);
      }
    }

    lemma AddedNodes(t: Tree, u: Tree, child: Node)
      requires Inorder(u) == Add(Inorder(t), child, cmp)
      ensures Nodes(u) == Nodes(t) + {child}
    {
      DistinctInorder(t);
      DistinctInorder(u);
      AddedElements(Inorder(t), child, cmp);
    }

    lemma AddToEmpty(child: Node)
      ensures var u := Branch(Leaf, child, 0, Leaf);
        && Inorder(u) == [child] == Add([], child, cmp) && Get([], child.key, cmp).None?
        && Avl(u) && Ascending(Inorder(u), cmp)
    {
    }

    // --- Deletion ------------------------------------------------------------------

    /** The parent of the place where s now stands has lost a level on that side. */
    ghost function Lighter(c: Ctx, s: Tree): Tree
      requires !c.Top?
    {
      Fold(c, s, if c.InLeft? then 1 else -1)
    }

    lemma ShrinkStart(c: Ctx, s: Tree) returns (h: nat)
      requires Avl(s) && CtxAvl(c, Height(s) + 1) && !c.Top?
      ensures Reduced(Lighter(c, s), h) && CtxAvl(c.up, h) && Shrink(c, s) == DelUp(c.up, Lighter(c, s))
    {
      hide DelUp, Avl, Height, Reduced;
      h := 1 + Max(Height(s) + 1, Height(c.sibling));
      if c.InLeft? {
        ReducedLeft(c, s, Height(s) + 1);
      } else {
        ReducedRight(c, s, Height(s) + 1);
      }
    }

    /** Rebalancing from the parent of the place that became lower. */
    method RestoreBalance(path: array<Node?>, pbalance: Node, idx: nat, ghost c: Ctx, ghost s: Tree)
      requires !c.Top? && pbalance == c.node && At(c.up, Lighter(c, s))
      requires Avl(s) && CtxAvl(c, Height(s) + 1)
      requires idx == Depth(c) <= path.Length && path[..idx] == Ancestors(c.up)
      modifies this`root, All(c.up, Lighter(c, s))`left, All(c.up, Lighter(c, s))`right
      modifies All(c.up, Lighter(c, s))`leftChild, All(c.up, Lighter(c, s))`rightChild
      modifies All(c.up, Lighter(c, s))`balance
      ensures Holds(Shrink(c, s))
    {
      hide Avl, CtxAvl, Height, Reduced, DelUp, Shrink, At, Ancestors;
      ghost var h := ShrinkStart(c, s);
      RebalanceDel(path, pbalance, idx - 1, c.up, Lighter(c, s), h);
    }

    lemma PartApart(c: Ctx, t: Tree, left: bool)
      requires t.Branch? && Apart(c, t)
      ensures Apart(c, Child(t, left)) && All(c, Child(t, left)) <= All(c, t) - {t.node}
    {
    }

    /** The node in hand has no children: its parent's link becomes the node's own thread. */
    method UnlinkLeaf(node: Node, parent: Node?, isLeft: bool, ghost c: Ctx, ghost t: Tree)
      requires At(c, t) && t.node == node && t.left.Leaf? && t.right.Leaf?
      requires parent == Parent(c) && isLeft == c.InLeft?
      modifies this`root
      modifies (if parent == null then {} else {parent})`left, (if parent == null then {} else {parent})`right
      modifies (if parent == null then {} else {parent})`leftChild, (if parent == null then {} else {parent})`rightChild
      modifies (if parent == null then {} else {parent})`balance
      ensures c.Top? ==> Holds(Leaf)
      ensures !c.Top? ==> At(c.up, Lighter(c, Leaf))
    {
      PartApart(c, t, true);
      if parent == null {
        root := null;
      } else {
        FoldApart(c, Leaf, if isLeft then 1 else -1);
        if isLeft {
          parent.leftChild := false;
          parent.left := node.left;
          parent.balance := parent.balance + 1;
        } else {
          parent.rightChild := false;
          parent.right := node.right;
          parent.balance := parent.balance - 1;
        }
        RepJoin(Lighter(c, Leaf), Lo(c.up, null), Hi(c.up, null));
      }
    }

    /** The node in hand has one child, whose thread to it moves on; the child takes its place. */
    method UnlinkSingle(node: Node, parent: Node?, isLeft: bool, left: bool, ghost c: Ctx, ghost t: Tree)
      requires At(c, t) && t.node == node && Child(t, !left).Leaf? && Child(t, left).Branch?
      requires parent == Parent(c) && isLeft == c.InLeft?
      modifies this`root, Nodes(t)`left, Nodes(t)`right
      modifies (if parent == null then {} else {parent})`left, (if parent == null then {} else {parent})`right
      modifies (if parent == null then {} else {parent})`balance
      ensures c.Top? ==> Holds(Child(t, left))
      ensures !c.Top? ==> At(c.up, Lighter(c, Child(t, left)))
    {
      hide Plug, Height;
      ghost var s := Child(t, left);
      Allocated(t); AllocatedCtx(c);
      PartApart(c, t, left);
      PassThread(node, left, t, Lo(c, null), Hi(c, null));
      hide Rep;
      var top := if left then node.left else node.right;
      Relink(parent, isLeft, top, c, s, node);
      if parent == null {
        Finish(c, s);
        TopPlug(c, s);
      } else {
        Climb(parent, if isLeft then 1 else -1, c, s);
      }
    }

    lemma TopPlug(c: Ctx, s: Tree)
      requires c.Top?
      ensures Plug(c, s) == s
    {
    }

    /** The node in hand has both children: its successor takes its place, and rebalancing starts
        where the successor was. */
    method RemoveBoth(node: Node, parent: Node?, isLeft: bool, path: array<Node?>, depth: nat,
                      ghost c: Ctx, ghost t: Tree)
      requires t.Branch? && At(c, t) && t.node == node && t.left.Branch? && t.right.Branch?
      requires Avl(t) && CtxAvl(c, Height(t)) && Height(Plug(c, t)) <= MAX_HEIGHT && path.Length == MAX_HEIGHT
      requires parent == Parent(c) && isLeft == c.InLeft?
      requires depth == Depth(c) < MAX_HEIGHT && path[..depth + 1] == Ancestors(c)
      modifies this`root, path, All(c, t)`left, All(c, t)`right
      modifies All(c, t)`leftChild, All(c, t)`rightChild, All(c, t)`balance
      ensures Holds(Removed(c, t))
    {
      hide Avl, CtxAvl, Height, Shrink, Plug, Ancestors, Leftmost, LeftmostCtx, Cut, Distinct, DistinctCtx,
        Replaced, At, NextCtx;
      ghost var v, s := NextCtx(c, t), Leftmost(t.right).right;
      NextCtxAvl(c, t);
      var next, nextp, pbalance, idx := PathToNext(node, path, depth, c, t);
      ReplaceNode(node, next, nextp, parent, isLeft, c, t);
      ReplacedFocus(c, t);
      RestoreBalance(path, pbalance, idx, v, s);
    }

    /** The search for the successor, with the path as the rebalancing loop needs it. */
    method PathToNext(node: Node, path: array<Node?>, depth: nat, ghost c: Ctx, ghost t: Tree)
      returns (next: Node, nextp: Node, pbalance: Node?, idx: nat)
      requires At(c, t) && t.node == node && t.left.Branch? && t.right.Branch?
      requires Height(Plug(c, t)) <= MAX_HEIGHT && path.Length == MAX_HEIGHT
      requires depth == Depth(c) < MAX_HEIGHT && path[..depth + 1] == Ancestors(c)
      modifies path
      ensures At(c, t) && next == Leftmost(t.right).node && nextp == NextParent(t)
      ensures var v := NextCtx(c, t);
        idx == Depth(v) < path.Length && pbalance == Parent(v) && (!v.Top? ==> path[..idx] == Ancestors(v.up))
    {
      hide Height, Plug, Ancestors, Leftmost, LeftmostCtx, Apart;
      Allocated(t); AllocatedCtx(c);
      next, nextp, idx := FindNext(node, path, depth, c, t, Hi(c, null));
      path[depth + 1] := next;
      PathBelow(path[..], c, t);
      pbalance := path[idx];
      ghost var v := NextCtx(c, t);
      assert path[..idx + 1] == Ancestors(v);
      PathTop(path[..idx + 1], v);
      assert path[..idx + 1][..idx] == path[..idx];
    }

    /** The context of the successor's former place, with the successor in the place of the node. */
    ghost function NextCtx(c: Ctx, t: Tree): Ctx
      requires t.Branch? && t.right.Branch?
    {
      LeftmostCtx(InRight(c, Leftmost(t.right).node, t.bal, t.left), t.right)
    }

    lemma NextCtxAvl(c: Ctx, t: Tree)
      requires t.Branch? && t.left.Branch? && t.right.Branch? && Avl(t) && CtxAvl(c, Height(t))
      ensures var v, s := NextCtx(c, t), Leftmost(t.right).right;
        && !v.Top? && Avl(s) && CtxAvl(v, Height(s) + 1) && Removed(c, t) == Shrink(v, s)
    {
      hide Shrink;
      var d := InRight(c, Leftmost(t.right).node, t.bal, t.left);
      assert CtxAvl(d, Height(t.right));
      LeftmostAvl(d, t.right);
      NextParentInside(d, t.right);
    }

    lemma ReplacedFocus(c: Ctx, t: Tree)
      requires t.Branch? && t.right.Branch? && At(c, Replaced(t))
      ensures var v, s := NextCtx(c, t), Leftmost(t.right).right;
        && !v.Top? && At(v.up, Lighter(v, s)) && All(v.up, Lighter(v, s)) == All(c, Replaced(t))
    {
      var v, s := NextCtx(c, t), Leftmost(t.right).right;
      var d := InRight(c, Leftmost(t.right).node, t.bal, t.left);
      NextParentInside(d, t.right);
      assert Plug(v.up, Lighter(v, s)) == Plug(c, Replaced(t)) by {
        if t.right.left.Branch? { CutPlug(d, t.right); }
      }
      Finish(c, Replaced(t));
      Focus(v.up, Lighter(v, s));
      PlugApart(v.up, Lighter(v, s));
      PlugApart(c, Replaced(t));
    }

    /** The pointer surgery that puts the successor in the place of the node. */
    method ReplaceNode(node: Node, next: Node, nextp: Node, parent: Node?, isLeft: bool, ghost c: Ctx, ghost t: Tree)
      requires At(c, t) && t.node == node && t.left.Branch? && t.right.Branch?
      requires next == Leftmost(t.right).node && nextp == NextParent(t)
      requires parent == Parent(c) && isLeft == c.InLeft?
      modifies this`root, All(c, t)`left, All(c, t)`right
      modifies All(c, t)`leftChild, All(c, t)`rightChild, All(c, t)`balance
      ensures At(c, Replaced(t)) && All(c, Replaced(t)) == All(c, t) - {node}
    {
      hide Leftmost, Plug, NextParent, Replaced;
      ReplacedApart(c, t);
      AllocatedCtx(c);
      TakePlace(node, next, nextp, t, Lo(c, null), Hi(c, null));
      ReplacedNode(t);
      Relink(parent, isLeft, next, c, Replaced(t), node);
    }

    lemma ReplacedNode(t: Tree)
      requires t.Branch? && t.right.Branch?
      ensures Replaced(t).Branch? && Replaced(t).node == Leftmost(t.right).node
    {
    }

    /** The search loop of chula_avl_generic_del. */
    method FindKey(key: Key, path: array<Node?>)
      returns (found: bool, node: Node, depth: nat, ghost c: Ctx, ghost t: Tree)
      requires Valid() && tree.Branch? && Height(tree) <= MAX_HEIGHT && path.Length == MAX_HEIGHT
      modifies path
      ensures Search(Top, tree, key, cmp) == if found then Some((c, t)) else None
      ensures found ==> t.Branch? && At(c, t) && node == t.node && node in Nodes(tree) && All(c, t) == Nodes(tree)
      ensures found ==> depth == Depth(c) < MAX_HEIGHT && path[..depth + 1] == Ancestors(c)
    {
      hide Order, Avl, Search, Plug, Ancestors, Rep, RepCtx, Height, Apart, Distinct, TotalOrder, Ascending;
      StartSearch();
      node, depth, found := root, 0, false;
      path[0] := null;
      c, t := Top, tree;
      while true
        invariant At(c, t) && t.Branch? && node == t.node && All(c, t) == Nodes(tree) && Plug(c, t) == tree
        invariant depth == Depth(c) < MAX_HEIGHT && path[..depth + 1] == Ancestors(c)
        invariant Search(c, t, key, cmp) == Search(Top, tree, key, cmp)
        decreases t
      {
        var re := Order(cmp, key, node.key);
        Flags(c, t);
        DepthStep(c, t);
        SearchStep(c, t, key);
        if re == 0 {
          found := true;
          return;
        }
        var left := re < 0;
        if !(if left then node.leftChild else node.rightChild) {
          return;
        }
        Descend(c, t, left);
        DownApart(c, t, left);
        depth := depth + 1;
        path[depth] := node;
        node := if left then node.left else node.right;
        c, t := Down(c, t, left), Child(t, left);
      }
    }

    lemma DepthStep(c: Ctx, t: Tree)
      requires t.Branch? && Height(Plug(c, t)) <= MAX_HEIGHT
      ensures (t.left.Branch? || t.right.Branch?) ==> Depth(c) + 1 < MAX_HEIGHT
    {
      DepthBound(c, t);
    }

    lemma SearchStep(c: Ctx, t: Tree, key: Key)
      requires t.Branch?
      ensures var re := Order(cmp, key, t.node.key);
        Search(c, t, key, cmp) ==
          if re == 0 then Some((c, t))
          else if Child(t, re < 0).Leaf? then None
          else Search(Down(c, t, re < 0), Child(t, re < 0), key, cmp)
    {
      hide Order;
    }

    /** The five structural cases of chula_avl_generic_del, and the rebalancing that follows. */
    method RemoveAt(node: Node, path: array<Node?>, depth: nat, ghost c: Ctx, ghost t: Tree)
      requires t.Branch? && At(c, t) && t.node == node
      requires Avl(t) && CtxAvl(c, Height(t)) && Height(Plug(c, t)) <= MAX_HEIGHT && path.Length == MAX_HEIGHT
      requires depth == Depth(c) < MAX_HEIGHT && path[..depth + 1] == Ancestors(c)
      modifies this`root, path, All(c, t)`left, All(c, t)`right
      modifies All(c, t)`leftChild, All(c, t)`rightChild, All(c, t)`balance
      ensures Holds(Removed(c, t))
    {
      hide Avl, CtxAvl, Height, Shrink, DelUp, Plug, Ancestors, Leftmost, LeftmostCtx, Rep, RepCtx, Distinct;
      PathTop(path[..depth + 1], c);
      assert path[..depth + 1][..depth] == path[..depth];
      var parent := path[depth];
      if parent != null { SideIsExact(c, t); }
      var isLeft := parent != null && node == parent.left;
      Flags(c, t);
      if node.leftChild && node.rightChild {
        RemoveBoth(node, parent, isLeft, path, depth, c, t);
      } else {
        RemoveOuter(node, parent, isLeft, path, depth, c, t);
      }
    }

    /** The cases with at most one child. */
    method RemoveOuter(node: Node, parent: Node?, isLeft: bool, path: array<Node?>, depth: nat,
                       ghost c: Ctx, ghost t: Tree)
      requires t.Branch? && At(c, t) && t.node == node && (t.left.Leaf? || t.right.Leaf?)
      requires Avl(t) && CtxAvl(c, Height(t))
      requires parent == Parent(c) && isLeft == c.InLeft?
      requires depth == Depth(c) <= path.Length && (!c.Top? ==> path[..depth] == Ancestors(c.up))
      modifies this`root, All(c, t)`left, All(c, t)`right
      modifies All(c, t)`leftChild, All(c, t)`rightChild, All(c, t)`balance
      ensures Holds(Removed(c, t))
    {
      hide Avl, CtxAvl, Height, DelUp, Plug, Ancestors, Rep, RepCtx, Distinct;
      Flags(c, t);
      OuterRemoved(c, t);
      ghost var s := if t.left.Leaf? then t.right else t.left;
      PartKept(c, t, t.right.Leaf?);
      if !node.leftChild && !node.rightChild {
        UnlinkLeaf(node, parent, isLeft, c, t);
      } else {
        UnlinkSingle(node, parent, isLeft, node.leftChild, c, t);
      }
      if parent != null {
        hide Shrink, At;
        RestoreBalance(path, parent, depth, c, s);
      }
    }

    lemma OuterRemoved(c: Ctx, t: Tree)
      requires t.Branch? && (t.left.Leaf? || t.right.Leaf?) && Avl(t) && CtxAvl(c, Height(t))
      ensures var s := if t.left.Leaf? then t.right else t.left;
        && Avl(s) && CtxAvl(c, Height(s) + 1) && Removed(c, t) == Shrink(c, s)
    {
      hide Shrink;
    }

    lemma PartKept(c: Ctx, t: Tree, left: bool)
      requires t.Branch? && Apart(c, t)
      ensures !c.Top? ==> All(c.up, Lighter(c, Child(t, left))) <= All(c, t)
    {
      PartApart(c, t, left);
      if !c.Top? { FoldApart(c, Child(t, left), if c.InLeft? then 1 else -1); }
    }

    /** chula_avl_generic_del. */
    method Del(key: Key) returns (ret: Result, value: Option<Value>)
      requires Valid() && |Inorder(tree)| <= MAX_NODES
      modifies this, Nodes(tree)`left, Nodes(tree)`right, Nodes(tree)`leftChild, Nodes(tree)`rightChild
      modifies Nodes(tree)`balance, Nodes(tree)`freed
      ensures Valid()
      ensures isEmpty(key) ==> ret == Error && tree == old(tree) && value == None
      ensures !isEmpty(key) && Get(old(Inorder(tree)), key, cmp).None? ==>
        ret == NotFound && tree == old(tree) && value == None
      ensures !isEmpty(key) && Get(old(Inorder(tree)), key, cmp).Some? ==>
        && ret == Ok && Inorder(tree) == Remove(old(Inorder(tree)), key, cmp)
        && var n := Get(old(Inorder(tree)), key, cmp).value;
           value == Some(n.value) && n.freed && n !in Nodes(tree)
      ensures Nodes(tree) <= old(Nodes(tree))
      ensures forall n :: old(allocated(n)) && n in Nodes(tree) ==> n.freed == old(n.freed)
    {
      hide Order, Avl, TotalOrder, Ascending, Get, Remove, Search, Plug, Height, Removed, Ancestors;
      ret, value := Error, None;
      if isEmpty(key) {
        return;
      }
      if root == null {
        GetFromEmpty(key);
        return NotFound, None;
      }
      Allocated(tree);
      HeightFits(tree);
      DelMeaning(tree, key);
      var path := new Node?[MAX_HEIGHT];
      ret, value := DelBelow(key, path);
    }

    lemma GetFromEmpty(key: Key)
      ensures Get([], key, cmp).None?
    {
    }

    method DelBelow(key: Key, path: array<Node?>) returns (ret: Result, value: Option<Value>)
      requires Valid() && tree.Branch? && Height(tree) <= MAX_HEIGHT && path.Length == MAX_HEIGHT
      modifies this`root, this`tree, path
      modifies Nodes(tree)`left, Nodes(tree)`right, Nodes(tree)`leftChild, Nodes(tree)`rightChild
      modifies Nodes(tree)`balance, Nodes(tree)`freed
      ensures Holds(tree)
      ensures match Search(Top, old(tree), key, cmp)
        case None => ret == NotFound && value == None && tree == old(tree) && forall n :: old(allocated(n)) && n in Nodes(tree) ==> n.freed == old(n.freed)
        case Some((c, t)) =>
          && ret == Ok && tree == Removed(c, t) && value == Some(t.node.value) && t.node.freed
          && forall n :: old(allocated(n)) && n in old(Nodes(tree)) && n != t.node ==> n.freed == old(n.freed)
    {
      hide Order, Avl, CtxAvl, TotalOrder, Ascending, Search, Plug, Height, Removed, Ancestors, Holds, At,
        Rep, RepCtx, Distinct, Nodes;
      Allocated(tree);
      PlugSearch(tree, key);
      DelMeaning(tree, key);
      var found, node, depth;
      ghost var c, t;
      found, node, depth, c, t := FindKey(key, path);
      if !found {
        return NotFound, None;
      }
      value := Some(node.value);
      tree := Removed(c, t);
      RemoveAt(node, path, depth, c, t);
      node.freed := true;
      ret := Ok;
    }

    lemma PlugSearch(t: Tree, key: Key)
      requires t.Branch? && Avl(t)
      ensures match Search(Top, t, key, cmp)
        case None => true
        case Some((c, u)) => Avl(u) && CtxAvl(c, Height(u)) && Plug(c, u) == t
    {
      var r := Search(Top, t, key, cmp);
      if r.Some? { PlugAvl(r.value.0, r.value.1); }
    }

    lemma DelMeaning(t: Tree, key: Key)
      requires t.Branch? && Avl(t) && Ascending(Inorder(t), cmp) && TotalOrder(cmp)
      ensures match Search(Top, t, key, cmp)
        case None => Get(Inorder(t), key, cmp).None?
        case Some((c, u)) =>
          && Get(Inorder(t), key, cmp) == Some(u.node) && Inorder(Removed(c, u)) == Remove(Inorder(t), key, cmp)
          && Avl(Removed(c, u)) && Ascending(Inorder(Removed(c, u)), cmp)
          && u.node !in Nodes(Removed(c, u)) && Nodes(Removed(c, u)) <= Nodes(t)
    {
      hide Order, TotalOrder, Ascending, Get, Remove, Search, Removed;
      assert [] + Inorder(t) + [] == Inorder(t);
      SearchFinds(Top, t, key, cmp);
      var r := Search(Top, t, key, cmp);
      if r.Some? {
        var (c, u) := r.value;
        PlugAvl(c, u);
        RemovedAvl(c, u);
        RemovedInorder(c, u);
        RemoveAscends(Inorder(t), key, cmp);
        RemovedNodes(t, key, Removed(c, u), u.node);
      }
    }

    lemma RemovedNodes(t: Tree, key: Key, r: Tree, n: Node)
      requires Ascending(Inorder(t), cmp) && TotalOrder(cmp)
      requires Get(Inorder(t), key, cmp) == Some(n) && Inorder(r) == Remove(Inorder(t), key, cmp)
      ensures n !in Nodes(r) && Nodes(r) <= Nodes(t)
    {
      hide Order, TotalOrder, Ascending, Get, Remove;
      DistinctInorder(t);
      DistinctInorder(r);
      GetIsMembership(Inorder(t), key, cmp, n);
      RemoveMembers(Inorder(t), key, cmp, n);
      forall x | x in Inorder(r) ensures x in Inorder(t) { RemoveMembers(Inorder(t), key, cmp, x); }
    }

    // --- Lookup and iteration --------------------------------------------------------

    /** chula_avl_generic_get. */
    method GetValue(key: Key) returns (ret: Result, value: Option<Value>)
      requires Valid()
      ensures isEmpty(key) ==> ret == Error
      ensures !isEmpty(key) ==>
        match Get(Inorder(tree), key, cmp)
        case None => ret == NotFound
        case Some(n) => ret == Ok && value == Some(n.value)
    {
      hide Order, Avl, TotalOrder, Ascending, Get, Remove, Search;
      ret, value := Error, None;
      if isEmpty(key) {
        return;
      }
      if root == null {
        GetFromEmpty(key);
        return NotFound, None;
      }
      DelMeaning(tree, key);
      var node := root;
      ghost var c, t, lo: Node?, hi: Node? := Top, tree, null, null;
      while true
        invariant t.Branch? && node == t.node && Rep(t, lo, hi)
        invariant Search(c, t, key, cmp) == Search(Top, tree, key, cmp)
        decreases t
      {
        var re := Order(cmp, key, node.key);
        SearchStep(c, t, key);
        if re == 0 {
          return Ok, Some(node.value);
        } else if re < 0 {
          if !node.leftChild {
            return NotFound, None;
          }
          c, t, hi := Down(c, t, true), t.left, node;
          node := node.left;
        } else {
          if !node.rightChild {
            return NotFound, None;
          }
          c, t, lo := Down(c, t, false), t.right, node;
          node := node.right;
        }
      }
    }

    // --- The tree as a finite map ------------------------------------------------------

    /** chula_avl_generic_add: a new key is defined, a key that is present is rejected and its node freed. */
    method AddValue(n: Node, value: Value) returns (ret: Result)
      requires Valid() && |Inorder(tree)| <= MAX_NODES
      requires n !in Nodes(tree) && n.balance == 0
      requires n.left == null && n.right == null && !n.leftChild && !n.rightChild && !n.freed
      modifies this, n
      modifies Nodes(tree)`left, Nodes(tree)`right, Nodes(tree)`leftChild, Nodes(tree)`rightChild
      modifies Nodes(tree)`balance
      ensures Valid()
      ensures ret == Ok <==> !isEmpty(n.key) && old(Lookup(n.key)).None?
      ensures ret == Ok || ret == Error
      ensures forall k ::
        Lookup(k) == if ret == Ok && Order(cmp, k, n.key) == 0 then Some(value) else old(Lookup(k))
      ensures ret == Ok ==> n in Nodes(tree)
      ensures ret != Ok ==> tree == old(tree) && n.freed == !isEmpty(n.key)
    {
      hide Order, Avl, TotalOrder, Ascending, Get, Add, Holds;
      if isEmpty(n.key) {
        return Error;
      }
      n.value := value;
      ghost var was := tree;
      Allocated(tree);
      ret := NodeAdd(n);
      forall k ensures Lookup(k) == if ret == Ok && Order(cmp, k, n.key) == 0 then Some(value) else old(Lookup(k)) {
        GetNode(was, k);
        GetNode(tree, k);
        if ret == Ok { AddIsMapUpdate(Inorder(was), n, cmp, k); }
      }
    }

    /** chula_avl_generic_del: exactly the keys that compare equal become undefined. */
    method DelKey(key: Key) returns (ret: Result, value: Option<Value>)
      requires Valid() && |Inorder(tree)| <= MAX_NODES
      modifies this, Nodes(tree)`left, Nodes(tree)`right, Nodes(tree)`leftChild, Nodes(tree)`rightChild
      modifies Nodes(tree)`balance, Nodes(tree)`freed
      ensures Valid()
      ensures ret == if isEmpty(key) then Error else if old(Lookup(key)).None? then NotFound else Ok
      ensures value == if isEmpty(key) then None else old(Lookup(key))
      ensures forall k :: Lookup(k) == if ret == Ok && Order(cmp, k, key) == 0 then None else old(Lookup(k))
    {
      hide Order, Avl, TotalOrder, Ascending, Get, Remove, Holds;
      ghost var was := tree;
      Allocated(tree);
      GetNode(tree, key);
      ret, value := Del(key);
      forall k ensures Lookup(k) == if ret == Ok && Order(cmp, k, key) == 0 then None else old(Lookup(k)) {
        GetNode(was, k);
        GetNode(tree, k);
        if ret == Ok { RemoveIsMapRemoval(Inorder(was), key, cmp, k); }
      }
    }

    lemma GetNode(t: Tree, key: Key)
      ensures var g := Get(Inorder(t), key, cmp); g.Some? ==> g.value in Nodes(t)
    {
      DistinctInorder(t);
      GetInside(Inorder(t), key, cmp);
    }

    // --- Iteration and teardown --------------------------------------------------------

    /** node_next, reading only nodes that are not freed. */
    method NodeNext(node: Node, ghost i: nat) returns (tmp: Node?)
      requires Holds(tree) && i < |Inorder(tree)| && Inorder(tree)[i] == node
      requires forall k :: i <= k < |Inorder(tree)| ==> !Inorder(tree)[k].freed
      ensures tmp == if i + 1 < |Inorder(tree)| then Inorder(tree)[i + 1] else null
    {
      ghost var c, t := FocusAt(Top, tree, i);
      Focus(c, t);
      NextAt(c, t, i);
      hide Distinct, Inorder;
      tmp := Right(node);
      if HasRight(node) {
        forall n | n in Nodes(t.right) ensures !n.freed {
          DistinctInorder(t.right);
          var j :| 0 <= j < |Inorder(t.right)| && Inorder(t.right)[j] == n;
          assert Inorder(tree)[i + 1 + j] == n;
        }
        tmp := LiveFirst(tmp, t.right, node, Hi(c, null));
      }
    }

    lemma NextAt(c: Ctx, t: Tree, i: nat)
      requires t.Branch? && Plug(c, t) == tree && i == |Before(c)| + |Inorder(t.left)|
      ensures var s := Inorder(tree);
        && |s| == i + 1 + |Inorder(t.right)| + |After(c)|
        && (forall j :: 0 <= j < |Inorder(t.right)| ==> s[i + 1 + j] == Inorder(t.right)[j])
        && (if t.right.Branch? then Leftmost(t.right).node else Hi(c, null)) ==
           (if i + 1 < |s| then s[i + 1] else null)
    {
      PlugInorder(c, t);
      Regroup(Before(c), Inorder(t.left), [t.node], Inorder(t.right), After(c));
      HiIsFirst(c);
      if t.right.Branch? { CutInorder(t.right); }
      NextOf(Before(c), Inorder(t.left), t.node, Inorder(t.right), After(c), i);
    }

    lemma NextOf(b: seq<Node>, l: seq<Node>, n: Node, r: seq<Node>, a: seq<Node>, i: nat)
      requires i == |b| + |l|
      ensures var s := b + (l + [n] + r) + a;
        && |s| == i + 1 + |r| + |a|
        && (forall j :: 0 <= j < |r| ==> s[i + 1 + j] == r[j])
        && (r == [] && a != [] ==> s[i + 1] == a[0])
    {
    }

    /** node_first, and what it finds in the tree that remains. */
    method NodeFirst() returns (tmp: Node?)
      requires Holds(tree) && Live(tree)
      ensures tmp == if Inorder(tree) == [] then null else Inorder(tree)[0]
    {
      tmp := root;
      if tmp != null {
        CutInorder(tree);
        DistinctInorder(tree);
        tmp := LiveFirst(tmp, tree, null, null);
      }
    }

    /** chula_avl_generic_while: the callback sees the keys in ascending order until it declines. */
    method While(func: Key -> bool) returns (ok: bool, visited: seq<Node>)
      requires Valid()
      ensures visited <= Inorder(tree)
      ensures ok ==> visited == Inorder(tree) && forall n :: n in visited ==> func(n.key)
      ensures !ok ==> visited != [] && !func(visited[|visited| - 1].key)
      ensures !ok ==> forall n :: n in visited[..|visited| - 1] ==> func(n.key)
    {
      hide Avl, Ascending, TotalOrder, Inorder, Holds;
      ok, visited := true, [];
      Allocated(tree);
      LiveInorder(tree);
      HeldInorder(tree);
      var node := NodeFirst();
      while node != null
        invariant Holds(tree) && forall k :: 0 <= k < |Inorder(tree)| ==> !Inorder(tree)[k].freed
        invariant |visited| <= |Inorder(tree)| && visited == Inorder(tree)[..|visited|]
        invariant node == if |visited| < |Inorder(tree)| then Inorder(tree)[|visited|] else null
        invariant forall n :: n in visited ==> func(n.key)
        decreases |Inorder(tree)| - |visited|
      {
        visited := visited + [node];
        if !func(node.key) {
          ok := false;
          return;
        }
        Allocated(tree);
        HeldInorder(tree);
        node := NodeNext(node, |visited| - 1);
      }
    }

    lemma LiveInorder(t: Tree)
      requires Live(t)
      ensures forall k :: 0 <= k < |Inorder(t)| ==> !Inorder(t)[k].freed
    {
      DistinctInorder(t);
    }

    /** chula_avl_mrproper: every node is freed exactly once, in ascending order; the walk reads the
        thread out of a node before freeing it and never looks at a freed one. */
    method MrProper() returns (order: seq<Node>)
      requires Valid()
      modifies Nodes(tree)`freed
      ensures order == Inorder(tree) && NoDuplicates(order)
      ensures forall n :: n in Nodes(tree) ==> n.freed
    {
      hide Avl, Ascending, TotalOrder, Inorder, Holds, Nodes;
      order := [];
      Allocated(tree);
      LiveInorder(tree);
      HeldInorder(tree);
      var node := NodeFirst();
      while node != null
        invariant Holds(tree)
        invariant |order| <= |Inorder(tree)| && order == Inorder(tree)[..|order|]
        invariant node == if |order| < |Inorder(tree)| then Inorder(tree)[|order|] else null
        invariant forall k :: 0 <= k < |Inorder(tree)| ==> (Inorder(tree)[k].freed <==> k < |order|)
        decreases |Inorder(tree)| - |order|
      {
        Allocated(tree);
        HeldInorder(tree);
        var next := NodeNext(node, |order|);
        NodeFree(node);
        order := order + [node];
        node := next;
      }
    }

    lemma HeldInorder(t: Tree)
      requires Holds(t)
      ensures NoDuplicates(Inorder(t)) && Nodes(t) == Elements(Inorder(t))
      ensures forall k :: 0 <= k < |Inorder(t)| ==> allocated(Inorder(t)[k])
    {
      DistinctInorder(t);
      Allocated(t);
      forall k | 0 <= k < |Inorder(t)| ensures allocated(Inorder(t)[k]) { assert Inorder(t)[k] in Nodes(t); }
    }

    /** node_free: a node is released at most once. */
    method NodeFree(node: Node)
      requires !node.freed
      modifies node`freed
      ensures node.freed
    {
      node.freed := true;
    }

    ghost function HeightOf(t: Tree): nat {
      Height(t)
    }

    lemma AddDuplicate(c: Ctx, t: Tree, child: Node)
      requires t.Branch? && Order(cmp, child.key, t.node.key) == 0
      ensures AddFrom(c, t, child, cmp).None?
    {
    }

    lemma StartSearch()
      requires Valid() && tree.Branch?
      ensures At(Top, tree) && root == tree.node && Plug(Top, tree) == tree
      ensures All(Top, tree) == Nodes(tree) && Ancestors(Top) == [null] && Depth(Top) == 0
    {
    }
  }
}
