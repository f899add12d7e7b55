/** The tree of huffman-gen.py (class bTree) and the generation of the decoding table. */
module HuffmanGen {
  import opened Bits
  import opened HuffmanCode
  import opened HuffmanTable

  class Node {
    var id: int              // node_id; -1 stands for None
    var zero: Node?          // children[0]
    var one: Node?           // children[1]

    constructor (id: int)
      ensures this.id == id && zero == null && one == null
    {
      this.id, zero, one := id, null, null;
    }
  }

  function Child(n: Node, b: bool): Node?
    reads n`zero, n`one
  {
    if b then n.one else n.zero
  }

  predicate IsLeaf(n: Node)
    reads n`zero, n`one
  {
    n.zero == null && n.one == null
  }

  /** The nodes of a tree by their paths from the root. */
  type Nodes = map<Path, Node>

  /** The child pointers are exactly the edges between the paths, and no node is shared. */
  ghost predicate Wired(nodes: Nodes)
    reads nodes.Values`zero, nodes.Values`one
  {
    && [] in nodes
    && (forall p, b :: p in nodes ==> Child(nodes[p], b) == Lookup(nodes, p + [b]))
    && (forall p, q :: p in nodes && q in nodes && p != q ==> nodes[p] != nodes[q])
  }

  ghost function Lookup(nodes: Nodes, p: Path): Node? {
    if p in nodes then nodes[p] else null
  }

  ghost predicate PrefixClosed(nodes: Nodes) {
    forall p, b :: p + [b] in nodes ==> p in nodes
  }

  lemma Unshared(nodes: Nodes, p: Path, q: Path)
    requires Wired(nodes) && p in nodes && q in nodes && p != q
    ensures nodes[p] != nodes[q]
  {
  }

  lemma SameEnd(p: Path, b: bool, q: Path, c: bool)
    ensures p + [b] == q + [c] ==> p == q && b == c
  {
    if p + [b] == q + [c] {
      assert |p| == |q|;
      assert p == (p + [b])[..|p|] && q == (q + [c])[..|q|];
      assert b == (p + [b])[|p|] && c == (q + [c])[|q|];
    }
  }

  /** A new leaf is hooked in below p. */
  method AddChild(pos: Node, b: bool, ghost nodes: Nodes, ghost p: Path) returns (child: Node, ghost more: Nodes)
    requires Wired(nodes) && PrefixClosed(nodes) && p in nodes && nodes[p] == pos && p + [b] !in nodes
    modifies pos`zero, pos`one
    ensures fresh(child) && child.id == -1
    ensures more == nodes[p + [b] := child] && Wired(more) && PrefixClosed(more)
  {
    child := new Node(-1);
    more := nodes[p + [b] := child];
    if b {
      pos.one := child;
    } else {
      pos.zero := child;
    }
    forall q, c | q in more ensures Child(more[q], c) == Lookup(more, q + [c]) {
      SameEnd(p, b, q, c);
      if q == p + [b] {
        assert q + [c] !in nodes;
        assert |q + [c]| > |p + [b]|;
      }
    }
    forall q, c | q + [c] in more ensures q in more {
      SameEnd(p, b, q, c);
    }
  }

  /** class bTree, seen from its root. */
  class CodeTree {
    const root: Node
    ghost var nodes: Nodes

    ghost predicate Shaped()
      reads this, nodes.Values`zero, nodes.Values`one
    {
      Wired(nodes) && PrefixClosed(nodes) && nodes[[]] == root
    }

    constructor ()
      ensures Shaped() && fresh(root) && nodes == map[[] := root]
    {
      root := new Node(0);
      new;
      nodes := map[[] := root];
    }

    /** One step of buildFromLeaf: to the child, which is created if there is none. */
    method Enter(pos: Node, b: bool, ghost p: Path) returns (child: Node)
      requires Shaped() && p in nodes && nodes[p] == pos
      modifies this`nodes, pos`zero, pos`one
      ensures Shaped() && nodes.Keys == old(nodes.Keys) + {p + [b]} && child == nodes[p + [b]]
      ensures old(nodes) == map q | q in old(nodes) :: nodes[q]
      ensures p + [b] !in old(nodes) ==> fresh(child) && child.id == -1
      ensures nodes.Values == old(nodes.Values) + {child}
    {
      if Child(pos, b) == null {
        ghost var more;
        child, more := AddChild(pos, b, nodes, p);
        NewValues(nodes, p + [b], child);
        nodes := more;
      } else {
        child := Child(pos, b);
      }
    }

    /** The nodes on the path exist afterwards. */
    method EnterAll(path: Path) returns (pos: Node)
      requires Shaped()
      modifies this`nodes, nodes.Values`zero, nodes.Values`one
      ensures Shaped() && nodes.Keys == old(nodes.Keys) + Prefixes(path)
      ensures path in nodes && nodes[path] == pos
      ensures forall p :: p in old(nodes) ==> nodes[p] == old(nodes)[p]
      ensures fresh(nodes.Values - old(nodes.Values))
    {
      assert [] in nodes && nodes[[]] == root;
      hide Wired, PrefixClosed, Prefixes;
      ghost var was := nodes;
      pos := root;
      assert path[..0] == [];
      PrefixesStep(path, 0);
      for i := 0 to |path|
        modifies this`nodes, was.Values`zero, was.Values`one
        invariant Shaped() && fresh(nodes.Values - was.Values)
        invariant path[..i] in nodes && nodes[path[..i]] == pos
        invariant nodes.Keys == was.Keys + Prefixes(path[..i])
        invariant forall p :: p in was ==> nodes[p] == was[p]
      {
        PrefixesStep(path, i);
        pos := Enter(pos, path[i], path[..i]);
      }
      assert path[..|path|] == path;
    }

    /** buildFromLeaf: the nodes on the path exist afterwards, and the last one carries the symbol. */
    method BuildFromLeaf(path: Path, leafId: int)
      requires Shaped()
      modifies this`nodes, nodes.Values`zero, nodes.Values`one, nodes.Values`id
      ensures Shaped() && nodes.Keys == old(nodes.Keys) + Prefixes(path)
      ensures path in nodes && nodes[path].id == leafId
      ensures forall p :: p in old(nodes) ==> nodes[p] == old(nodes)[p]
      ensures forall p :: p in old(nodes) && p != path ==> nodes[p].id == old(nodes[p].id)
      ensures fresh(nodes.Values - old(nodes.Values))
    {
      hide Wired, PrefixClosed, Prefixes;
      ghost var was := nodes;
      var pos := EnterAll(path);
      assert nodes[path] in nodes.Values;
      forall p | p in was && p != path ensures nodes[p] != pos { Unshared(nodes, p, path); }
      pos.id := leafId;
    }

    /** The popped node is numbered. */
    method NumberNode(pos: Node, nodeId: nat, ghost code: Code, ghost order: seq<Path>)
      requires Shaped() && Good(code) && Covers(code, nodes) && LeafIds(code, nodes, |code|)
      requires nodeId < |order| && Numbered(order, nodes, nodeId) && NoRepeats(order)
      requires order[nodeId] in nodes && pos == nodes[order[nodeId]] && order[nodeId] !in code
      modifies pos`id
      ensures Shaped() && Numbered(order, nodes, nodeId + 1) && LeafIds(code, nodes, |code|)
    {
      hide Good, Inner, Covers, PrefixClosed, Wired;
      forall k | 0 <= k < nodeId ensures nodes[order[k]] != pos { Unshared(nodes, order[k], order[nodeId]); }
      forall j | 0 <= j < |code| ensures nodes[code[j]] != pos {
        assert code[j] in code;
        Unshared(nodes, code[j], order[nodeId]);
      }
      pos.id := nodeId;
    }

    /** One round of assignIds: the node on top of the stack is popped and visited. */
    method VisitTop(stack: seq<Node?>, nodeId: nat, ghost code: Code, ghost order: seq<Path>, ghost paths: seq<Path>)
      returns (pending: seq<Node?>, next: nat, ghost more: seq<Path>)
      requires Shaped() && Good(code) && Covers(code, nodes) && LeafIds(code, nodes, |code|)
      requires nodeId <= |order| && Numbered(order, nodes, nodeId) && NoRepeats(order)
      requires Visiting(code, nodes, stack, paths, order, nodeId) && stack != []
      modifies nodes.Values`id
      ensures Shaped() && LeafIds(code, nodes, |code|)
      ensures next <= |order| && Numbered(order, nodes, next)
      ensures Visiting(code, nodes, pending, more, order, next)
      ensures next == nodeId + 1 || (next == nodeId && |pending| < |stack|)
    {
      assert Wired(nodes);
      hide *;
      Pop(code, nodes, stack, paths, order, nodeId);
      var n := |stack| - 1;
      ghost var p := paths[n];
      var pos := stack[n];
      pending, more, next := stack[..n], paths[..n], nodeId;
      if pos != null {
        if !IsLeaf(pos) {
          assert pos in nodes.Values;
          pending, more := pending + [pos.one, pos.zero], more + [p + [true], p + [false]];
          next := nodeId + 1;
          NumberNode(pos, nodeId, code, order);
        }
      }
    }

    /** assignIds: the inner nodes are numbered in preorder, the leaves keep their symbols. */
    method AssignIds(ghost code: Code, ghost order: seq<Path>)
      requires Shaped() && Good(code) && Covers(code, nodes) && LeafIds(code, nodes, |code|)
      requires Visiting(code, nodes, [root], [[]], order, 0) && NoRepeats(order)
      modifies nodes.Values`id
      ensures Shaped() && LeafIds(code, nodes, |code|) && Numbered(order, nodes, |order|)
    {
      assert Numbered(order, nodes, 0);
      hide *;
      var nodeId := 0;
      var pending: seq<Node?> := [root];
      ghost var paths := [[]];
      while pending != []
        invariant Shaped() && LeafIds(code, nodes, |code|)
        invariant Visiting(code, nodes, pending, paths, order, nodeId)
        invariant nodeId <= |order| && Numbered(order, nodes, nodeId)
        decreases |order| - nodeId, |pending|
      {
        pending, nodeId, paths := VisitTop(pending, nodeId, code, order, paths);
      }
      PendingEmpty(code, nodes, pending, paths, order, nodeId);
    }

    /** One round of getNodes: the node on top of the stack is popped and, unless it is a leaf, yielded. */
    method YieldTop(stack: seq<Node?>, found: seq<Node>, ghost code: Code, ghost order: seq<Path>, ghost paths: seq<Path>)
      returns (pending: seq<Node?>, next: seq<Node>, ghost more: seq<Path>)
      requires Shaped() && Good(code) && Covers(code, nodes)
      requires FoundAre(order, nodes, found) && Visiting(code, nodes, stack, paths, order, |found|) && stack != []
      ensures FoundAre(order, nodes, next) && Visiting(code, nodes, pending, more, order, |next|)
      ensures |next| == |found| + 1 || (next == found && |pending| < |stack|)
    {
      assert Wired(nodes);
      hide *;
      Pop(code, nodes, stack, paths, order, |found|);
      var n := |stack| - 1;
      ghost var p := paths[n];
      var pos := stack[n];
      pending, more, next := stack[..n], paths[..n], found;
      if pos != null {
        if !IsLeaf(pos) {
          NextFound(order, nodes, found, pos);
          next := found + [pos];
          pending, more := pending + [pos.one, pos.zero], more + [p + [true], p + [false]];
        }
      }
    }

    /** getNodes (without leaves): the inner nodes in the order of their numbers. */
    method GetNodes(ghost code: Code, ghost order: seq<Path>) returns (found: seq<Node>)
      requires Shaped() && Good(code) && Covers(code, nodes)
      requires Visiting(code, nodes, [root], [[]], order, 0)
      ensures |found| == |order| && FoundAre(order, nodes, found)
    {
      assert FoundAre(order, nodes, []);
      hide Good, Covers, Shaped, Visiting, Pending, StackOf;
      found := [];
      var pending: seq<Node?> := [root];
      ghost var paths := [[]];
      while pending != []
        invariant Visiting(code, nodes, pending, paths, order, |found|)
        invariant FoundAre(order, nodes, found)
        decreases |order| - |found|, |pending|
      {
        pending, found, paths := YieldTop(pending, found, code, order, paths);
      }
      PendingEmpty(code, nodes, pending, paths, order, |found|);
    }

    /** traverse: follows the path, going back to the root from every leaf. */
    method Traverse(start: Node, path: Path, ghost code: Code, ghost p: Path)
      returns (end: Node, decoded: seq<int>, visited: seq<int>)
      requires Shaped() && Good(code) && Covers(code, nodes) && LeafIds(code, nodes, |code|)
      requires p in nodes && nodes[p] == start
      ensures Arrives(code, nodes, if p in code then [] else p, path, end, decoded, visited)
    {
      assert PrefixFree(code) && Wired(nodes) && [] in nodes && nodes[[]] == root;
      RootIsInner(code);
      LeafIsWord(code, nodes, p);
      hide *;
      var pos := start;
      ghost var from := if p in code then [] else p;
      if IsLeaf(pos) { pos := root; }
      decoded, visited := [], [];
      ghost var at, trail := from, [];
      TraverseStart(code, nodes, from, path);
      for i := 0 to |path|
        invariant at in nodes && nodes[at] == pos && at !in code
        invariant IdsOf(nodes, trail, visited)
        invariant Ahead(code, from, path, at, path[i..], decoded, trail)
      {
        LeafIsWord(code, nodes, at);
        TraverseStep(code, nodes, from, path, i, at, decoded, trail, visited);
        visited := visited + [pos.id];
        trail := trail + [at];
        pos := Child(pos, path[i]);
        at := at + [path[i]];
        LeafIsWord(code, nodes, at);
        if IsLeaf(pos) {
          decoded := decoded + [pos.id];
          visited := visited + [pos.id];
          trail := trail + [at];
          pos := root;
          at := [];
        }
      }
      TraverseEnd(code, nodes, from, path, at, decoded, trail, visited);
      visited := visited + [pos.id];
      end := pos;
    }
  }

  /** What a traversal from an inner node must deliver: the node where a walk along the path ends, the
      symbols it passes, and the numbers of all nodes on the way. */
  ghost predicate Arrives(code: Code, nodes: Nodes, from: Path, path: Path, end: Node, decoded: seq<int>, visited: seq<int>)
    reads nodes.Values`id
  {
    var w := Walk(code, from, path);
    && w.at in nodes && end == nodes[w.at] && decoded == w.out
    && IdsOf(nodes, Trail(code, from, path), visited)
  }

  /** All nodes on the way, the leaves and both ends included. */
  ghost function Trail(code: Code, p: Path, bits: Path): seq<Path>
    decreases |bits|
  {
    if bits == [] then [p]
    else
      var q := p + [bits[0]];
      (if q in code then [p, q] else [p]) + Trail(code, Step(code, p, bits[0]).at, bits[1..])
  }

  ghost predicate IdsOf(nodes: Nodes, paths: seq<Path>, ids: seq<int>)
    reads nodes.Values`id
  {
    |ids| == |paths| && forall j :: 0 <= j < |ids| ==> paths[j] in nodes && ids[j] == nodes[paths[j]].id
  }

  /** What the rest of the path adds to what has been found. */
  ghost predicate Ahead(code: Code, from: Path, path: Path, at: Path, rest: Path, decoded: seq<int>, trail: seq<Path>) {
    && Walk(code, from, path).at == Walk(code, at, rest).at
    && Walk(code, from, path).out == decoded + Walk(code, at, rest).out
    && Trail(code, from, path) == trail + Trail(code, at, rest)
  }

  lemma TraverseStart(code: Code, nodes: Nodes, from: Path, path: Path)
    ensures Ahead(code, from, path, from, path[0..], [], []) && IdsOf(nodes, [], [])
  {
    hide Walk, Trail;
    assert path[0..] == path;
    assert [] + Walk(code, from, path).out == Walk(code, from, path).out;
    assert [] + Trail(code, from, path) == Trail(code, from, path);
  }

  lemma TraverseStep(code: Code, nodes: Nodes, from: Path, path: Path, i: nat, at: Path,
                     decoded: seq<int>, trail: seq<Path>, visited: seq<int>)
    requires Good(code) && Covers(code, nodes) && LeafIds(code, nodes, |code|) && Inner(code, at) && at in nodes
    requires i < |path| && Ahead(code, from, path, at, path[i..], decoded, trail) && IdsOf(nodes, trail, visited)
    ensures var q := at + [path[i]]; var ids := visited + [nodes[at].id];
      && q in nodes && IdsOf(nodes, trail + [at], ids)
      && (q !in code ==> Ahead(code, from, path, q, path[i + 1..], decoded, trail + [at]))
      && (q in code ==>
          IdsOf(nodes, trail + [at] + [q], ids + [nodes[q].id]) &&
          Ahead(code, from, path, [], path[i + 1..], decoded + [nodes[q].id], trail + [at] + [q]))
  {
    ChildCases(code, at, path[i]);
    assert PrefixFree(code);
    hide Good, Inner, Walk, Trail, PrefixFree;
    var q := at + [path[i]];
    AheadStep(code, from, path, at, path[i..], decoded, trail);
    assert path[i..][1..] == path[i + 1..];
    if q in code { SymbolOf(code, Symbol(code, q)); }
  }

  lemma AheadStep(code: Code, from: Path, path: Path, at: Path, rest: Path, decoded: seq<int>, trail: seq<Path>)
    requires rest != [] && Ahead(code, from, path, at, rest, decoded, trail)
    ensures var q := at + [rest[0]];
      && (q !in code ==> Ahead(code, from, path, q, rest[1..], decoded, trail + [at]))
      && (q in code ==> Ahead(code, from, path, [], rest[1..], decoded + [Symbol(code, q)], trail + [at] + [q]))
  {
    var q := at + [rest[0]];
    var w, t := Walk(code, from, path), Trail(code, from, path);
    var s := Step(code, at, rest[0]);
    var v, u := Walk(code, s.at, rest[1..]), Trail(code, s.at, rest[1..]);
    assert Walk(code, at, rest) == State(v.at, s.out + v.out);
    if q in code {
      assert Trail(code, at, rest) == [at, q] + u;
      assert t == trail + [at] + [q] + u;
      assert w.out == decoded + [Symbol(code, q)] + v.out;
    } else {
      assert Trail(code, at, rest) == [at] + u;
      assert t == trail + [at] + u;
      assert w.out == decoded + v.out;
    }
  }

  lemma TraverseEnd(code: Code, nodes: Nodes, from: Path, path: Path, at: Path,
                    decoded: seq<int>, trail: seq<Path>, visited: seq<int>)
    requires Ahead(code, from, path, at, path[|path|..], decoded, trail) && IdsOf(nodes, trail, visited) && at in nodes
    ensures Arrives(code, nodes, from, path, nodes[at], decoded, visited + [nodes[at].id])
  {
    assert path[|path|..] == [];
    assert Walk(code, at, []) == State(at, []) && Trail(code, at, []) == [at];
    assert decoded + [] == decoded;
    assert Walk(code, from, path).out == decoded;
    assert Walk(code, from, path).at == at && Trail(code, from, path) == trail + [at];
    hide Walk, Trail;
  }

  /** Before a leaf the nodes on the way are the prefixes. */
  lemma {:induction false} TrailWithin(code: Code, p: Path, bits: Path, j: nat)
    requires PrefixFree(code) && Inner(code, p + bits) && j <= |bits|
    ensures |Trail(code, p, bits)| == |bits| + 1 && Trail(code, p, bits)[j] == p + bits[..j]
    decreases |bits|
  {
    hide PrefixFree, Inner;
    if bits == [] {
      assert p + bits[..j] == p;
    } else {
      var q := p + [bits[0]];
      assert q + bits[1..] == p + bits;
      InnerNotWord(code, q, p + bits);
      TrailWithin(code, q, bits[1..], if j == 0 then 0 else j - 1);
      if j > 0 {
        assert q + bits[1..][..j - 1] == p + bits[..j];
      } else {
        assert p + bits[..0] == p;
      }
    }
  }

  /** The stack holds the nodes of the paths, and the inner nodes from order[k] on are those below them. */
  ghost predicate Visiting(code: Code, nodes: Nodes, stack: seq<Node?>, paths: seq<Path>, order: seq<Path>, k: nat) {
    StackOf(nodes, stack, paths) && k <= |order| && order[k..] == Pending(code, paths)
  }

  lemma StackStart(code: Code, nodes: Nodes, root: Node)
    requires [] in nodes && nodes[[]] == root
    ensures Visiting(code, nodes, [root], [[]], Preorder(code, []), 0)
  {
    hide Preorder;
    var one: seq<Path> := [[]];
    assert one[..0] == [];
    assert Pending(code, []) == [];
    assert Preorder(code, []) + [] == Preorder(code, []);
  }

  /** The node on top of the stack, and the stack without it or with its children in its place. */
  lemma Pop(code: Code, nodes: Nodes, stack: seq<Node?>, paths: seq<Path>, order: seq<Path>, k: nat)
    requires Good(code) && Wired(nodes) && Covers(code, nodes)
    requires Visiting(code, nodes, stack, paths, order, k) && stack != []
    ensures |paths| == |stack|
    ensures var n := |stack| - 1; var p := paths[n];
      && p in nodes && stack[n] == nodes[p] && (IsLeaf(nodes[p]) <==> p in code)
      && (p in code ==> Visiting(code, nodes, stack[..n], paths[..n], order, k))
      && (p !in code ==>
          k < |order| && order[k] == p &&
          Visiting(code, nodes, stack[..n] + [nodes[p].one, nodes[p].zero],
                      paths[..n] + [p + [true], p + [false]], order, k + 1))
  {
    hide Good, Inner, Covers, Wired, Preorder, Pending;
    var p := paths[|stack| - 1];
    LeafIsWord(code, nodes, p);
    if Inner(code, p) {
      PopInner(code, paths);
      NextPending(order, k, p, Pending(code, paths[..|stack| - 1] + [p + [true], p + [false]]));
      assert Child(nodes[p], true) == nodes[p + [true]] && Child(nodes[p], false) == nodes[p + [false]];
    } else {
      PopLeaf(code, paths);
    }
  }

  ghost predicate FoundAre(order: seq<Path>, nodes: Nodes, found: seq<Node>) {
    |found| <= |order| && forall k :: 0 <= k < |found| ==> order[k] in nodes && found[k] == nodes[order[k]]
  }

  lemma NextFound(order: seq<Path>, nodes: Nodes, found: seq<Node>, pos: Node)
    requires FoundAre(order, nodes, found) && |found| < |order|
    requires order[|found|] in nodes && nodes[order[|found|]] == pos
    ensures FoundAre(order, nodes, found + [pos])
  {
  }

  lemma NextPending(order: seq<Path>, k: nat, p: Path, rest: seq<Path>)
    requires k <= |order| && order[k..] == [p] + rest
    ensures k < |order| && order[k] == p && order[k + 1..] == rest
  {
    assert order[k..][0] == p && order[k..][1..] == rest;
  }

  lemma PendingEmpty(code: Code, nodes: Nodes, stack: seq<Node?>, paths: seq<Path>, order: seq<Path>, k: nat)
    requires Visiting(code, nodes, stack, paths, order, k) && stack == []
    ensures k == |order|
  {
  }

  // --- The tree of a code -----------------------------------------------------------

  /** Exactly the inner nodes and the leaves of the code are there, and the leaves carry their symbols. */
  ghost predicate Covers(code: Code, nodes: Nodes) {
    forall p :: p in nodes <==> Inner(code, p) || p in code
  }

  ghost predicate LeafIds(code: Code, nodes: Nodes, n: nat)
    requires n <= |code|
    reads nodes.Values`id
  {
    forall j :: 0 <= j < n ==> code[j] in nodes && nodes[code[j]].id == j
  }

  /** The inner nodes below k are numbered in preorder. */
  ghost predicate Numbered(order: seq<Path>, nodes: Nodes, n: nat)
    requires n <= |order|
    reads nodes.Values`id
  {
    forall k :: 0 <= k < n ==> order[k] in nodes && nodes[order[k]].id == k
  }

  ghost function PathsUpTo(code: Code, n: nat): set<Path>
    requires n <= |code|
  {
    if n == 0 then {[]} else PathsUpTo(code, n - 1) + Prefixes(code[n - 1])
  }

  lemma {:induction false} PathsUpToMembers(code: Code, n: nat, p: Path)
    requires n <= |code|
    ensures p in PathsUpTo(code, n) <==> p == [] || exists i :: 0 <= i < n && p <= code[i]
  {
    if n > 0 {
      PathsUpToMembers(code, n - 1, p);
      PrefixesMembers(code[n - 1], p);
    }
  }

  lemma CoversAll(code: Code, nodes: Nodes)
    requires Good(code) && nodes.Keys == PathsUpTo(code, |code|)
    ensures Covers(code, nodes)
  {
    RootIsInner(code);
    hide Good;
    forall p ensures p in nodes <==> Inner(code, p) || p in code {
      PathsUpToMembers(code, |code|, p);
      if p in code {
        var i :| 0 <= i < |code| && code[i] == p;
        assert p <= code[i];
      } else if exists i :: 0 <= i < |code| && p <= code[i] {
        var i :| 0 <= i < |code| && p <= code[i];
        assert code[i] in code && p != code[i];
        assert p < code[i];
      }
    }
  }

  /** A node is a leaf of the tree exactly when its path is a codeword. */
  lemma LeafIsWord(code: Code, nodes: Nodes, p: Path)
    requires Good(code) && Wired(nodes) && Covers(code, nodes) && p in nodes
    ensures IsLeaf(nodes[p]) <==> p in code
    ensures p in code <==> !Inner(code, p)
    ensures Inner(code, p) ==> forall b :: p + [b] in nodes && Child(nodes[p], b) == nodes[p + [b]]
  {
    assert PrefixFree(code);
    if Inner(code, p) {
      forall b ensures p + [b] in nodes && Child(nodes[p], b) == nodes[p + [b]] { ChildCases(code, p, b); }
      assert Child(nodes[p], true) != null;
      hide Good, PrefixFree;
      InnerNotWord(code, p, p);
    } else {
      hide Good, PrefixFree, Covers;
      forall b ensures Child(nodes[p], b) == null {
        if p + [b] in nodes { BelowWord(code, nodes, p, b); }
      }
      assert Child(nodes[p], true) == null && Child(nodes[p], false) == null;
    }
  }

  lemma BelowWord(code: Code, nodes: Nodes, p: Path, b: bool)
    requires PrefixFree(code) && Covers(code, nodes) && p + [b] in nodes
    ensures Inner(code, p)
  {
    var q := p + [b];
    assert p < q;
    if Inner(code, q) {
      InnerUp(code, p, q);
    } else {
      var i :| 0 <= i < |code| && code[i] == q;
      assert p < code[i];
    }
  }

  // --- The stack of assignIds and getNodes ---------------------------------------------

  /** The inner nodes still to come when the paths on the stack are pending, the last one first. */
  ghost function Pending(code: Code, stack: seq<Path>): seq<Path> {
    if stack == [] then [] else Preorder(code, stack[|stack| - 1]) + Pending(code, stack[..|stack| - 1])
  }

  /** The stack holds the nodes of the paths. */
  ghost predicate StackOf(nodes: Nodes, stack: seq<Node?>, paths: seq<Path>) {
    |stack| == |paths| && forall j :: 0 <= j < |paths| ==> paths[j] in nodes && stack[j] == nodes[paths[j]]
  }

  lemma PopLeaf(code: Code, paths: seq<Path>)
    requires Good(code) && paths != [] && !Inner(code, paths[|paths| - 1])
    ensures Pending(code, paths[..|paths| - 1]) == Pending(code, paths)
  {
    hide Good, Inner;
    assert [] + Pending(code, paths[..|paths| - 1]) == Pending(code, paths[..|paths| - 1]);
  }

  lemma PopInner(code: Code, paths: seq<Path>)
    requires Good(code) && paths != [] && Inner(code, paths[|paths| - 1])
    ensures var n := |paths| - 1; var p := paths[n];
      Pending(code, paths) == [p] + Pending(code, paths[..n] + [p + [true], p + [false]])
  {
    var n := |paths| - 1;
    PendingTop(code, paths);
    PreorderInner(code, paths[n]);
    hide *;
    PendingTwo(code, paths[..n], paths[n] + [true], paths[n] + [false]);
    JoinThree([paths[n]], Preorder(code, paths[n] + [false]), Preorder(code, paths[n] + [true]), Pending(code, paths[..n]));
  }

  lemma PendingTwo(code: Code, paths: seq<Path>, p: Path, q: Path)
    ensures Pending(code, paths + [p, q]) == Preorder(code, q) + (Preorder(code, p) + Pending(code, paths))
  {
    PendingPush(code, paths, p);
    PendingPush(code, paths + [p], q);
    hide Pending, Preorder;
    assert paths + [p] + [q] == paths + [p, q];
  }

  lemma PendingTop(code: Code, paths: seq<Path>)
    requires paths != []
    ensures Pending(code, paths) == Preorder(code, paths[|paths| - 1]) + Pending(code, paths[..|paths| - 1])
  {
    hide Preorder;
  }

  lemma PendingPush(code: Code, paths: seq<Path>, p: Path)
    ensures Pending(code, paths + [p]) == Preorder(code, p) + Pending(code, paths)
  {
    hide Preorder;
    assert (paths + [p])[..|paths|] == paths;
  }

  lemma JoinThree(a: seq<Path>, x: seq<Path>, y: seq<Path>, r: seq<Path>)
    ensures (a + x + y) + r == a + (x + (y + r))
  {
  }

  lemma PreorderInner(code: Code, p: Path)
    requires Good(code) && Inner(code, p)
    ensures Preorder(code, p) == [p] + Preorder(code, p + [false]) + Preorder(code, p + [true])
  {
    InnerIsShort(code, p);
  }

  ghost function Prefixes(p: Path): set<Path> {
    if p == [] then {p} else Prefixes(p[..|p| - 1]) + {p}
  }

  lemma PrefixesStep(path: Path, i: nat)
    ensures Prefixes([]) == {[]}
    ensures i < |path| ==> path[..i + 1] == path[..i] + [path[i]]
    ensures i < |path| ==> Prefixes(path[..i + 1]) == Prefixes(path[..i]) + {path[..i + 1]}
  {
    if i < |path| { assert path[..i + 1][..i] == path[..i]; }
  }

  lemma {:induction false} PrefixesMembers(p: Path, q: Path)
    ensures q in Prefixes(p) <==> q <= p
  {
    if p != [] {
      var n := |p| - 1;
      PrefixesMembers(p[..n], q);
      if q <= p && |q| <= n { assert q <= p[..n]; }
      if q <= p && |q| > n { assert q == p; }
    }
  }

  lemma NewValues(nodes: Nodes, p: Path, child: Node)
    requires p !in nodes
    ensures nodes[p := child].Values == nodes.Values + {child}
  {
    var more := nodes[p := child];
    assert more[p] == child;
    forall q | q in nodes ensures nodes[q] in more.Values { assert more[q] == nodes[q]; }
  }

  // --- The table --------------------------------------------------------------------

  /** The codes for which a table can be asked: the generator itself checks the least length. */
  ghost predicate Plausible(code: Code) {
    && |code| == 257 && PrefixFree(code) && Complete(code)
    && (forall i :: 0 <= i < |code| ==> |code[i]| <= 30)
    && |code[EOS]| > 7
  }

  /** The tree of a code; its leaves carry the symbols. */
  method BuildTree(code: Code) returns (tree: CodeTree)
    requires Good(code)
    ensures fresh(tree) && fresh(tree.nodes.Values)
    ensures tree.Shaped() && Covers(code, tree.nodes) && LeafIds(code, tree.nodes, |code|)
  {
    assert PrefixFree(code) && |code| == 257;
    hide Good, Wired, PrefixClosed, PrefixFree, Prefixes, LeafIds;
    tree := new CodeTree();
    for i := 0 to |code|
      invariant fresh(tree.nodes.Values)
      invariant tree.Shaped() && LeafIds(code, tree.nodes, i) && tree.nodes.Keys == PathsUpTo(code, i)
    {
      AddWord(tree, code, i);
    }
    CoversAll(code, tree.nodes);
  }

  /** The path of one more codeword. */
  method AddWord(tree: CodeTree, code: Code, i: nat)
    requires PrefixFree(code) && i < |code|
    requires tree.Shaped() && LeafIds(code, tree.nodes, i) && tree.nodes.Keys == PathsUpTo(code, i)
    modifies tree`nodes, tree.nodes.Values`zero, tree.nodes.Values`one, tree.nodes.Values`id
    ensures tree.Shaped() && LeafIds(code, tree.nodes, i + 1) && tree.nodes.Keys == PathsUpTo(code, i + 1)
    ensures fresh(tree.nodes.Values - old(tree.nodes.Values))
  {
    forall j | 0 <= j < i ensures code[j] != code[i] { Distinguished(code, i, j); }
    hide Wired, PrefixClosed, PrefixFree, Prefixes;
    tree.BuildFromLeaf(code[i], i);
  }

  lemma Distinguished(code: Code, i: nat, j: nat)
    requires PrefixFree(code) && j < i < |code|
    ensures code[j] != code[i]
  {
    assert !(code[i] <= code[j]);
  }

  /** The inner nodes carry their numbers. */
  ghost predicate Named(code: Code, nodes: Nodes)
    requires Good(code)
    reads nodes.Values`id
  {
    forall q :: Inner(code, q) ==> q in nodes && nodes[q].id == Number(code, q)
  }

  lemma NumberedAreNamed(code: Code, nodes: Nodes)
    requires Good(code) && Numbered(Preorder(code, []), nodes, |Preorder(code, [])|)
    ensures Named(code, nodes)
  {
    hide Good, Inner, Preorder, Number;
    forall q | Inner(code, q) ensures q in nodes && nodes[q].id == Number(code, q) {
      var k := Number(code, q);
      assert Preorder(code, [])[k] == q;
    }
  }

  lemma SameNumber(code: Code, p: Path, q: Path)
    requires Good(code) && Inner(code, p) && Inner(code, q) && Number(code, p) == Number(code, q)
    ensures p == q
  {
    hide Good, Inner, Preorder, Number;
  }

  /** The numbers of the nodes in which a padded stream may end, the root excepted. */
  ghost predicate PaddingIds(code: Code, ids: seq<int>)
    requires Good(code)
  {
    forall q :: Inner(code, q) ==> (Number(code, q) in ids <==> 0 < |q| <= 7 && q <= code[EOS])
  }

  lemma PaddingAre(code: Code, nodes: Nodes, visited: seq<int>)
    requires Good(code) && Named(code, nodes) && IdsOf(nodes, Trail(code, [], code[EOS][..7]), visited)
    ensures visited != [] && PaddingIds(code, visited[1..])
  {
    assert |code[EOS]| > 7;
    PaddingTrail(code, nodes, visited);
    hide Good, Inner, Trail, Number, IdsOf;
    var ids := visited[1..];
    assert |ids| == 7;
    forall q | Inner(code, q) ensures Number(code, q) in ids <==> 0 < |q| <= 7 && q <= code[EOS] {
      if 0 < |q| <= 7 && q <= code[EOS] {
        assert q == code[EOS][..|q|];
        assert ids[|q| - 1] == Number(code, q);
      }
      if Number(code, q) in ids {
        var j :| 0 <= j < |ids| && ids[j] == Number(code, q);
        assert ids[j] == visited[j + 1];
        SameNumber(code, q, code[EOS][..j + 1]);
      }
    }
  }

  lemma PaddingTrail(code: Code, nodes: Nodes, visited: seq<int>)
    requires Good(code) && Named(code, nodes) && IdsOf(nodes, Trail(code, [], code[EOS][..7]), visited)
    ensures |visited| == 8
    ensures forall j :: 0 <= j <= 7 ==> Inner(code, code[EOS][..j]) && visited[j] == Number(code, code[EOS][..j])
  {
    assert PrefixFree(code);
    hide Good, Trail, PrefixFree, Number;
    var path := code[EOS][..7];
    assert [] + path == path;
    InnerPrefix(code, EOS, 7);
    TrailWithin(code, [], path, 0);
    forall j | 0 <= j <= 7 ensures Inner(code, code[EOS][..j]) && visited[j] == Number(code, code[EOS][..j]) {
      TrailWithin(code, [], path, j);
      assert [] + path[..j] == code[EOS][..j];
      InnerPrefix(code, EOS, j);
    }
  }

  function GetFlags(isRoot: bool, decoded: seq<int>): nat {
    (if isRoot then ACCEPTED else 0) + (if |decoded| > 0 then SYMBOL else 0)
  }

  function GetFirst(decoded: seq<int>): int {
    if decoded != [] then decoded[0] else 0
  }

  /** The cell for a traversal that ends in a node with this number. */
  function CellFor(id: int, isRoot: bool, decoded: seq<int>, padding: seq<int>): Cell
    requires GetFirst(decoded) >= 0
  {
    if GetFirst(decoded) == EOS then Cell(-1, 0, 0)
    else
      var flags := GetFlags(isRoot, decoded);
      Cell(id, if id in padding && flags % 2 == 0 then flags + ACCEPTED else flags, GetFirst(decoded))
  }

  lemma {:induction false} WalkSymbols(code: Code, p: Path, bits: Path)
    ensures forall i :: 0 <= i < |Walk(code, p, bits).out| ==> Walk(code, p, bits).out[i] < |code|
    decreases |bits|
  {
    if bits != [] {
      WalkSymbols(code, Step(code, p, bits[0]).at, bits[1..]);
    }
  }

  lemma CellForMeans(id: int, isRoot: bool, decoded: seq<int>, padding: seq<int>)
    requires GetFirst(decoded) >= 0
    ensures var c := CellFor(id, isRoot, decoded, padding);
      if GetFirst(decoded) == EOS then c.state == -1
      else
        && c.state == id && (Accepts(c) <==> isRoot || id in padding)
        && (Emits(c) <==> decoded != []) && c.sym == GetFirst(decoded)
  {
  }

  lemma CellIsRight(code: Code, p: Path, bits: Path, padding: seq<int>)
    requires Good(code) && Inner(code, p) && PaddingIds(code, padding)
    ensures var w := Walk(code, p, bits);
      && Inner(code, w.at) && GetFirst(w.out) >= 0
      && CellMeans(code, p, bits, CellFor(Number(code, w.at), w.at == [], w.out, padding))
  {
    assert |code| == 257;
    WalkInner(code, p, bits);
    WalkSymbols(code, p, bits);
    hide Good, Inner, Walk, Number, CellFor, Accepts, Emits;
    var w := Walk(code, p, bits);
    assert w.out != [] ==> w.out[0] < 257;
    CellForMeans(Number(code, w.at), w.at == [], w.out, padding);
    assert Number(code, w.at) in padding <==> 0 < |w.at| <= 7 && w.at <= code[EOS];
    assert Accepting(code, w.at) <==> w.at == [] || Number(code, w.at) in padding;
  }

  function Combination(x: nat): Path {
    [x / 8 % 2 == 1, x / 4 % 2 == 1, x / 2 % 2 == 1, x % 2 == 1]
  }

  lemma CombinationIsNibble(x: nat)
    requires x < 16
    ensures Combination(x) == ToBits(x, 4)
  {
  }

  /** A tree with all its numbers and symbols, and the numbers where padding may end. */
  ghost predicate Ready(tree: CodeTree, code: Code, padding: seq<int>)
    reads tree, tree.nodes.Values
  {
    && Good(code) && tree.Shaped() && Covers(code, tree.nodes) && LeafIds(code, tree.nodes, |code|)
    && Named(code, tree.nodes) && PaddingIds(code, padding)
  }

  lemma AllReady(tree: CodeTree, code: Code, padding: seq<int>)
    requires Good(code)
    ensures Ready(tree, code, padding) <==>
      && tree.Shaped() && Covers(code, tree.nodes) && LeafIds(code, tree.nodes, |code|)
      && Named(code, tree.nodes) && PaddingIds(code, padding)
  {
  }

  /** The cell of node p for the four bits of x. */
  method GenCell(tree: CodeTree, n: Node, x: nat, padding: seq<int>, code: Code, ghost p: Path) returns (c: Cell)
    requires Ready(tree, code, padding) && Good(code) && x < 16
    requires Inner(code, p) && p in tree.nodes && tree.nodes[p] == n
    ensures CellAt(code, p, x, c)
  {
    hide *;
    AllReady(tree, code, padding);
    NotLeaf(tree, code, p);
    CombinationIsNibble(x);
    var end, decoded, visited := tree.Traverse(n, Combination(x), code, p);
    CellStep(tree, code, p, x, end, decoded, visited, padding);
    c := CellFor(end.id, end == tree.root, decoded, padding);
  }

  lemma NotLeaf(tree: CodeTree, code: Code, p: Path)
    requires Good(code) && tree.Shaped() && Covers(code, tree.nodes) && Inner(code, p) && p in tree.nodes
    ensures p !in code
  {
    LeafIsWord(code, tree.nodes, p);
  }

  /** The sixteen cells of one node. */
  method GenRow(tree: CodeTree, n: Node, padding: seq<int>, code: Code, ghost p: Path) returns (row: seq<Cell>)
    requires Ready(tree, code, padding) && Good(code)
    requires Inner(code, p) && p in tree.nodes && tree.nodes[p] == n
    ensures |row| == 16 && RowSoFar(code, p, row)
  {
    assert RowSoFar(code, p, []);
    hide *;
    row := [];
    for x := 0 to 16
      invariant |row| == x && RowSoFar(code, p, row)
    {
      var c := GenCell(tree, n, x, padding, code, p);
      RowStep(code, p, row, c);
      row := row + [c];
    }
  }

  ghost predicate CellAt(code: Code, p: Path, x: nat, c: Cell)
    requires Good(code) && Inner(code, p)
  {
    CellMeans(code, p, ToBits(x, 4), c)
  }

  ghost predicate RowSoFar(code: Code, p: Path, row: seq<Cell>)
    requires Good(code) && Inner(code, p)
  {
    forall x :: 0 <= x < |row| ==> CellAt(code, p, x, row[x])
  }

  lemma RowStep(code: Code, p: Path, row: seq<Cell>, c: Cell)
    requires Good(code) && Inner(code, p) && RowSoFar(code, p, row) && CellAt(code, p, |row|, c)
    ensures RowSoFar(code, p, row + [c])
  {
    hide Good, Inner, CellAt;
  }

  lemma CellStep(tree: CodeTree, code: Code, p: Path, x: nat, end: Node, decoded: seq<int>, visited: seq<int>,
                 padding: seq<int>)
    requires Good(code) && tree.Shaped() && Named(code, tree.nodes) && PaddingIds(code, padding)
    requires Inner(code, p) && p !in code
    requires Arrives(code, tree.nodes, p, ToBits(x, 4), end, decoded, visited)
    ensures GetFirst(decoded) >= 0
    ensures CellAt(code, p, x, CellFor(end.id, end == tree.root, decoded, padding))
  {
    CellIsRight(code, p, ToBits(x, 4), padding);
    var w := Walk(code, p, ToBits(x, 4));
    assert end == tree.root <==> w.at == [] by {
      if w.at != [] { Unshared(tree.nodes, w.at, []); }
    }
    hide Good, Inner, Walk, Number, CellMeans, ToBits, CellFor, PaddingIds;
    assert end.id == Number(code, w.at);
  }

  /** gen_decode_table: refuses a code with a word of less than four bits; otherwise row k belongs to
      the node numbered k and each cell says what a walk along its four bits finds. */
  method GenDecodeTable(data: Code) returns (ok: bool, table: Table)
    requires Plausible(data)
    ensures ok <==> Good(data)
    ensures ok ==> TableOf(data, table)
  {
    table := [];
    ok := true;
    for i := 0 to |data|
      invariant ok <==> forall j :: 0 <= j < i ==> |data[j]| >= 4
    {
      if |data[i]| < 4 { ok := false; }
    }
    if !ok { return; }
    table := GenTable(data);
  }

  method GenTable(code: Code) returns (table: Table)
    requires Good(code)
    ensures TableOf(code, table)
  {
    hide *;
    var tree := BuildTree(code);
    ghost var order := TreeOrder(tree, code);
    tree.AssignIds(code, order);
    AllNamed(tree, code, order);
    var padding := EosPadding(tree, code);
    var found := tree.GetNodes(code, order);
    AllReady(tree, code, padding);
    table := GenRows(tree, code, found, padding, order);
    TableDone(code, order, table);
  }

  /** The first nodes after the root on the way to EOS. */
  method EosPadding(tree: CodeTree, code: Code) returns (padding: seq<int>)
    requires Good(code) && tree.Shaped() && Covers(code, tree.nodes) && LeafIds(code, tree.nodes, |code|)
    requires Named(code, tree.nodes)
    ensures PaddingIds(code, padding)
  {
    assert |code[EOS]| > 7 && [] !in code by { RootIsInner(code); }
    assert [] in tree.nodes && tree.nodes[[]] == tree.root;
    hide *;
    var end, decoded, visited := tree.Traverse(tree.root, code[EOS][..7], code, []);
    ArrivesTrail(code, tree.nodes, [], code[EOS][..7], end, decoded, visited);
    PaddingAre(code, tree.nodes, visited);
    padding := visited[1..];
  }

  method GenRows(tree: CodeTree, code: Code, found: seq<Node>, padding: seq<int>, ghost order: seq<Path>)
    returns (table: Table)
    requires Ready(tree, code, padding) && Good(code)
    requires order == Preorder(code, []) && FoundAre(order, tree.nodes, found) && |found| == |order|
    ensures |table| == |order| && TableSoFar(code, order, table)
  {
    assert TableSoFar(code, order, []);
    hide *;
    table := [];
    for k := 0 to |found|
      invariant |table| == k && TableSoFar(code, order, table)
    {
      FoundIs(code, order, tree.nodes, found, k);
      var row := GenRow(tree, found[k], padding, code, order[k]);
      TableStep(code, order, table, row);
      table := table + [row];
    }
  }

  lemma AllNamed(tree: CodeTree, code: Code, order: seq<Path>)
    requires Good(code) && order == Preorder(code, []) && Numbered(order, tree.nodes, |order|)
    ensures Named(code, tree.nodes)
  {
    NumberedAreNamed(code, tree.nodes);
  }

  ghost function TreeOrder(tree: CodeTree, code: Code): (order: seq<Path>)
    requires tree.Shaped() && Good(code)
    reads tree, tree.nodes.Values`zero, tree.nodes.Values`one
    ensures order == Preorder(code, []) && NoRepeats(order)
    ensures Visiting(code, tree.nodes, [tree.root], [[]], order, 0)
  {
    StackStart(code, tree.nodes, tree.root);
    InnerNodes(code);
    Preorder(code, [])
  }

  lemma ArrivesTrail(code: Code, nodes: Nodes, from: Path, path: Path, end: Node, decoded: seq<int>, visited: seq<int>)
    requires Arrives(code, nodes, from, path, end, decoded, visited)
    ensures IdsOf(nodes, Trail(code, from, path), visited)
  {
  }

  lemma FoundIs(code: Code, order: seq<Path>, nodes: Nodes, found: seq<Node>, k: nat)
    requires Good(code) && order == Preorder(code, []) && FoundAre(order, nodes, found) && k < |found|
    ensures order[k] in nodes && nodes[order[k]] == found[k] && Inner(code, order[k])
  {
    NumberUnique(code, k);
  }

  /** The rows found so far. */
  ghost predicate TableSoFar(code: Code, order: seq<Path>, table: Table)
    requires Good(code)
  {
    && |table| <= |order|
    && forall k :: 0 <= k < |table| ==>
        Inner(code, order[k]) && |table[k]| == 16 && RowSoFar(code, order[k], table[k])
  }

  lemma TableStep(code: Code, order: seq<Path>, table: Table, row: seq<Cell>)
    requires Good(code) && |table| < |order| && TableSoFar(code, order, table)
    requires Inner(code, order[|table|]) && |row| == 16 && RowSoFar(code, order[|table|], row)
    ensures TableSoFar(code, order, table + [row])
  {
    hide Good, Inner, RowSoFar;
  }

  lemma TableDone(code: Code, order: seq<Path>, table: Table)
    requires Good(code) && order == Preorder(code, []) && TableSoFar(code, order, table) && |table| == |order|
    ensures TableOf(code, table)
  {
    InnerNodes(code);
    hide Good, Inner, CellMeans, ToBits;
    forall k, x | 0 <= k < 256 && 0 <= x < 16 ensures RowMeans(code, k, x, table[k][x]) {
      NumberUnique(code, k);
    }
  }
}
