/**
  Deletion in memory: the leaf's sibling takes the parent's place, and the freed parent takes
  the place of the deleted entry's node part when that one is in use.
 */
module EbRemoval {
  import opened EbNodes
  import opened EbShapes
  import opened EbDeletion
  import opened EbMemory

  // ---- Finding the parts of an entry in the abstract tree ----

  ghost function PathToLeaf(c: Ctx, t: Tree, d: EbNode): (r: Ctx)
    requires d in LeafSet(t)
    ensures Plug(r, Leaf(d)) == Plug(c, t)
    decreases t
  {
    match t
    case Leaf(_) => c
    case Node(n, k, l, r) =>
      if d in LeafSet(l) then PathToLeaf(InLeft(n, k, c, r), l, d) else PathToLeaf(InRight(n, k, l, c), r, d)
  }

  /** The surroundings of the node part of d, with the tree it tops. */
  ghost function PathToNode(c: Ctx, t: Tree, d: EbNode): (r: (Ctx, Tree))
    requires d in NodeSet(t)
    ensures r.1.Node? && r.1.n == d && Plug(r.0, r.1) == Plug(c, t)
    decreases t
  {
    if t.n == d then (c, t)
    else if d in NodeSet(t.l) then PathToNode(InLeft(t.n, t.k, c, t.r), t.l, d)
    else PathToNode(InRight(t.n, t.k, t.l, c), t.r, d)
  }

  lemma {:induction false} CutPlug(c: Ctx, t: Tree, d: EbNode)
    requires t.Node? && d in LeafSet(t) && Distinct(Plug(c, t))
    ensures d in LeafSet(Plug(c, t)) && Plug(c, t).Node?
    ensures Cut(Plug(c, t), d) == Plug(c, Cut(t, d)) && Freed(Plug(c, t), d) == Freed(t, d)
    decreases c
  {
    match c
    case Top =>
    case InLeft(n, k, up, r) =>
      PlugDistinct(up, Node(n, k, t, r));
      CutPlug(up, Node(n, k, t, r), d);
    case InRight(n, k, l, up) =>
      PlugDistinct(up, Node(n, k, l, t));
      CutPlug(up, Node(n, k, l, t), d);
  }

  lemma {:induction false} RelabelPlug(c: Ctx, t: Tree, a: EbNode, b: EbNode)
    requires a !in CtxNodes(c)
    ensures Relabel(Plug(c, t), a, b) == Plug(c, Relabel(t, a, b))
    decreases c
  {
    match c
    case Top =>
    case InLeft(n, k, up, r) => RelabelAbsent(r, a, b); RelabelPlug(up, Node(n, k, t, r), a, b);
    case InRight(n, k, l, up) => RelabelAbsent(l, a, b); RelabelPlug(up, Node(n, k, l, t), a, b);
  }

  lemma {:induction false} CutDistinct(t: Tree, d: EbNode)
    requires t.Node? && d in LeafSet(t) && Elastic(t)
    ensures Distinct(Cut(t, d))
    ensures LeafSet(Cut(t, d)) == LeafSet(t) - {d} && NodeSet(Cut(t, d)) == NodeSet(t) - {Freed(t, d)}
    ensures Freed(t, d) in NodeSet(t)
  {
    ElasticDistinct(t);
    if t.l != Leaf(d) && t.r != Leaf(d) {
      if d in LeafSet(t.l) { CutDistinct(t.l, d); } else { CutDistinct(t.r, d); }
    }
  }

  // ---- The leaf and its parent go ----

  /** The parent p of the deleted leaf, hanging on the branch b, is replaced by the sibling. */
  ghost function ReleaseCell(n: EbNode, c: Cell, p: EbNode, sibling: Troot, b: Troot): Cell
  {
    Cell(
      if n == b.to && b.tag == EB_LEFT then sibling else c.left,
      if n == b.to && b.tag == EB_RGHT then sibling else c.right,
      if n == p then NULL else if n == sibling.to && sibling.tag == EB_NODE then b else c.node_p,
      if n == sibling.to && sibling.tag == EB_LEAF then b else c.leaf_p,
      c.bit)
  }

  ghost predicate Released(M: Mem, M': Mem, p: EbNode, sibling: Troot, b: Troot)
  {
    && M'.Keys == M.Keys && p in M && b.to in M && sibling.to in M
    && forall n :: n in M ==> M'[n] == ReleaseCell(n, M[n], p, sibling, b)
  }

  /** The node p above the leaf d and its sibling s. */
  ghost function WithLeaf(p: EbNode, k: Kind, s: Tree, d: EbNode, side: bool): Tree
  {
    if side == EB_LEFT then Node(p, k, Leaf(d), s) else Node(p, k, s, Leaf(d))
  }

  lemma ReleaseRefills(M: Mem, M': Mem, root: EbNode, c: Ctx, p: EbNode, k: Kind, s: Tree, d: EbNode, side: bool)
    requires Distinct(Plug(c, WithLeaf(p, k, s, d, side))) && s.n in LeafSet(s)
    requires CtxNodes(c) <= M.Keys && CtxLeaves(c) <= M.Keys
    requires root in M && root !in CtxNodes(c) && root != p && root !in LeafSet(s)
    requires Released(M, M', p, At(s), Up(root, c))
    ensures Refilled(M, M', root, c, At(s))
  {
    PlugDistinct(c, WithLeaf(p, k, s, d, side));
    UpInside(root, c);
  }

  lemma ReleaseSpare(M: Mem, M': Mem, y: Layer, root: EbNode, c: Ctx, p: EbNode, k: Kind, s: Tree, d: EbNode,
      side: bool)
    requires Linked(M, y, root, Plug(c, WithLeaf(p, k, s, d, side)))
    requires Released(M, M', p, At(s), Up(root, c))
    ensures forall n :: n in LeafSet(Plug(c, s)) - NodeSet(Plug(c, s)) ==> n in M' && M'[n].node_p == NULL
  {
    var t := Plug(c, WithLeaf(p, k, s, d, side));
    PlugSets(c, WithLeaf(p, k, s, d, side));
    PlugSets(c, s);
    forall n | n in LeafSet(Plug(c, s)) - NodeSet(Plug(c, s)) ensures n in M' && M'[n].node_p == NULL {
      if n != p { assert n in LeafSet(t) - NodeSet(t); }
    }
  }

  lemma ReleaseRep(M: Mem, M': Mem, y: Layer, root: EbNode, c: Ctx, p: EbNode, k: Kind, s: Tree, d: EbNode, side: bool)
    requires var t := Plug(c, WithLeaf(p, k, s, d, side));
      Linked(M, y, root, t) && Elastic(t) && LeafSet(t) <= M.Keys && root !in LeafSet(t)
    requires Released(M, M', p, At(s), Up(root, c))
    ensures Linked(M', y, root, Plug(c, s)) && M'[root].right == M[root].right
  {
    var w := WithLeaf(p, k, s, d, side);
    PlugElastic(c, w);
    ElasticDistinct(Plug(c, w));
    PlugDistinct(c, w);
    PlugSets(c, w);
    OneSpareNode(Plug(c, w));
    LeavesDistinct(s);
    Zoom(M, y, root, c, w);
    UpInside(root, c);
    ReleaseRefills(M, M', root, c, p, k, s, d, side);
    CtxRefill(M, M', y, root, c, w, At(w), At(s));
    Reparent(M, M', y, s, Troot(p, !side), Up(root, c));
    Unzoom(M', y, root, c, s);
    ReleaseSpare(M, M', y, root, c, p, k, s, d, side);
  }

  // ---- The freed node takes over ----

  /** The node p takes the place of a node with the fields f. */
  ghost function TakeOverCell(n: EbNode, c: Cell, p: EbNode, f: Cell): Cell
  {
    Cell(
      if n == p then f.left else if n == f.node_p.to && f.node_p.tag == EB_LEFT then Troot(p, EB_NODE) else c.left,
      if n == p then f.right else if n == f.node_p.to && f.node_p.tag == EB_RGHT then Troot(p, EB_NODE) else c.right,
      if n == p then f.node_p
      else if n == f.left.to && f.left.tag == EB_NODE then Troot(p, EB_LEFT)
      else if n == f.right.to && f.right.tag == EB_NODE then Troot(p, EB_RGHT) else c.node_p,
      if n == f.left.to && f.left.tag == EB_LEAF then Troot(p, EB_LEFT)
      else if n == f.right.to && f.right.tag == EB_LEAF then Troot(p, EB_RGHT) else c.leaf_p,
      if n == p then f.bit else c.bit)
  }

  ghost predicate TakenOver(M: Mem, M': Mem, p: EbNode, d: EbNode)
  {
    && M'.Keys == M.Keys && p in M && d in M
    && M[d].node_p.to in M && M[d].left.to in M && M[d].right.to in M
    && forall n :: n in M ==> M'[n] == TakeOverCell(n, M[n], p, M[d])
  }

  lemma TakeOverRefills(M: Mem, M': Mem, root: EbNode, c: Ctx, t: Tree, p: EbNode, d: EbNode)
    requires t.Node? && t.n == d && Distinct(Plug(c, t)) && t.l.n in LeafSet(t.l) + NodeSet(t.l)
    requires CtxNodes(c) <= M.Keys && CtxLeaves(c) <= M.Keys
    requires root in M && root !in CtxNodes(c) && root != p && root !in LeafSet(t) && root !in NodeSet(t)
    requires p !in CtxNodes(c) && p !in NodeSet(t)
    requires TakenOver(M, M', p, d) && M[d].node_p == Up(root, c) && M[d].left == At(t.l) && M[d].right == At(t.r)
    ensures Refilled(M, M', root, c, Troot(p, EB_NODE))
  {
    PlugDistinct(c, t);
    UpInside(root, c);
    TopIn(t.l);
    TopIn(t.r);
  }

  lemma TopIn(t: Tree)
    ensures if t.Leaf? then t.n in LeafSet(t) else t.n in NodeSet(t)
  {
  }

  lemma TakeOverBelow(M: Mem, M': Mem, y: Layer, b: Troot, t: Tree, p: EbNode)
    requires t.Node? && Distinct(t) && Rep(M, y, t, b) && LeafSet(t) <= M.Keys && NodeSet(t) <= M.Keys
    requires p !in NodeSet(t) && b.to !in NodeSet(t) - {t.n}
    requires TakenOver(M, M', p, t.n)
    ensures Rep(M', y, t.(n := p), b)
  {
    TopIn(t.l);
    TopIn(t.r);
    Reparent(M, M', y, t.l, Troot(t.n, EB_LEFT), Troot(p, EB_LEFT));
    Reparent(M, M', y, t.r, Troot(t.n, EB_RGHT), Troot(p, EB_RGHT));
  }

  lemma TakeOverRep(M: Mem, M': Mem, y: Layer, root: EbNode, c: Ctx, t: Tree, p: EbNode)
    requires t.Node? && Linked(M, y, root, Plug(c, t)) && Distinct(Plug(c, t))
    requires LeafSet(Plug(c, t)) <= M.Keys && NodeSet(Plug(c, t)) <= M.Keys
    requires root !in LeafSet(Plug(c, t)) && root !in NodeSet(Plug(c, t)) && root != p
    requires p !in NodeSet(Plug(c, t)) && t.n !in LeafSet(Plug(c, t))
    requires TakenOver(M, M', p, t.n)
    ensures Linked(M', y, root, Plug(c, t.(n := p))) && M'[root].right == M[root].right
  {
    PlugDistinct(c, t);
    PlugSets(c, t);
    Zoom(M, y, root, c, t);
    UpInside(root, c);
    TopIn(t.l);
    TakeOverRefills(M, M', root, c, t, p, t.n);
    CtxRefill(M, M', y, root, c, t, At(t), Troot(p, EB_NODE));
    TakeOverBelow(M, M', y, Up(root, c), t, p);
    Unzoom(M', y, root, c, t.(n := p));
    TakeOverSpare(M, M', y, root, c, t, p);
  }

  lemma TakeOverSpare(M: Mem, M': Mem, y: Layer, root: EbNode, c: Ctx, t: Tree, p: EbNode)
    requires t.Node? && Linked(M, y, root, Plug(c, t)) && t.n !in LeafSet(Plug(c, t))
    requires TakenOver(M, M', p, t.n) && M[t.n].left == At(t.l) && M[t.n].right == At(t.r)
    ensures var t' := Plug(c, t.(n := p));
      forall n :: n in LeafSet(t') - NodeSet(t') ==> n in M' && M'[n].node_p == NULL
  {
    var t' := Plug(c, t.(n := p));
    PlugSets(c, t);
    PlugSets(c, t.(n := p));
    TopIn(t.l);
    TopIn(t.r);
    forall n | n in LeafSet(t') - NodeSet(t') ensures n in M' && M'[n].node_p == NULL {
      assert n in LeafSet(Plug(c, t)) - NodeSet(Plug(c, t));
    }
  }

  /** The parent of a leaf that is not alone, its sibling, and what is above. */
  lemma Locate(M: Mem, y: Layer, root: EbNode, t: Tree, d: EbNode)
    returns (c: Ctx, p: EbNode, k: Kind, s: Tree, side: bool)
    requires t.Node? && d in LeafSet(t) && Elastic(t) && Linked(M, y, root, t) && root !in LeafSet(t)
    ensures t == Plug(c, WithLeaf(p, k, s, d, side))
    ensures d in M && M[d].leaf_p == Troot(p, side)
    ensures p in M && M[p].node_p == Up(root, c) && At(s) == if side == EB_LEFT then M[p].right else M[p].left
    ensures p in LeafSet(t) && s.n in LeafSet(t) && Up(root, c).to in LeafSet(t) + {root}
    ensures p != root && Up(root, c).to != p && (s.Node? ==> s.n != p)
    ensures M[p].right.to != null
  {
    var h := PathToLeaf(Top, t, d);
    c, p, k, side := h.up, h.n, h.k, if h.InLeft? then EB_LEFT else EB_RGHT;
    s := if h.InLeft? then h.r else h.l;
    var w := WithLeaf(p, k, s, d, side);
    assert h == if side == EB_LEFT then InLeft(p, k, c, s) else InRight(p, k, s, c);
    Zoom(M, y, root, h, Leaf(d));
    PlugSets(c, w);
    OneSpareNode(t);
    ElasticDistinct(t);
    PlugDistinct(c, w);
    UpInside(root, c);
    TopIn(s);
  }

  /** Deletion in two steps: without the freed node, and with it in the deleted one's place. */
  lemma DeleteSplit(c: Ctx, p: EbNode, k: Kind, s: Tree, d: EbNode, side: bool)
    requires Elastic(Plug(c, WithLeaf(p, k, s, d, side)))
    ensures var t := Plug(c, WithLeaf(p, k, s, d, side)); var t' := Plug(c, s);
      && t.Node? && d in LeafSet(t) && Delete(t, d) == Relabel(t', d, p) && Cut(t, d) == t'
      && Distinct(t') && LeafSet(t') == LeafSet(t) - {d} && NodeSet(t') == NodeSet(t) - {p} && p in NodeSet(t)
  {
    var w := WithLeaf(p, k, s, d, side);
    ElasticDistinct(Plug(c, w));
    PlugDistinct(c, w);
    CutPlug(c, w, d);
    CutDistinct(Plug(c, w), d);
    assert Cut(w, d) == s;
  }

  /** The node part of an entry whose leaf is gone, and what it links to. */
  lemma LocateNode(M: Mem, y: Layer, root: EbNode, t: Tree, d: EbNode, p: EbNode)
    returns (c: Ctx, u: Tree)
    requires d in NodeSet(t) && d !in LeafSet(t) && Linked(M, y, root, t) && Distinct(t)
    requires p !in NodeSet(t) && root !in LeafSet(t) && root !in NodeSet(t) && p != root
    ensures u.Node? && u.n == d && t == Plug(c, u) && Relabel(t, d, p) == Plug(c, u.(n := p))
    ensures d in M && M[d].node_p == Up(root, c) && M[d].left == At(u.l) && M[d].right == At(u.r)
    ensures u.l.n in LeafSet(t) + NodeSet(t) && u.r.n in LeafSet(t) + NodeSet(t)
    ensures Up(root, c).to in NodeSet(t) + {root} && Up(root, c).to != d && Up(root, c).to != p
    ensures (u.l.Node? ==> u.l.n != p) && (u.r.Node? ==> u.r.n != p) && At(u.l) != At(u.r)
  {
    var q := PathToNode(Top, t, d);
    c, u := q.0, q.1;
    Zoom(M, y, root, c, u);
    PlugSets(c, u);
    PlugDistinct(c, u);
    UpInside(root, c);
    TopIn(u.l);
    TopIn(u.r);
    RelabelAbsent(u.l, d, p);
    RelabelAbsent(u.r, d, p);
    RelabelPlug(c, u, d, p);
  }

  /** After the parent is released the deleted entry's node_p tells whether its node is in use. */
  lemma SpareOrNot(M: Mem, M': Mem, y: Layer, root: EbNode, c: Ctx, p: EbNode, k: Kind, s: Tree, d: EbNode, side: bool)
    requires var t := Plug(c, WithLeaf(p, k, s, d, side));
      Linked(M, y, root, t) && Elastic(t) && d in M
    requires Released(M, M', p, At(s), Up(root, c)) && Linked(M', y, root, Plug(c, s))
    ensures M'[d].node_p.to != null <==> d in NodeSet(Plug(c, s))
  {
    var t, t' := Plug(c, WithLeaf(p, k, s, d, side)), Plug(c, s);
    DeleteSplit(c, p, k, s, d, side);
    PlugSets(c, s);
    if d in NodeSet(t') {
      var q := PathToNode(Top, t', d);
      Zoom(M', y, root, q.0, q.1);
    } else if d != p {
      assert d in LeafSet(t) - NodeSet(t);
      TopIn(s);
    }
  }

  // ---- The writes ----

  /** Sets the parent pointer of what a branch leads to: of its leaf or of its node part. */
  method SetParent(child: Troot, up: Troot)
    requires child.to != null
    modifies child.to`node_p, child.to`leaf_p
    ensures child.to.node_p == if child.tag == EB_NODE then up else old(child.to.node_p)
    ensures child.to.leaf_p == if child.tag == EB_LEAF then up else old(child.to.leaf_p)
  {
    if child.tag == EB_LEAF {
      child.to.leaf_p := up;
    } else {
      child.to.node_p := up;
    }
  }

  method ReleaseParent(parent: EbNode, pside: bool, ghost S: set<EbNode>)
    requires var sibling := if pside == EB_LEFT then parent.right else parent.left;
      && parent in S && parent.node_p.to in S && sibling.to in S && parent.node_p.to != null && sibling.to != null
      && parent.node_p.to != parent && (sibling.tag == EB_NODE ==> sibling.to != parent)
    modifies S`left, S`right, S`node_p, S`leaf_p
    ensures Released(old(Snap(S)), Snap(S), parent, old(if pside == EB_LEFT then parent.right else parent.left),
      old(parent.node_p))
  {
    var up := parent.node_p;
    var gparent, gpside := up.to, up.tag;
    var sibling := if pside == EB_LEFT then parent.right else parent.left;
    if gpside == EB_LEFT {
      gparent.left := sibling;
    } else {
      gparent.right := sibling;
    }
    SetParent(sibling, up);
    parent.node_p := NULL;
    forall n | n in S ensures CellOf(n) == ReleaseCell(n, old(CellOf(n)), parent, sibling, up) {}
  }

  method TakeOver(parent: EbNode, node: EbNode, ghost S: set<EbNode>)
    requires parent in S && node in S && parent != node
    requires node.node_p.to != null && node.left.to != null && node.right.to != null
    requires node.node_p.to in S && node.left.to in S && node.right.to in S
    requires node.node_p.to != parent && node.node_p.to != node
    requires node.left.tag == EB_NODE ==> node.left.to != parent
    requires node.right.tag == EB_NODE ==> node.right.to != parent
    requires node.left != node.right
    modifies S`left, S`right, S`node_p, S`leaf_p, S`bit
    ensures TakenOver(old(Snap(S)), Snap(S), parent, node)
  {
    parent.node_p := node.node_p;
    parent.left := node.left;
    parent.right := node.right;
    parent.bit := node.bit;
    // the branch on which the node hangs
    var gparent, gpside := parent.node_p.to, parent.node_p.tag;
    if gpside == EB_LEFT {
      gparent.left := Troot(parent, EB_NODE);
    } else {
      gparent.right := Troot(parent, EB_NODE);
    }
    // what hangs on its own branches
    SetParent(parent.left, Troot(parent, EB_LEFT));
    SetParent(parent.right, Troot(parent, EB_RGHT));
    forall n | n in S ensures CellOf(n) == TakeOverCell(n, old(CellOf(n)), parent, old(CellOf(node))) {}
  }

  /** The entry moved has taken the place of d's node part, on the tree u in the surroundings c, after
      d's leaf and the node above it were cut out of t. */
  ghost predicate Moved(t: Tree, d: EbNode, moved: EbNode, c: Ctx, u: Tree)
    requires t.Node? && d in LeafSet(t)
  {
    && u.Node? && u.n == d && Cut(t, d) == Plug(c, u) && Delete(t, d) == Plug(c, u.(n := moved))
    && Distinct(Plug(c, u)) && moved !in NodeSet(Plug(c, u))
  }

  /** __eb_delete from the point where the parent is known not to be the root. Tells whose node part
      has replaced the deleted entry's, if any has. */
  method Unlink(node: EbNode, ghost root: EbNode, ghost y: Layer, ghost t: Tree, ghost S: set<EbNode>)
    returns (moved: EbNode?, ghost c2: Ctx, ghost u: Tree)
    requires t.Node? && node in LeafSet(t) && Elastic(t) && LeafSet(t) <= S && root in S && root !in LeafSet(t)
    requires Linked(Snap(S), y, root, t)
    modifies S`left, S`right, S`node_p, S`leaf_p, S`bit
    ensures Linked(Snap(S), y, root, Delete(t, node))
    ensures Snap(S)[root].right == old(Snap(S))[root].right
    ensures if moved == null then Delete(t, node) == Cut(t, node) else moved in S && Moved(t, node, moved, c2, u)
  {
    ghost var M := Snap(S);
    ghost var c, p, k, s, side := Locate(M, y, root, t, node);
    DeleteSplit(c, p, k, s, node, side);
    OneSpareNode(t);
    assert M[node] == CellOf(node) && M[p] == CellOf(p);
    var pside := node.leaf_p.tag;
    var parent := node.leaf_p.to;
    ReleaseParent(parent, pside, S);
    ReleaseRep(M, Snap(S), y, root, c, p, k, s, node, side);
    ghost var t1 := Plug(c, s);
    assert Snap(S)[node] == CellOf(node);
    SpareOrNot(M, Snap(S), y, root, c, p, k, s, node, side);
    // the node part was the one released, or the spare one
    if node.node_p.to != null {
      ghost var M1 := Snap(S);
      c2, u := LocateNode(M1, y, root, t1, node, parent);
      assert M1[parent] == CellOf(parent);
      TakeOver(parent, node, S);
      TakeOverRep(M1, Snap(S), y, root, c2, u, parent);
      moved := parent;
    } else {
      RelabelAbsent(t1, node, parent);
      moved, c2, u := null, Top, t;
    }
  }
}
