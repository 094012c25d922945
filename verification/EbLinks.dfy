/**
  Linking an entry into a tree in memory: above what hangs on a branch, and into a tree of duplicates.
 */
module EbLinks {
  import opened EbNodes
  import opened EbShapes
  import opened EbRadix
  import opened EbMemory

  /** Puts x on the branch up, between its owner and what hangs there: the tail of every insertion. */
  method LinkAbove(up: Troot, troot: Troot, x: EbNode, right: bool, bit: int, ghost S: set<EbNode>)
    requires up.to != null && troot.to != null && up.to in S && troot.to in S && x in S
    requires x != up.to && x != troot.to
    requires up == if troot.tag == EB_NODE then troot.to.node_p else troot.to.leaf_p
    modifies x`left, x`right, x`node_p, x`leaf_p, x`bit
    modifies up.to`left, up.to`right, troot.to`node_p, troot.to`leaf_p
    ensures Attached(old(Snap(S)), Snap(S), up, troot, x, right, bit)
  {
    var old_, parent := troot.to, up.to;
    x.bit := bit;
    x.node_p := up;
    x.leaf_p := Troot(x, right);
    x.left := if right then troot else Troot(x, EB_LEAF);
    x.right := if right then Troot(x, EB_LEAF) else troot;
    if troot.tag == EB_NODE {
      old_.node_p := Troot(x, !right);
    } else {
      old_.leaf_p := Troot(x, !right);
    }
    if up.tag == EB_LEFT {
      parent.left := Troot(x, EB_NODE);
    } else {
      parent.right := Troot(x, EB_NODE);
    }
    forall n | n in S ensures CellOf(n) == AttachCell(n, old(CellOf(n)), up, troot, x, right, bit) {}
  }

  /** The same on a linked tree, of which t hangs on the branch. */
  method Attach(up: Troot, troot: Troot, x: EbNode, right: bool, bit: int,
                ghost root: EbNode, ghost y: Layer, ghost c: Ctx, ghost t: Tree, ghost k: Kind, ghost S: set<EbNode>)
    requires Linked(Snap(S), y, root, Plug(c, t)) && Elastic(Plug(c, t))
    requires LeafSet(Plug(c, t)) <= S && root in S && x in S
    requires root !in LeafSet(Plug(c, t)) && x !in LeafSet(Plug(c, t)) && x != root
    requires up == Up(root, c) && troot == At(t) && bit == BitField(y, k)
    modifies S`left, S`right, S`node_p, S`leaf_p, S`bit
    ensures Linked(Snap(S), y, root, Plug(c, Above(t, x, k, right)))
    ensures Snap(S)[root].right == old(Snap(S))[root].right
  {
    ghost var M := Snap(S);
    InTree(M, y, root, c, t);
    assert M[t.n] == CellOf(t.n);
    LinkAbove(up, troot, x, right, bit, S);
    AttachRep(M, Snap(S), y, root, c, t, x, k, right);
  }

  /** Where a new duplicate goes: above the node of this tree, at the level below it. */
  ghost function WrapTop(t: Tree, x: EbNode): Tree
  {
    Node(x, Dup(Level(t) - 1), t, Leaf(x))
  }

  /** The walk of __eb_insert_dup down the right branch: the last node, and the one below the
      deepest hole, or the top. */
  method DeepestHole(top: EbNode, ghost M: Mem, ghost y: Layer, ghost root: EbNode, ghost c: Ctx, ghost d: Tree,
      ghost S: set<EbNode>, ghost x: EbNode)
    returns (head: EbNode, sub: EbNode, ghost hc: Ctx, ghost ht: Tree, ghost sc: Ctx, ghost st: Tree)
    requires d.Node? && d.n == top && d.k.Dup? && DupTree(d, d.k.d - 1, x.bits)
    requires M == Snap(S) && Rep(M, y, d, Up(root, c))
    ensures ht.Node? && ht.n == head && ht.k.Dup? && Plug(hc, ht) == Plug(c, d) && Rep(M, y, ht, Up(root, hc))
    ensures st.Node? && st.n == sub && st.k.Dup? && Plug(sc, st) == Plug(c, d) && Rep(M, y, st, Up(root, sc))
    ensures ht.r.Leaf?
    ensures Plug(c, InsertDup(d, x)) == if ht.k.d < -1 then Plug(hc, Append(ht, x)) else Plug(sc, WrapTop(st, x))
  {
    head, sub, hc, ht, sc, st := top, top, c, d, c, d;
    assert M[head] == CellOf(head);
    while head.right.tag != EB_LEAF
      invariant head in S && M[head] == CellOf(head)
      invariant ht.Node? && ht.n == head && st.Node? && st.n == sub
      invariant Plug(hc, ht) == Plug(sc, st) == Plug(c, d)
      invariant Rep(M, y, ht, Up(root, hc)) && Rep(M, y, st, Up(root, sc))
      invariant ht.k.Dup? && DupTree(ht, ht.k.d - 1, x.bits) && st.k.Dup?
      invariant Bottom(ht) == Bottom(d)
      invariant Plug(hc, Append(ht, x)) == Plug(c, Append(d, x))
      invariant Plug(c, Wrap(d, x)) == if HoleBelow(ht) then Plug(hc, Wrap(ht, x)) else Plug(sc, WrapTop(st, x))
      decreases ht
    {
      var last := head;
      head := head.right.to;
      hc, ht := InRight(ht.n, ht.k, ht.l, hc), ht.r;
      assert M[head] == CellOf(head);
      if head.bit > last.bit + 1 {
        sub := head;
        sc, st := hc, ht;
      }
    }
  }

  /** Links x above the last leaf if there is room below head, and else above sub. */
  method LinkDuplicate(head: EbNode, sub: EbNode, x: EbNode, ghost root: EbNode, ghost y: Layer,
                       ghost hc: Ctx, ghost ht: Tree, ghost sc: Ctx, ghost st: Tree, ghost S: set<EbNode>)
    requires ht.Node? && ht.n == head && ht.k.Dup? && ht.r.Leaf? && st.Node? && st.n == sub && st.k.Dup?
    requires Plug(hc, ht) == Plug(sc, st) && Elastic(Plug(hc, ht)) && LeafSet(Plug(hc, ht)) <= S && root in S && x in S
    requires root !in LeafSet(Plug(hc, ht)) && x !in LeafSet(Plug(hc, ht)) && x != root
    requires Linked(Snap(S), y, root, Plug(hc, ht))
    modifies S`left, S`right, S`node_p, S`leaf_p, S`bit
    ensures Linked(Snap(S), y, root, if ht.k.d < -1 then Plug(hc, Append(ht, x)) else Plug(sc, WrapTop(st, x)))
    ensures Snap(S)[root].right == old(Snap(S))[root].right
  {
    ghost var M := Snap(S);
    InTree(M, y, root, hc, ht);
    assert M[head] == CellOf(head);
    if head.bit < -1 {
      // level -1 is free above the last leaf
      ghost var lc := InRight(ht.n, ht.k, ht.l, hc);
      InTree(M, y, root, lc, ht.r);
      Attach(Troot(head, EB_RGHT), head.right, x, true, -1, root, y, lc, ht.r, Dup(-1), S);
      assert Plug(lc, Above(ht.r, x, Dup(-1), true)) == Plug(hc, Append(ht, x));
    } else {
      // x goes above sub, one level up
      InTree(M, y, root, sc, st);
      assert M[sub] == CellOf(sub);
      Attach(sub.node_p, Troot(sub, EB_NODE), x, true, sub.bit - 1, root, y, sc, st, Dup(Level(st) - 1), S);
    }
  }

  /** __eb_insert_dup. The tree of duplicates d, in its surroundings c, is the one below top. */
  method InsertDuplicate(top: EbNode, x: EbNode, ghost root: EbNode, ghost y: Layer, ghost c: Ctx, ghost d: Tree,
      ghost S: set<EbNode>)
    requires d.Node? && d.n == top && d.k.Dup? && DupTree(d, d.k.d - 1, x.bits)
    requires Elastic(Plug(c, d)) && LeafSet(Plug(c, d)) <= S && root in S && x in S
    requires root !in LeafSet(Plug(c, d)) && x !in LeafSet(Plug(c, d)) && x != root
    requires Linked(Snap(S), y, root, Plug(c, d))
    modifies S`left, S`right, S`node_p, S`leaf_p, S`bit
    ensures Linked(Snap(S), y, root, Plug(c, InsertDup(d, x)))
    ensures Snap(S)[root].right == old(Snap(S))[root].right
  {
    InTree(Snap(S), y, root, c, d);
    // sub is the tree below the deepest missing level
    var head, sub;
    ghost var hc, ht, sc, st;
    head, sub, hc, ht, sc, st := DeepestHole(top, Snap(S), y, root, c, d, S, x);
    LinkDuplicate(head, sub, x, root, y, hc, ht, sc, st, S);
  }

  /** The hole of a linked tree, with what hangs there, and where its owner is. */
  lemma InTree(M: Mem, y: Layer, root: EbNode, c: Ctx, t: Tree)
    requires Linked(M, y, root, Plug(c, t)) && Elastic(Plug(c, t))
    ensures RepCtx(M, y, root, c, At(t)) && Rep(M, y, t, Up(root, c))
    ensures LeafSet(t) <= LeafSet(Plug(c, t)) && t.n in LeafSet(t)
    ensures Up(root, c).to in {root} + LeafSet(Plug(c, t)) && Up(root, c).to in M
    ensures Elastic(t)
  {
    Zoom(M, y, root, c, t);
    PlugElastic(c, t);
    PlugSets(c, t);
    OneSpareNode(Plug(c, t));
    LeavesDistinct(t);
    UpInside(root, c);
  }
}
