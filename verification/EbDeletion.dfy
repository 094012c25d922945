/**
  Deletion as a function on trees: the leaf goes, its parent node is freed, and the freed node
  takes the place of the deleted entry's own node if that one was in use.
 */
module EbDeletion {
  import opened BitStrings
  import opened EbNodes
  import opened EbShapes
  import opened EbRadix

  ghost function Remove(s: seq<EbNode>, d: EbNode): seq<EbNode>
  {
    if s == [] then [] else if s[0] == d then s[1..] else [s[0]] + Remove(s[1..], d)
  }

  /** The entry whose node part is just above the leaf d. */
  ghost function Freed(t: Tree, d: EbNode): EbNode
    requires t.Node? && d in LeafSet(t)
  {
    assert t.r.Leaf? ==> LeafSet(t.r) == {t.r.n};
    if t.l == Leaf(d) || t.r == Leaf(d) then t.n
    else if d in LeafSet(t.l) then Freed(t.l, d)
    else Freed(t.r, d)
  }

  /** The sibling of the leaf d in place of their common parent. */
  ghost function Cut(t: Tree, d: EbNode): Tree
    requires t.Node? && d in LeafSet(t)
  {
    assert t.r.Leaf? ==> LeafSet(t.r) == {t.r.n};
    if t.l == Leaf(d) then t.r
    else if t.r == Leaf(d) then t.l
    else if d in LeafSet(t.l) then t.(l := Cut(t.l, d))
    else t.(r := Cut(t.r, d))
  }

  ghost function Relabel(t: Tree, a: EbNode, b: EbNode): Tree
  {
    match t
    case Leaf(_) => t
    case Node(n, k, l, r) => Node(if n == a then b else n, k, Relabel(l, a, b), Relabel(r, a, b))
  }

  ghost function Delete(t: Tree, d: EbNode): Tree
    requires t.Node? && d in LeafSet(t)
  {
    Relabel(Cut(t, d), d, Freed(t, d))
  }

  lemma {:induction false} RelabelAbsent(t: Tree, a: EbNode, b: EbNode)
    requires a !in NodeSet(t)
    ensures Relabel(t, a, b) == t
  {
    match t
    case Leaf(_) =>
    case Node(_, _, l, r) => RelabelAbsent(l, a, b); RelabelAbsent(r, a, b);
  }

  /** How deletion proceeds at a node, seen from above. */
  lemma DeleteStep(t: Tree, d: EbNode)
    requires t.Node? && d in LeafSet(t) && Elastic(t)
    ensures t.l == Leaf(d) ==> Delete(t, d) == t.r && Freed(t, d) == t.n
    ensures t.r == Leaf(d) ==> Delete(t, d) == t.l && Freed(t, d) == t.n
    ensures t.l != Leaf(d) && t.r != Leaf(d) ==>
      var p := Freed(t, d);
      var n := if t.n == d then p else t.n;
      if d in LeafSet(t.l) then t.l.Node? && p == Freed(t.l, d) && Delete(t, d) == Node(n, t.k, Delete(t.l, d), t.r)
      else t.r.Node? && d in LeafSet(t.r) && p == Freed(t.r, d) && Delete(t, d) == Node(n, t.k, t.l, Delete(t.r, d))
  {
    OneSpareNode(t.l);
    OneSpareNode(t.r);
    if d !in LeafSet(t.l) { RelabelAbsent(t.l, d, Freed(t, d)); }
    if d !in LeafSet(t.r) { RelabelAbsent(t.r, d, Freed(t, d)); }
    if t.l == Leaf(d) || t.r == Leaf(d) {
      RelabelAbsent(Cut(t, d), d, Freed(t, d));
    }
  }

  lemma {:induction false} FreedSits(t: Tree, d: EbNode)
    requires t.Node? && d in LeafSet(t) && Elastic(t)
    ensures Freed(t, d) in NodeSet(t) && Freed(t, d) in LeafSet(t)
  {
    DeleteStep(t, d);
    if t.l != Leaf(d) && t.r != Leaf(d) {
      if d in LeafSet(t.l) { FreedSits(t.l, d); } else { FreedSits(t.r, d); }
    }
  }

  lemma {:induction false} DeleteLeafSet(t: Tree, d: EbNode)
    requires t.Node? && d in LeafSet(t) && Elastic(t)
    ensures LeafSet(Delete(t, d)) == LeafSet(t) - {d}
  {
    DeleteStep(t, d);
    if t.l != Leaf(d) && t.r != Leaf(d) {
      if d in LeafSet(t.l) { DeleteLeafSet(t.l, d); } else { DeleteLeafSet(t.r, d); }
    }
  }

  lemma {:induction false} DeleteNodeSet(t: Tree, d: EbNode)
    requires t.Node? && d in LeafSet(t) && Elastic(t)
    ensures NodeSet(Delete(t, d)) == NodeSet(t) - {if d in NodeSet(t) then d else Freed(t, d)}
  {
    DeleteStep(t, d);
    OneSpareNode(t.l);
    OneSpareNode(t.r);
    if t.l != Leaf(d) && t.r != Leaf(d) {
      var u := if d in LeafSet(t.l) then t.l else t.r;
      DeleteNodeSet(u, d);
      FreedSits(u, d);
    }
  }

  /** Every node part in use stays above its own leaf, also the one that changed hands. */
  lemma {:induction false} DeleteElastic(t: Tree, d: EbNode)
    requires t.Node? && d in LeafSet(t) && Elastic(t)
    ensures Elastic(Delete(t, d))
  {
    DeleteStep(t, d);
    if t.l != Leaf(d) && t.r != Leaf(d) {
      var (s, o) := if d in LeafSet(t.l) then (t.l, t.r) else (t.r, t.l);
      DeleteElastic(s, d);
      DeleteLeafSet(s, d);
      DeleteNodeSet(s, d);
      FreedSits(s, d);
      OneSpareNode(s);
      OneSpareNode(o);
    }
  }

  lemma {:induction false} RemoveAppend(a: seq<EbNode>, b: seq<EbNode>, d: EbNode)
    ensures d in a ==> Remove(a + b, d) == Remove(a, d) + b
    ensures d !in a ==> Remove(a + b, d) == a + Remove(b, d)
  {
    if a == [] {
      assert a + b == b;
    } else {
      assert (a + b)[1..] == a[1..] + b;
      if a[0] != d { RemoveAppend(a[1..], b, d); }
    }
  }

  /** Deletion removes exactly one leaf from the walking order. */
  lemma {:induction false} DeleteLeaves(t: Tree, d: EbNode)
    requires t.Node? && d in LeafSet(t) && Elastic(t)
    ensures Leaves(Delete(t, d)) == Remove(Leaves(t), d)
  {
    DeleteStep(t, d);
    LeafSetIsLeaves(t.l);
    LeafSetIsLeaves(t.r);
    RemoveAppend(Leaves(t.l), Leaves(t.r), d);
    if t.l != Leaf(d) && t.r != Leaf(d) {
      if d in LeafSet(t.l) { DeleteLeaves(t.l, d); } else { DeleteLeaves(t.r, d); }
    }
  }

  lemma {:induction false} FirstWithRemove(s: seq<EbNode>, d: EbNode, w: Bits)
    requires FirstWith(s, w) != d
    ensures FirstWith(Remove(s, d), w) == FirstWith(s, w)
  {
    if s != [] && s[0] != d && s[0].bits != w { FirstWithRemove(s[1..], d, w); }
  }

  /** Deletion in a tree of duplicates keeps each node's own leaf the first on its right. */
  lemma {:induction false} DupDelete(t: Tree, d: EbNode, a: int, w: Bits)
    requires t.Node? && d in LeafSet(t) && Elastic(t) && DupTree(t, a, w)
    ensures DupTree(Delete(t, d), a, w)
    ensures First(Delete(t, d)) == if First(t) == d then Freed(t, d) else First(t)
  {
    DeleteStep(t, d);
    FirstIsFirst(t.l);
    FirstIsFirst(t.r);
    if t.l == Leaf(d) {
      DupTreeRaise(t.r, t.k.d, a, w);
    } else if t.r == Leaf(d) {
      DupTreeRaise(t.l, t.k.d, a, w);
    } else if d in LeafSet(t.l) {
      DupDelete(t.l, d, t.k.d, w);
    } else {
      DupDelete(t.r, d, t.k.d, w);
    }
  }

  /** When the first entry of its key goes, the freed node's entry is the first of its own. */
  lemma {:induction false} FreedFirst(t: Tree, d: EbNode)
    requires t.Node? && d in LeafSet(t) && Elastic(t) && Radix(t) && OwnFirst(t)
    requires FirstWith(Leaves(t), d.bits) == d && Freed(t, d) != d
    ensures FirstWith(Leaves(Delete(t, d)), Freed(t, d).bits) == Freed(t, d)
  {
    var p := Freed(t, d);
    DeleteStep(t, d);
    DeleteLeaves(t, d);
    FreedSits(t, d);
    LeafSetIsLeaves(t);
    if t.k.Dup? {
      DupTreeKeys(t, t.k.d - 1, t.n.bits);
      FirstIsFirst(t);
      DupDelete(t, d, t.k.d - 1, t.n.bits);
      FirstIsFirst(Delete(t, d));
    } else if t.l == Leaf(d) || t.r == Leaf(d) {
      FirstWithRemove(Leaves(t), d, p.bits);
    } else {
      LeafSetIsLeaves(t.l);
      FirstWithFound(Leaves(t.l), d.bits);
      FirstWithAppend(Leaves(t.l), Leaves(t.r), d.bits);
      if d in LeafSet(t.l) {
        FreedFirst(t.l, d);
        FirstWithAppend(Leaves(Delete(t.l, d)), Leaves(t.r), p.bits);
      } else {
        FreedFirst(t.r, d);
        FreedSits(t.r, d);
        FirstWithFound(Leaves(t.l), p.bits);
        FirstWithAppend(Leaves(t.l), Leaves(Delete(t.r, d)), p.bits);
      }
    }
  }

  lemma {:induction false} DeleteRadix(t: Tree, d: EbNode)
    requires t.Node? && d in LeafSet(t) && Elastic(t) && Radix(t)
    ensures Radix(Delete(t, d))
  {
    DeleteStep(t, d);
    if t.k.Dup? {
      DupDelete(t, d, t.k.d - 1, t.n.bits);
      DupTreeKeys(Delete(t, d), t.k.d - 1, t.n.bits);
    } else if t.l != Leaf(d) && t.r != Leaf(d) {
      FreedSits(t, d);
      assert t.n == d ==> Freed(t, d).bits[..t.k.p] == t.n.bits[..t.k.p];
      if d in LeafSet(t.l) {
        DeleteRadix(t.l, d);
        DeleteLeafSet(t.l, d);
      } else {
        DeleteRadix(t.r, d);
        DeleteLeafSet(t.r, d);
      }
    }
  }

  lemma {:induction false} DeleteOwnFirst(t: Tree, d: EbNode)
    requires t.Node? && d in LeafSet(t) && Elastic(t) && Radix(t) && OwnFirst(t)
    ensures OwnFirst(Delete(t, d))
  {
    DeleteStep(t, d);
    if t.k.Dup? {
      DupDelete(t, d, t.k.d - 1, t.n.bits);
      assert Delete(t, d).Node? ==> Delete(t, d).k.Dup?;
    } else if t.l != Leaf(d) && t.r != Leaf(d) {
      if t.n == d {
        FreedSits(t, d);
        OneSpareNode(t.l);
        OneSpareNode(t.r);
        if d in LeafSet(t.l) { FreedSits(t.l, d); } else { FreedSits(t.r, d); }
        FreedFirst(t, d);
      } else {
        DeleteLeaves(t, d);
        FirstWithRemove(Leaves(t), d, t.n.bits);
      }
      if d in LeafSet(t.l) { DeleteOwnFirst(t.l, d); } else { DeleteOwnFirst(t.r, d); }
    }
  }

  lemma {:induction false} DeleteNoDups(t: Tree, d: EbNode)
    requires t.Node? && d in LeafSet(t) && Elastic(t) && NoDups(t)
    ensures NoDups(Delete(t, d))
  {
    DeleteStep(t, d);
    if t.l != Leaf(d) && t.r != Leaf(d) {
      if d in LeafSet(t.l) { DeleteNoDups(t.l, d); } else { DeleteNoDups(t.r, d); }
    }
  }
}
