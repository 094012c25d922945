/**
  The abstract elastic binary tree: which entry's leaf part and node part sits where.
 */
module EbShapes {
  import opened EbNodes

  /** What the bit field of a node stands for: a level of a duplicate tree, a node at which the
      branches differ, or a cover node, with the keys of exactly p bits on its left. */
  datatype Kind = Dup(d: int) | Normal(p: nat) | Cover(p: nat)

  datatype Tree = Leaf(n: EbNode) | Node(n: EbNode, k: Kind, l: Tree, r: Tree)

  /** The entries in walking order. */
  ghost function Leaves(t: Tree): (s: seq<EbNode>)
    ensures |s| > 0
  {
    match t
    case Leaf(n) => [n]
    case Node(_, _, l, r) => Leaves(l) + Leaves(r)
  }

  ghost function LeafSet(t: Tree): set<EbNode>
  {
    match t
    case Leaf(n) => {n}
    case Node(_, _, l, r) => LeafSet(l) + LeafSet(r)
  }

  /** The entries whose node part is in use. */
  ghost function NodeSet(t: Tree): set<EbNode>
  {
    match t
    case Leaf(_) => {}
    case Node(n, _, l, r) => {n} + NodeSet(l) + NodeSet(r)
  }

  ghost function Size(t: Tree): nat
  {
    match t
    case Leaf(_) => 1
    case Node(_, _, l, r) => Size(l) + Size(r) + 1
  }

  /** No part is used twice, and every node part sits above its own leaf. */
  ghost predicate Elastic(t: Tree)
  {
    match t
    case Leaf(_) => true
    case Node(n, _, l, r) =>
      && Elastic(l) && Elastic(r)
      && n in LeafSet(l) + LeafSet(r)
      && n !in NodeSet(l) && n !in NodeSet(r)
      && NodeSet(l) !! NodeSet(r)
      && LeafSet(l) !! LeafSet(r)
  }

  ghost predicate Distinct(t: Tree)
  {
    match t
    case Leaf(_) => true
    case Node(n, _, l, r) =>
      && Distinct(l) && Distinct(r)
      && n !in NodeSet(l) && n !in NodeSet(r)
      && NodeSet(l) !! NodeSet(r)
      && LeafSet(l) !! LeafSet(r)
  }

  lemma {:induction false} ElasticDistinct(t: Tree)
    requires Elastic(t)
    ensures Distinct(t)
  {
    match t
    case Leaf(_) =>
    case Node(_, _, l, r) => ElasticDistinct(l); ElasticDistinct(r);
  }

  lemma {:induction false} LeafSetIsLeaves(t: Tree)
    ensures forall e :: e in LeafSet(t) <==> e in Leaves(t)
    ensures forall i :: 0 <= i < |Leaves(t)| ==> Leaves(t)[i] in LeafSet(t)
  {
    match t
    case Leaf(_) =>
    case Node(_, _, l, r) => LeafSetIsLeaves(l); LeafSetIsLeaves(r);
  }

  lemma {:induction false} LeavesDistinct(t: Tree)
    requires Elastic(t)
    ensures forall i, j :: 0 <= i < j < |Leaves(t)| ==> Leaves(t)[i] != Leaves(t)[j]
    ensures t.n in LeafSet(t)
  {
    match t
    case Leaf(_) =>
    case Node(_, _, l, r) =>
      LeavesDistinct(l); LeavesDistinct(r);
      LeafSetIsLeaves(l); LeafSetIsLeaves(r);
      forall i, j | 0 <= i < j < |Leaves(t)| ensures Leaves(t)[i] != Leaves(t)[j] {
        if i < |Leaves(l)| <= j {
          assert Leaves(l)[i] in LeafSet(l);
          var m := j - |Leaves(l)|;
          assert Leaves(r)[m] in LeafSet(r);
        }
      }
  }

  /** The entry whose node part is not in use: the one left over when each node above it
      has taken one of the two left over below. */
  ghost function Spare(t: Tree): EbNode
  {
    match t
    case Leaf(n) => n
    case Node(n, _, l, r) => if n == Spare(l) then Spare(r) else Spare(l)
  }

  /** Exactly one linked entry of a non-empty tree has an unused node part. */
  lemma {:induction false} OneSpareNode(t: Tree)
    requires Elastic(t)
    ensures NodeSet(t) <= LeafSet(t)
    ensures LeafSet(t) - NodeSet(t) == {Spare(t)}
  {
    match t
    case Leaf(_) =>
    case Node(n, _, l, r) =>
      OneSpareNode(l); OneSpareNode(r);
      assert n in LeafSet(l) - NodeSet(l) || n in LeafSet(r) - NodeSet(r);
      assert Spare(l) in LeafSet(l) - NodeSet(l) && Spare(r) in LeafSet(r) - NodeSet(r);
      forall e ensures e in LeafSet(t) - NodeSet(t) <==> e == Spare(t) {
        assert e in LeafSet(l) - NodeSet(l) <==> e in {Spare(l)};
        assert e in LeafSet(r) - NodeSet(r) <==> e in {Spare(r)};
      }
  }

  /** The part of a tree above one of its sub-trees. */
  datatype Ctx =
    | Top
    | InLeft(n: EbNode, k: Kind, up: Ctx, r: Tree)
    | InRight(n: EbNode, k: Kind, l: Tree, up: Ctx)

  ghost function Plug(c: Ctx, t: Tree): Tree
    decreases c
  {
    match c
    case Top => t
    case InLeft(n, k, up, r) => Plug(up, Node(n, k, t, r))
    case InRight(n, k, l, up) => Plug(up, Node(n, k, l, t))
  }

  ghost function CtxNodes(c: Ctx): set<EbNode>
  {
    match c
    case Top => {}
    case InLeft(n, _, up, r) => {n} + NodeSet(r) + CtxNodes(up)
    case InRight(n, _, l, up) => {n} + NodeSet(l) + CtxNodes(up)
  }

  ghost function CtxLeaves(c: Ctx): set<EbNode>
  {
    match c
    case Top => {}
    case InLeft(_, _, up, r) => LeafSet(r) + CtxLeaves(up)
    case InRight(_, _, l, up) => LeafSet(l) + CtxLeaves(up)
  }

  /** The entries left and right of the hole. */
  ghost function Pre(c: Ctx): seq<EbNode>
  {
    match c
    case Top => []
    case InLeft(_, _, up, _) => Pre(up)
    case InRight(_, _, l, up) => Pre(up) + Leaves(l)
  }

  ghost function Post(c: Ctx): seq<EbNode>
  {
    match c
    case Top => []
    case InLeft(_, _, up, r) => Leaves(r) + Post(up)
    case InRight(_, _, _, up) => Post(up)
  }

  lemma {:induction false} PlugSets(c: Ctx, t: Tree)
    ensures LeafSet(Plug(c, t)) == CtxLeaves(c) + LeafSet(t)
    ensures NodeSet(Plug(c, t)) == CtxNodes(c) + NodeSet(t)
    decreases c
  {
    match c
    case Top =>
    case InLeft(n, k, up, r) => PlugSets(up, Node(n, k, t, r));
    case InRight(n, k, l, up) => PlugSets(up, Node(n, k, l, t));
  }

  lemma {:induction false} PlugLeaves(c: Ctx, t: Tree)
    ensures Leaves(Plug(c, t)) == Pre(c) + Leaves(t) + Post(c)
    decreases c
  {
    match c
    case Top =>
    case InLeft(n, k, up, r) => PlugLeaves(up, Node(n, k, t, r));
    case InRight(n, k, l, up) => PlugLeaves(up, Node(n, k, l, t));
  }

  lemma {:induction false} PlugElastic(c: Ctx, t: Tree)
    requires Elastic(Plug(c, t))
    ensures Elastic(t)
    decreases c
  {
    match c
    case Top =>
    case InLeft(n, k, up, r) => PlugElastic(up, Node(n, k, t, r));
    case InRight(n, k, l, up) => PlugElastic(up, Node(n, k, l, t));
  }

  lemma {:induction false} PlugDistinct(c: Ctx, t: Tree)
    requires Distinct(Plug(c, t))
    ensures Distinct(t)
    ensures NodeSet(t) !! CtxNodes(c) && LeafSet(t) !! CtxLeaves(c)
    decreases c
  {
    match c
    case Top =>
    case InLeft(n, k, up, r) => PlugDistinct(up, Node(n, k, t, r));
    case InRight(n, k, l, up) => PlugDistinct(up, Node(n, k, l, t));
  }
}
