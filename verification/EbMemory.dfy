/**
  How a tree lies in memory, on snapshots of the fields, and which writes change it how.
 */
module EbMemory {
  import opened EbNodes
  import opened EbShapes

  /** The link fields of an entry at one moment. */
  datatype Cell = Cell(left: Troot, right: Troot, node_p: Troot, leaf_p: Troot, bit: int)

  type Mem = map<EbNode, Cell>

  ghost function CellOf(n: EbNode): Cell
    reads n
  {
    Cell(n.left, n.right, n.node_p, n.leaf_p, n.bit)
  }

  ghost function Snap(S: set<EbNode>): (M: Mem)
    reads S
    ensures M.Keys == S
  {
    map n: EbNode | n in S :: CellOf(n)
  }

  /** The three meanings of a non-negative bit field: the index of a bit of an integer of w bits,
      a number of equal bits, or that number doubled, plus one for a normal node. */
  datatype Layer = Scalar(w: nat) | Strings | Prefixes

  function BitField(y: Layer, k: Kind): int
  {
    match k
    case Dup(d) => d
    case Normal(p) => (match y case Scalar(w) => w - 1 - p case Strings => p case Prefixes => 2 * p + 1)
    case Cover(p) => 2 * p
  }

  /** The branch pointer to a tree. */
  ghost function At(t: Tree): Troot
  {
    Troot(t.n, t.Node?)
  }

  ghost predicate Rep(M: Mem, y: Layer, t: Tree, up: Troot)
  {
    t.n in M &&
    match t
    case Leaf(n) => M[n].leaf_p == up
    case Node(n, k, l, r) =>
      && M[n].node_p == up && M[n].bit == BitField(y, k)
      && M[n].left == At(l) && M[n].right == At(r)
      && Rep(M, y, l, Troot(n, EB_LEFT)) && Rep(M, y, r, Troot(n, EB_RGHT))
  }

  /** What a parent pointer of the tree in the hole holds. */
  ghost function Up(root: EbNode, c: Ctx): Troot
  {
    match c
    case Top => Troot(root, EB_LEFT)
    case InLeft(n, _, _, _) => Troot(n, EB_LEFT)
    case InRight(n, _, _, _) => Troot(n, EB_RGHT)
  }

  ghost predicate RepCtx(M: Mem, y: Layer, root: EbNode, c: Ctx, hole: Troot)
    decreases c
  {
    match c
    case Top => root in M && M[root].left == hole && M[root].right.to == null
    case InLeft(n, k, up, r) =>
      && n in M && M[n].node_p == Up(root, up) && M[n].bit == BitField(y, k)
      && M[n].left == hole && M[n].right == At(r)
      && Rep(M, y, r, Troot(n, EB_RGHT))
      && RepCtx(M, y, root, up, Troot(n, EB_NODE))
    case InRight(n, k, l, up) =>
      && n in M && M[n].node_p == Up(root, up) && M[n].bit == BitField(y, k)
      && M[n].left == At(l) && M[n].right == hole
      && Rep(M, y, l, Troot(n, EB_LEFT))
      && RepCtx(M, y, root, up, Troot(n, EB_NODE))
  }

  /** The tree below a root, unused node parts being marked by a null node_p. */
  ghost predicate Linked(M: Mem, y: Layer, root: EbNode, t: Tree)
  {
    && RepCtx(M, y, root, Top, At(t)) && Rep(M, y, t, Troot(root, EB_LEFT))
    && forall n :: n in LeafSet(t) - NodeSet(t) ==> n in M && M[n].node_p == NULL
  }

  lemma {:induction false} Zoom(M: Mem, y: Layer, root: EbNode, c: Ctx, t: Tree)
    requires RepCtx(M, y, root, Top, At(Plug(c, t))) && Rep(M, y, Plug(c, t), Troot(root, EB_LEFT))
    ensures RepCtx(M, y, root, c, At(t)) && Rep(M, y, t, Up(root, c))
    decreases c
  {
    match c
    case Top =>
    case InLeft(n, k, up, r) => Zoom(M, y, root, up, Node(n, k, t, r));
    case InRight(n, k, l, up) => Zoom(M, y, root, up, Node(n, k, l, t));
  }

  lemma {:induction false} Unzoom(M: Mem, y: Layer, root: EbNode, c: Ctx, t: Tree)
    requires RepCtx(M, y, root, c, At(t)) && Rep(M, y, t, Up(root, c))
    ensures RepCtx(M, y, root, Top, At(Plug(c, t))) && Rep(M, y, Plug(c, t), Troot(root, EB_LEFT))
    decreases c
  {
    match c
    case Top =>
    case InLeft(n, k, up, r) => Unzoom(M, y, root, up, Node(n, k, t, r));
    case InRight(n, k, l, up) => Unzoom(M, y, root, up, Node(n, k, l, t));
  }

  // ---- Frames ----

  ghost predicate SameNode(M: Mem, M': Mem, n: EbNode)
  {
    n in M && n in M' &&
    M'[n].left == M[n].left && M'[n].right == M[n].right && M'[n].node_p == M[n].node_p && M'[n].bit == M[n].bit
  }

  ghost predicate SameLeaf(M: Mem, M': Mem, n: EbNode)
  {
    n in M && n in M' && M'[n].leaf_p == M[n].leaf_p
  }

  lemma {:induction false} RepFrame(M: Mem, M': Mem, y: Layer, t: Tree, up: Troot)
    requires Rep(M, y, t, up)
    requires forall n :: n in NodeSet(t) ==> SameNode(M, M', n)
    requires forall n :: n in LeafSet(t) ==> SameLeaf(M, M', n)
    ensures Rep(M', y, t, up)
  {
    match t
    case Leaf(n) => assert SameLeaf(M, M', n);
    case Node(n, _, l, r) =>
      assert SameNode(M, M', n);
      RepFrame(M, M', y, l, Troot(n, EB_LEFT));
      RepFrame(M, M', y, r, Troot(n, EB_RGHT));
  }

  lemma {:induction false} CtxFrame(M: Mem, M': Mem, y: Layer, root: EbNode, c: Ctx, hole: Troot)
    requires RepCtx(M, y, root, c, hole)
    requires root in M && root in M' && M'[root].left == M[root].left && M'[root].right == M[root].right
    requires forall n :: n in CtxNodes(c) ==> SameNode(M, M', n)
    requires forall n :: n in CtxLeaves(c) ==> SameLeaf(M, M', n)
    ensures RepCtx(M', y, root, c, hole)
    decreases c
  {
    match c
    case Top =>
    case InLeft(n, k, up, r) =>
      assert SameNode(M, M', n);
      RepFrame(M, M', y, r, Troot(n, EB_RGHT));
      CtxFrame(M, M', y, root, up, Troot(n, EB_NODE));
    case InRight(n, k, l, up) =>
      assert SameNode(M, M', n);
      RepFrame(M, M', y, l, Troot(n, EB_LEFT));
      CtxFrame(M, M', y, root, up, Troot(n, EB_NODE));
  }

  /** Only the branch to the hole changes from M to M', among what the surroundings c of t use. */
  ghost predicate Refilled(M: Mem, M': Mem, root: EbNode, c: Ctx, hole: Troot)
  {
    var b := Up(root, c);
    && b.to in M && b.to in M' && root in M && root in M'
    && M'[b.to].left == (if b.tag == EB_LEFT then hole else M[b.to].left)
    && M'[b.to].right == (if b.tag == EB_RGHT then hole else M[b.to].right)
    && (c != Top ==> M'[b.to].node_p == M[b.to].node_p && M'[b.to].bit == M[b.to].bit)
    && (c != Top ==> M'[root].left == M[root].left && M'[root].right == M[root].right)
    && (forall n :: n in CtxNodes(c) && n != b.to ==> SameNode(M, M', n))
    && (forall n :: n in CtxLeaves(c) ==> SameLeaf(M, M', n))
  }

  lemma CtxRefill(M: Mem, M': Mem, y: Layer, root: EbNode, c: Ctx, t: Tree, hole: Troot, hole': Troot)
    requires RepCtx(M, y, root, c, hole) && Distinct(Plug(c, t))
    requires Refilled(M, M', root, c, hole')
    ensures RepCtx(M', y, root, c, hole')
  {
    match c
    case Top =>
    case InLeft(n, k, up, r) =>
      PlugDistinct(up, Node(n, k, t, r));
      RepFrame(M, M', y, r, Troot(n, EB_RGHT));
      CtxFrame(M, M', y, root, up, Troot(n, EB_NODE));
    case InRight(n, k, l, up) =>
      PlugDistinct(up, Node(n, k, l, t));
      RepFrame(M, M', y, l, Troot(n, EB_LEFT));
      CtxFrame(M, M', y, root, up, Troot(n, EB_NODE));
  }

  /** t hangs below another branch: only its own parent pointer changes. */
  lemma Reparent(M: Mem, M': Mem, y: Layer, t: Tree, up: Troot, up': Troot)
    requires Rep(M, y, t, up) && Distinct(t)
    requires t.n in M'
    requires t.Leaf? ==> M'[t.n].leaf_p == up'
    requires t.Node? ==>
      && M'[t.n].node_p == up' && M'[t.n].bit == M[t.n].bit
      && M'[t.n].left == M[t.n].left && M'[t.n].right == M[t.n].right
    requires forall n :: n in NodeSet(t) && n != t.n ==> SameNode(M, M', n)
    requires t.Node? ==> forall n :: n in LeafSet(t) ==> SameLeaf(M, M', n)
    ensures Rep(M', y, t, up')
  {
    if t.Node? {
      RepFrame(M, M', y, t.l, Troot(t.n, EB_LEFT));
      RepFrame(M, M', y, t.r, Troot(t.n, EB_RGHT));
    }
  }

  /** What the entry x, put on the branch b above what tr points to, makes of the fields of n. */
  ghost function AttachCell(n: EbNode, c: Cell, b: Troot, tr: Troot, x: EbNode, right: bool, bit: int): Cell
  {
    Cell(
      if n == x then (if right then tr else Troot(x, EB_LEAF))
      else if n == b.to && b.tag == EB_LEFT then Troot(x, EB_NODE) else c.left,
      if n == x then (if right then Troot(x, EB_LEAF) else tr)
      else if n == b.to && b.tag == EB_RGHT then Troot(x, EB_NODE) else c.right,
      if n == x then b else if n == tr.to && tr.tag == EB_NODE then Troot(x, !right) else c.node_p,
      if n == x then Troot(x, right) else if n == tr.to && tr.tag == EB_LEAF then Troot(x, !right) else c.leaf_p,
      if n == x then bit else c.bit)
  }

  ghost predicate Attached(M: Mem, M': Mem, b: Troot, tr: Troot, x: EbNode, right: bool, bit: int)
  {
    && M'.Keys == M.Keys && x in M && b.to in M && tr.to in M
    && forall n :: n in M ==> M'[n] == AttachCell(n, M[n], b, tr, x, right, bit)
  }

  /** x above t, on its right or on its left. */
  ghost function Above(t: Tree, x: EbNode, k: Kind, right: bool): Tree
  {
    if right then Node(x, k, t, Leaf(x)) else Node(x, k, Leaf(x), t)
  }

  lemma AttachRefills(M: Mem, M': Mem, root: EbNode, c: Ctx, t: Tree, x: EbNode, right: bool, bit: int)
    requires Distinct(Plug(c, t)) && t.n in LeafSet(t) && CtxNodes(c) <= M.Keys && CtxLeaves(c) <= M.Keys
    requires root in M && root !in CtxNodes(c) && t.n != root && x !in CtxNodes(c) && x !in CtxLeaves(c) && x != root
    requires Attached(M, M', Up(root, c), At(t), x, right, bit)
    ensures Refilled(M, M', root, c, Troot(x, EB_NODE))
  {
    PlugDistinct(c, t);
    UpInside(root, c);
  }

  lemma AttachBelow(M: Mem, M': Mem, y: Layer, b: Troot, t: Tree, x: EbNode, k: Kind, right: bool)
    requires Rep(M, y, t, b) && Elastic(t) && NodeSet(t) <= M.Keys && LeafSet(t) <= M.Keys
    requires x !in LeafSet(t) && b.to !in NodeSet(t)
    requires Attached(M, M', b, At(t), x, right, BitField(y, k))
    ensures Rep(M', y, Above(t, x, k, right), b)
  {
    LeavesDistinct(t);
    OneSpareNode(t);
    ElasticDistinct(t);
    Reparent(M, M', y, t, b, Troot(x, !right));
  }

  /** Writing an attachment to memory is putting x above t in the tree. */
  lemma AttachRep(M: Mem, M': Mem, y: Layer, root: EbNode, c: Ctx, t: Tree, x: EbNode, k: Kind, right: bool)
    requires Linked(M, y, root, Plug(c, t)) && Elastic(Plug(c, t)) && LeafSet(Plug(c, t)) <= M.Keys
    requires root !in LeafSet(Plug(c, t)) && x !in LeafSet(Plug(c, t)) && x != root
    requires Attached(M, M', Up(root, c), At(t), x, right, BitField(y, k))
    ensures Linked(M', y, root, Plug(c, Above(t, x, k, right))) && M'[root].right == M[root].right
  {
    PlugElastic(c, t);
    ElasticDistinct(Plug(c, t));
    PlugDistinct(c, t);
    PlugSets(c, t);
    OneSpareNode(Plug(c, t));
    Zoom(M, y, root, c, t);
    UpInside(root, c);
    LeavesDistinct(t);
    AttachRefills(M, M', root, c, t, x, right, BitField(y, k));
    CtxRefill(M, M', y, root, c, t, At(t), Troot(x, EB_NODE));
    AttachBelow(M, M', y, Up(root, c), t, x, k, right);
    Unzoom(M', y, root, c, Above(t, x, k, right));
    AttachSpare(M, M', y, root, c, t, x, k, right);
  }

  lemma AttachSpare(M: Mem, M': Mem, y: Layer, root: EbNode, c: Ctx, t: Tree, x: EbNode, k: Kind, right: bool)
    requires Linked(M, y, root, Plug(c, t)) && t.n in LeafSet(t)
    requires Attached(M, M', Up(root, c), At(t), x, right, BitField(y, k))
    ensures var t' := Plug(c, Above(t, x, k, right));
      forall n :: n in LeafSet(t') - NodeSet(t') ==> n in M' && M'[n].node_p == NULL
  {
    PlugSets(c, t);
    PlugSets(c, Above(t, x, k, right));
    var t' := Plug(c, Above(t, x, k, right));
    forall n | n in LeafSet(t') - NodeSet(t') ensures n in M' && M'[n].node_p == NULL {
      assert n in LeafSet(Plug(c, t)) - NodeSet(Plug(c, t));
    }
  }

  lemma UpInside(root: EbNode, c: Ctx)
    ensures c != Top ==> Up(root, c).to in CtxNodes(c)
  {
  }

  /** A linked tree only depends on the fields of its entries and the branches of its root. */
  lemma LinkedFrame(M: Mem, M': Mem, y: Layer, root: EbNode, t: Tree)
    requires Linked(M, y, root, t) && Elastic(t)
    requires root in M' && M'[root].left == M[root].left && M'[root].right == M[root].right
    requires forall n :: n in LeafSet(t) ==> n in M && n in M' && M'[n] == M[n]
    ensures Linked(M', y, root, t)
  {
    OneSpareNode(t);
    RepFrame(M, M', y, t, Troot(root, EB_LEFT));
  }
}
