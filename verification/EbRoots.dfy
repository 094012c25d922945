/**
  A root with the abstract tree below it: what every operation on a tree keeps, and deletion.
 */
module EbRoots {
  import opened Basics
  import opened BitStrings
  import opened EbNodes
  import opened EbShapes
  import opened EbRadix
  import opened EbDeletion
  import opened EbMemory
  import opened EbLinks
  import opened EbRemoval

  /** What holds of the tree at all times: each part used once and above its own leaf, the keys
      sorted by bits, and unused node parts nowhere but in one entry. */
  ghost predicate Sound(t: Tree, unique: bool)
  {
    Elastic(t) && Radix(t) && OwnFirst(t) && (unique ==> NoDups(t))
  }

  lemma DeleteSound(t: Tree, d: EbNode, unique: bool)
    requires t.Node? && d in LeafSet(t) && Sound(t, unique)
    ensures Sound(Delete(t, d), unique)
  {
    DeleteElastic(t, d);
    DeleteRadix(t, d);
    DeleteOwnFirst(t, d);
    if unique { DeleteNoDups(t, d); }
  }

  lemma InsertSound(t: Tree, x: EbNode, unique: bool)
    requires Sound(t, unique) && x !in LeafSet(t)
    requires unique ==> FirstWith(Leaves(t), x.bits) == null
    ensures Sound(Insert(t, x), unique) && LeafSet(Insert(t, x)) == LeafSet(t) + {x}
    ensures Leaves(Insert(t, x)) == Splice(Leaves(t), x)
  {
    OneSpareNode(t);
    InsertSets(t, x);
    InsertRadix(t, x);
    InsertOwnFirst(t, x);
    InsertLeaves(t, x);
    if unique { InsertNoDups(t, x); }
  }

  /** A descent for the key w through the tree T has come to t, with c above it. */
  ghost predicate Reached(T: Tree, unique: bool, w: Bits, c: Ctx, t: Tree)
  {
    T == Plug(c, t) && Sound(t, unique) && StopAt(T, w) == StopAt(t, w) && LeafSet(t) <= LeafSet(T)
  }

  ghost function Below(t: Tree, right: bool): Tree
    requires t.Node?
  {
    if right then t.r else t.l
  }

  ghost function Deeper(c: Ctx, t: Tree, right: bool): Ctx
    requires t.Node?
  {
    if right then InRight(t.n, t.k, t.l, c) else InLeft(t.n, t.k, c, t.r)
  }

  lemma Descends(T: Tree, unique: bool, w: Bits, c: Ctx, t: Tree)
    requires Reached(T, unique, w, c, t) && !Stops(t, w)
    ensures var right := GoesRight(t.k, w);
      && Reached(T, unique, w, Deeper(c, t, right), Below(t, right))
      && forall x: EbNode :: x.bits == w ==> Plug(c, Insert(t, x)) == Plug(Deeper(c, t, right),
        Insert(Below(t, right), x))
  {
  }

  /** What the end of a descent says about the key: it is the one there, or it is not in the tree. */
  lemma Decides(T: Tree, unique: bool, w: Bits, c: Ctx, t: Tree)
    requires Sound(T, unique) && Reached(T, unique, w, c, t) && Stops(t, w)
    ensures FirstWith(Leaves(T), w) == if t.n.bits == w then First(t) else null
    ensures t.n.bits == w ==> t.Leaf? || (!unique && t.k.Dup? && DupTree(t, t.k.d - 1, w))
  {
    StopAtFinds(T, w);
    JoinUniform(t, w);
  }

  /** Where a leaf's parent pointer leads, and how the root is told from a node. */
  lemma LeafParent(M: Mem, y: Layer, root: EbNode, t: Tree, d: EbNode)
    requires d in LeafSet(t) && Elastic(t) && Linked(M, y, root, t) && root !in LeafSet(t)
    ensures d in M
    ensures var p := M[d].leaf_p.to;
      && p in LeafSet(t) + {root} && p in M && (M[p].right.to == null <==> t.Leaf?)
      && (t.Leaf? ==> p == root)
  {
    if t.Node? { var c, p, k, s, side := Locate(M, y, root, t, d); }
  }

  /** What an insertion makes of the walking order, and what it returns: x goes just after the last
      entry of a key not above its own, unless keys are unique and the first entry with its key
      is returned instead. */
  ghost predicate Inserted(unique: bool, before: seq<EbNode>, x: EbNode, r: EbNode, after: seq<EbNode>)
  {
    var found := FirstWith(before, x.bits);
    if unique && found != null then r == found && after == before
    else r == x && after == Splice(before, x)
  }

  /** The abstract tree after an insertion that returned r. */
  ghost function ShapeAfter(before: Option<Tree>, x: EbNode, r: EbNode): Option<Tree>
  {
    if r != x then before else Some(if before.None? then Leaf(x) else Insert(before.value, x))
  }

  lemma MovedInside(t: Tree, d: EbNode, moved: EbNode, c: Ctx, u: Tree)
    requires t.Node? && d in LeafSet(t) && Elastic(t) && Moved(t, d, moved, c, u)
    ensures moved in LeafSet(Delete(t, d))
  {
    DeleteElastic(t, d);
    PlugSets(c, u.(n := moved));
    OneSpareNode(Delete(t, d));
  }

  class EbTree {
    /** The struct eb_root. Its right branch is null, tagged when keys are unique. */
    const root: EbNode

    ghost const layer: Layer
    ghost var shape: Option<Tree>

    ghost function Entries(): set<EbNode>
      reads this
    {
      if shape.None? then {} else LeafSet(shape.value)
    }

    ghost function Foot(): set<EbNode>
      reads this
    {
      Entries() + {root}
    }

    /** The entries in walking order. */
    ghost function Contents(): seq<EbNode>
      reads this
    {
      if shape.None? then [] else Leaves(shape.value)
    }

    predicate Unique()
      reads root
    {
      root.right.tag
    }

    ghost predicate Valid()
      reads this, Foot()
    {
      && root !in Entries()
      && root.right.to == null
      && (layer.Scalar? ==> forall n :: n in Entries() ==> |n.bits| == layer.w)
      && match shape
         case None => root.left == NULL
         case Some(t) => Sound(t, Unique()) && Linked(Snap(Foot()), layer, root, t)
    }

    /** EB_ROOT and EB_ROOT_UNIQUE. */
    constructor (unique: bool, ghost y: Layer)
      ensures Valid() && shape == None && layer == y && Unique() == unique && fresh(root)
    {
      root := new EbNode(0, [], 0, []);
      layer := y;
      shape := None;
      new;
      root.right := Troot(null, unique);
    }

    /** __eb_delete. An entry that is not linked is left alone. Tells whose node part has taken the
        place of the deleted entry's, for the trees that keep more in a node than its links. */
    method Delete(node: EbNode) returns (moved: EbNode?, ghost c: Ctx, ghost u: Tree)
      requires Valid() && node != root
      requires node in Entries() || node.leaf_p == NULL
      modifies this`shape, node`leaf_p
      modifies Foot()`left, Foot()`right, Foot()`node_p, Foot()`leaf_p, Foot()`bit
      ensures Valid() && Unique() == old(Unique())
      ensures Entries() == old(Entries()) - {node}
      ensures Contents() == if node in old(Entries()) then Remove(old(Contents()), node) else old(Contents())
      ensures node.leaf_p == NULL
      ensures node !in old(Entries()) ==> moved == null && shape == old(shape)
      ensures node in old(Entries()) ==> shape == if old(shape).value.Leaf? then None
        else Some(EbDeletion.Delete(old(shape).value, node))
      ensures moved == null && shape.Some? && node in old(Entries()) ==> shape.value == Cut(old(shape).value, node)
      ensures moved != null ==> old(shape).Some? && old(shape).value.Node? && node in old(Entries())
      ensures moved != null ==> moved in Entries() && Moved(old(shape).value, node, moved, c, u)
    {
      ghost var S, M := Foot(), Snap(Foot());
      if node in Entries() { LeafParent(M, layer, root, shape.value, node); }
      assert node in S ==> M[node] == CellOf(node);
      moved, c, u := null, Top, Leaf(root);
      if node.leaf_p.to == null { return; }
      ghost var t := shape.value;
      moved, c, u := RemoveLinked(node, t, S);
      ghost var M' := Snap(S);
      node.leaf_p := NULL;
      if t.Node? && moved != null { MovedInside(t, node, moved, c, u); }
      Shrink(node, t, S, M');
    }

    /** The links being cut, the abstract tree follows. */
    ghost method Shrink(node: EbNode, t: Tree, S: set<EbNode>, M: Mem)
      requires shape == Some(t) && node in LeafSet(t) && node != root && S == Foot() && root !in Entries()
        && root.right.to == null
      requires Sound(t, Unique()) && (layer.Scalar? ==> forall n :: n in Entries() ==> |n.bits| == layer.w)
      requires if t.Leaf? then root.left == NULL else Linked(M, layer, root, EbDeletion.Delete(t, node))
      requires M.Keys == S && forall n :: n in S && n != node ==> M[n] == CellOf(n)
      modifies this`shape
      ensures Valid() && Entries() == LeafSet(t) - {node} && Contents() == Remove(Leaves(t), node)
      ensures shape == if t.Leaf? then None else Some(EbDeletion.Delete(t, node))
    {
      shape := if t.Leaf? then None else Some(EbDeletion.Delete(t, node));
      if t.Node? {
        DeleteSound(t, node, Unique());
        DeleteLeafSet(t, node);
        DeleteLeaves(t, node);
        LinkedFrame(M, Snap(Foot()), layer, root, shape.value);
      }
    }

    /** Takes the leaf out of its branch, with its parent unless that is the root. */
    method RemoveLinked(node: EbNode, ghost t: Tree, ghost S: set<EbNode>)
      returns (moved: EbNode?, ghost c: Ctx, ghost u: Tree)
      requires node in LeafSet(t) && Elastic(t) && LeafSet(t) <= S && root in S && root !in LeafSet(t)
      requires Linked(Snap(S), layer, root, t)
      modifies S`left, S`right, S`node_p, S`leaf_p, S`bit
      ensures root.right == old(root.right)
      ensures if t.Leaf? then root.left == NULL else Linked(Snap(S), layer, root, EbDeletion.Delete(t, node))
      ensures moved == null <== t.Leaf?
      ensures t.Node? && moved == null ==> EbDeletion.Delete(t, node) == Cut(t, node)
      ensures t.Node? && moved != null ==> moved in S && Moved(t, node, moved, c, u)
    {
      ghost var M := Snap(S);
      LeafParent(M, layer, root, t, node);
      assert M[node] == CellOf(node);
      var parent := node.leaf_p.to;
      assert M[parent] == CellOf(parent);
      if parent.right.to == null {
        // an only leaf
        parent.left := NULL;
        moved, c, u := null, Top, t;
      } else {
        moved, c, u := Unlink(node, root, layer, t, S);
        assert Snap(S)[root] == CellOf(root);
      }
    }

    /** The first entry of an empty tree: its leaf part goes below the left branch. */
    method InsertOnly(x: EbNode)
      requires Valid() && shape == None && x != root && (layer.Scalar? ==> |x.bits| == layer.w)
      modifies this`shape, root`left, x`leaf_p, x`node_p
      ensures Valid() && Unique() == old(Unique())
      ensures shape == Some(Leaf(x)) && Entries() == {x} && Contents() == [x]
    {
      root.left := Troot(x, EB_LEAF);
      x.leaf_p := Troot(root, EB_LEFT);
      x.node_p := NULL;
      shape := Some(Leaf(x));
      assert Snap(Foot())[root] == CellOf(root) && Snap(Foot())[x] == CellOf(x);
    }

    /** The end of every insertion. The descent has stopped above t, with the key of x or at the place
        for it. A unique tree that has the key refuses x, whose bit is then left. */
    method Conclude(x: EbNode, up: Troot, troot: Troot, equal: bool, right: bool, bit: int, left: int,
                    ghost c: Ctx, ghost t: Tree, ghost k: Kind) returns (r: EbNode)
      requires Valid() && shape.Some? && x !in Foot() && (layer.Scalar? ==> |x.bits| == layer.w)
      requires Reached(shape.value, Unique(), x.bits, c, t) && Stops(t, x.bits)
      requires Insert(shape.value, x) == Plug(c, Join(t, x))
      requires up == Up(root, c) && troot == At(t)
      requires equal <==> x.bits == t.n.bits
      requires !equal || t.Leaf? ==> Join(t, x) == Above(t, x, k, right) && bit == BitField(layer, k)
      modifies this`shape, x`left, x`right, x`node_p, x`leaf_p, x`bit
      modifies Foot()`left, Foot()`right, Foot()`node_p, Foot()`leaf_p, Foot()`bit
      ensures Valid() && Unique() == old(Unique())
      ensures Inserted(old(Unique()), old(Contents()), x, r, Contents())
      ensures Entries() == old(Entries()) + if r == x then {x} else {}
      ensures shape == ShapeAfter(old(shape), x, r) && (r != x ==> x.leaf_p == old(x.leaf_p))
    {
      Decides(shape.value, Unique(), x.bits, c, t);
      LeavesDistinct(t);
      r := x;
      if equal && Unique() {
        Refuse(x, up, left);
        r := troot.to;
      } else {
        Place(x, up, troot, equal, right, bit, c, t, k);
      }
    }

    method Refuse(x: EbNode, up: Troot, left: int)
      requires Valid() && x !in Foot()
      modifies x`node_p, x`bit
      ensures Valid()
    {
      x.node_p := up;
      x.bit := left;
      assert Snap(Foot()) == old(Snap(Foot()));
    }

    /** Puts the entry in its place. The descent for x has stopped above the tree t, which hangs on
        the branch up. Unless t is a tree of duplicates of x, x goes above it. */
    method Place(x: EbNode, up: Troot, troot: Troot, equal: bool, right: bool, bit: int,
                 ghost c: Ctx, ghost t: Tree, ghost k: Kind)
      requires Valid() && x !in Foot() && (layer.Scalar? ==> |x.bits| == layer.w)
      requires shape == Some(Plug(c, t)) && Insert(shape.value, x) == Plug(c, Join(t, x))
      requires Unique() ==> FirstWith(Contents(), x.bits) == null
      requires up == Up(root, c) && troot == At(t)
      requires equal <==> x.bits == t.n.bits
      requires equal && t.Node? ==> t.k.Dup? && DupTree(t, t.k.d - 1, x.bits)
      requires !equal || t.Leaf? ==> Join(t, x) == Above(t, x, k, right) && bit == BitField(layer, k)
      modifies this`shape, x`left, x`right, x`node_p, x`leaf_p, x`bit
      modifies Foot()`left, Foot()`right, Foot()`node_p, Foot()`leaf_p, Foot()`bit
      ensures Valid() && Unique() == old(Unique())
      ensures shape == Some(Insert(old(shape).value, x))
      ensures Entries() == old(Entries()) + {x} && Contents() == Splice(old(Contents()), x)
    {
      ghost var S := Foot() + {x};
      ghost var T := shape.value;
      ghost var T' := Plug(c, Join(t, x));
      assert Sound(T', Unique()) && LeafSet(T') == LeafSet(T) + {x} && Leaves(T') == Splice(Leaves(T), x) by {
        InsertSound(T, x, Unique());
      }
      WithRoom(x);
      PlaceLinks(x, up, troot, equal, right, bit, c, t, k, S);
      Regrow(x, T');
    }

    /** The links being set, the abstract tree follows. */
    ghost method Regrow(x: EbNode, t': Tree)
      requires shape.Some? && root !in Entries() && x != root && root.right.to == null
      requires Sound(t', Unique()) && LeafSet(t') == Entries() + {x}
      requires Linked(Snap(Foot() + {x}), layer, root, t')
      requires layer.Scalar? ==> |x.bits| == layer.w && forall n :: n in Entries() ==> |n.bits| == layer.w
      modifies this`shape
      ensures Valid() && shape == Some(t')
    {
      shape := Some(t');
      assert Foot() == old(Foot() + {x});
    }

    lemma WithRoom(x: EbNode)
      requires Valid() && shape.Some? && x !in Foot()
      ensures Linked(Snap(Foot() + {x}), layer, root, shape.value)
    {
      LinkedFrame(Snap(Foot()), Snap(Foot() + {x}), layer, root, shape.value);
    }

    method PlaceLinks(x: EbNode, up: Troot, troot: Troot, equal: bool, right: bool, bit: int,
                      ghost c: Ctx, ghost t: Tree, ghost k: Kind, ghost S: set<EbNode>)
      requires Linked(Snap(S), layer, root, Plug(c, t)) && Elastic(Plug(c, t))
      requires LeafSet(Plug(c, t)) <= S && root in S && x in S
      requires root !in LeafSet(Plug(c, t)) && x !in LeafSet(Plug(c, t)) && x != root
      requires up == Up(root, c) && troot == At(t)
      requires equal <==> x.bits == t.n.bits
      requires equal && t.Node? ==> t.k.Dup? && DupTree(t, t.k.d - 1, x.bits)
      requires !equal || t.Leaf? ==> Join(t, x) == Above(t, x, k, right) && bit == BitField(layer, k)
      modifies S`left, S`right, S`node_p, S`leaf_p, S`bit
      ensures Linked(Snap(S), layer, root, Plug(c, Join(t, x)))
      ensures root.right == old(root.right)
    {
      ghost var M := Snap(S);
      if equal && troot.tag == EB_NODE {
        InsertDuplicate(troot.to, x, root, layer, c, t, S);
      } else {
        Attach(up, troot, x, right, bit, root, layer, c, t, k, S);
      }
      assert M[root].right == Snap(S)[root].right;
    }
  }

  lemma EmptyOrNot(tree: EbTree)
    requires tree.Valid()
    ensures tree.root.left == NULL <==> tree.shape == None
    ensures tree.shape.Some? ==> tree.root.left == At(tree.shape.value)
    ensures tree.shape.Some? ==> Rep(Snap(tree.Foot()), tree.layer, tree.shape.value, Troot(tree.root, EB_LEFT))
  {
    if tree.shape.Some? {
      assert Snap(tree.Foot())[tree.root] == CellOf(tree.root);
    }
  }
}
