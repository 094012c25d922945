/**
  Trees of integer keys of w bits, unsigned (eb32) and signed (eb32i).
 */
module Eb32 {
  import opened Integers
  import opened EbNodes
  import opened EbShapes
  import opened EbRadix
  import opened EbMemory
  import opened EbRoots

  /** The position of a key in the order of its tree. */
  function Rank(v: nat, w: nat, signed: bool): (r: nat)
    requires v < Pow2(w) && w > 0
    ensures r < Pow2(w)
  {
    if signed then Flip(v, w) else v
  }

  ghost predicate Keyed(n: EbNode, w: nat, signed: bool)
  {
    w > 0 && n.key < Pow2(w) && n.bits == IntBits(Rank(n.key, w, signed), w)
  }

  ghost predicate AllKeyed(s: set<EbNode>, w: nat, signed: bool)
  {
    forall n :: n in s ==> Keyed(n, w, signed)
  }

  ghost predicate IntTree(tree: EbTree, w: nat, signed: bool)
    reads tree, tree.Foot()
  {
    tree.Valid() && tree.layer == Scalar(w) && AllKeyed(tree.Entries(), w, signed)
  }

  /** All keys being equally long, there are no cover nodes, and bit fields tell duplicates. */
  lemma IntNode(t: Tree, w: nat, signed: bool)
    requires t.Node? && Radix(t) && Elastic(t) && AllKeyed(LeafSet(t), w, signed)
    ensures t.k.Cover? ==> false
    ensures t.k.Dup? ==> t.k.d < 0
    ensures t.k.Normal? ==> t.k.p < w
    ensures Keyed(t.n, w, signed)
  {
    FirstIsFirst(t.l);
    FirstIsFirst(t.r);
    assert First(t.l) in LeafSet(t) && First(t.r) in LeafSet(t);
    LeavesDistinct(t);
  }

  /** The test that ends a descent, and the side on which it goes on. */
  lemma IntStep(t: Tree, x: EbNode, w: nat, signed: bool)
    requires t.Node? && t.k.Normal? && Radix(t) && Elastic(t) && AllKeyed(LeafSet(t), w, signed) && Keyed(x, w, signed)
    ensures Keyed(t.n, w, signed) && t.k.p < w
    ensures var n := w - 1 - t.k.p;
      && (Stops(t, x.bits) <==> Shr(Xor(x.key, t.n.key), n) >= 2)
      && (GoesRight(t.k, x.bits) <==> Shr(Rank(x.key, w, signed), n) % 2 == 1)
  {
    IntNode(t, w, signed);
    var a, b, n := Rank(x.key, w, signed), Rank(t.n.key, w, signed), w - 1 - t.k.p;
    if signed { XorFlip(x.key, t.n.key, w); }
    NoCommonBits(a, b, w, n);
    BitAt(a, w, n);
  }

  /** One round of a descent for x: whether it ends at t, and if not, where it goes on. */
  lemma IntRound(t: Tree, x: EbNode, w: nat, signed: bool)
    requires t.Node? && Radix(t) && Elastic(t) && AllKeyed(LeafSet(t), w, signed) && Keyed(x, w, signed)
    ensures Keyed(t.n, w, signed)
    ensures var b := BitField(Scalar(w), t.k);
      if b < 0 then Stops(t, x.bits)
      else
        && (Stops(t, x.bits) <==> Shr(Xor(x.key, t.n.key), b) >= 2)
        && (GoesRight(t.k, x.bits) <==> Shr(Rank(x.key, w, signed), b) % 2 == 1)
  {
    IntNode(t, w, signed);
    if t.k.Normal? { IntStep(t, x, w, signed); }
  }

  /** Where the descent ends, the bit and the side for x follow from the two keys. */
  lemma IntJoin(t: Tree, x: EbNode, w: nat, signed: bool)
    requires Keyed(x, w, signed) && Keyed(t.n, w, signed)
    ensures x.bits == t.n.bits <==> x.key == t.n.key
    ensures x.key == t.n.key && t.Leaf? ==> Join(t, x) == Above(t, x, Dup(-1), true)
    ensures x.key != t.n.key ==> Xor(x.key, t.n.key) > 0
    ensures x.key != t.n.key ==>
      var n := Fls(Xor(x.key, t.n.key)) - 1;
      n < w && Join(t, x) == Above(t, x, Normal(w - 1 - n), Rank(x.key, w, signed) > Rank(t.n.key, w, signed))
  {
    var a, b := Rank(x.key, w, signed), Rank(t.n.key, w, signed);
    if signed { XorFlip(x.key, t.n.key, w); FlipOrder(x.key, t.n.key, w); }
    if x.bits == t.n.bits { BitsInjective(a, b, w); }
    if a != b { FirstDifference(a, b, w); }
  }

  /** What the comparison of the keys tells at the end of a descent. */
  lemma IntEnd(t: Tree, x: EbNode, w: nat, signed: bool) returns (k: Kind)
    requires Keyed(x, w, signed) && Keyed(t.n, w, signed)
    ensures x.bits == t.n.bits <==> x.key == t.n.key
    ensures x.key != t.n.key ==> Xor(x.key, t.n.key) > 0
    ensures x.key != t.n.key || t.Leaf? ==>
      && Join(t, x) == Above(t, x, k, Rank(x.key, w, signed) >= Rank(t.n.key, w, signed))
      && BitField(Scalar(w), k) == if x.key == t.n.key then -1 else Fls(Xor(x.key, t.n.key)) - 1
  {
    IntJoin(t, x, w, signed);
    if signed { FlipOrder(x.key, t.n.key, w); }
    k := if x.key == t.n.key then Dup(-1) else Normal(w - Fls(Xor(x.key, t.n.key)));
  }

  /** The descent of __eb32_insert, to the branch where the new entry goes. */
  method Descend(root_: EbNode, x: EbNode, ghost w: nat, ghost T: Tree, ghost unique: bool, ghost S: set<EbNode>)
    returns (up: Troot, troot: Troot, ghost c: Ctx, ghost t: Tree)
    requires Sound(T, unique) && AllKeyed(LeafSet(T), w, false) && Keyed(x, w, false)
    requires root_ in S && root_.left == At(T) && Rep(Snap(S), Scalar(w), T, Troot(root_, EB_LEFT))
    ensures Reached(T, unique, x.bits, c, t) && Stops(t, x.bits)
    ensures up == Up(root_, c) && troot == At(t) && Insert(T, x) == Plug(c, Join(t, x))
  {
    ghost var M := Snap(S);
    c, t := Top, T;
    var root, side := root_, EB_LEFT;
    troot := root.left;
    while true
      invariant Reached(T, unique, x.bits, c, t)
      invariant Troot(root, side) == Up(root_, c) && troot == At(t) && Rep(M, Scalar(w), t, Troot(root, side))
      invariant Insert(T, x) == Plug(c, Insert(t, x))
      decreases t
    {
      if troot.tag == EB_LEAF {
        break;
      }
      var old_ := troot.to;
      assert M[old_] == CellOf(old_);
      var old_node_bit := old_.bit;
      IntRound(t, x, w, false);
      // the key belongs above this node
      if old_node_bit < 0 || Shr(Xor(x.key, old_.key), old_node_bit) >= 2 { break; }
      Descends(T, unique, x.bits, c, t);
      root := old_;
      side := Shr(x.key, old_node_bit) % 2 == 1;
      c, t := Deeper(c, t, side), Below(t, side);
      troot := if side == EB_LEFT then root.left else root.right;
    }
    up := Troot(root, side);
  }

  /** The part common to both insertions, once the descent has ended and the keys are compared. */
  method Finish(tree: EbTree, x: EbNode, up: Troot, troot: Troot, right: bool,
                ghost w: nat, ghost signed: bool, ghost c: Ctx, ghost t: Tree) returns (r: EbNode)
    requires IntTree(tree, w, signed) && tree.shape.Some? && x !in tree.Foot()
    requires Keyed(x, w, signed) && Keyed(t.n, w, signed)
    requires Reached(tree.shape.value, tree.Unique(), x.bits, c, t) && Stops(t, x.bits)
    requires up == Up(tree.root, c) && troot == At(t) && Insert(tree.shape.value, x) == Plug(c, Join(t, x))
    requires right <==> Rank(x.key, w, signed) >= Rank(t.n.key, w, signed)
    modifies tree`shape, x`left, x`right, x`node_p, x`leaf_p, x`bit
    modifies tree.Foot()`left, tree.Foot()`right, tree.Foot()`node_p, tree.Foot()`leaf_p, tree.Foot()`bit
    ensures tree.Valid() && tree.Unique() == old(tree.Unique())
    ensures Inserted(old(tree.Unique()), old(tree.Contents()), x, r, tree.Contents())
    ensures tree.Entries() == old(tree.Entries()) + if r == x then {x} else {}
    ensures tree.shape == ShapeAfter(old(tree.shape), x, r) && (r != x ==> x.leaf_p == old(x.leaf_p))
  {
    var old_ := troot.to;
    ghost var k := IntEnd(t, x, w, signed);
    var equal := x.key == old_.key;
    var bit := if equal then -1 else Fls(Xor(x.key, old_.key)) - 1;
    r := tree.Conclude(x, up, troot, equal, right, bit, -1, c, t, k);
  }

  /** __eb32_insert: x goes just after the last entry whose key is not above its own, unless the
      tree takes each key once and has it already. */
  method Insert32(tree: EbTree, x: EbNode, ghost w: nat) returns (r: EbNode)
    requires IntTree(tree, w, false) && x !in tree.Foot() && Keyed(x, w, false)
    modifies tree`shape, x`left, x`right, x`node_p, x`leaf_p, x`bit
    modifies tree.Foot()`left, tree.Foot()`right, tree.Foot()`node_p, tree.Foot()`leaf_p, tree.Foot()`bit
    ensures IntTree(tree, w, false) && tree.Unique() == old(tree.Unique())
    ensures Inserted(old(tree.Unique()), old(tree.Contents()), x, r, tree.Contents())
    ensures tree.Entries() == old(tree.Entries()) + if r == x then {x} else {}
    ensures tree.shape == ShapeAfter(old(tree.shape), x, r) && (r != x ==> x.leaf_p == old(x.leaf_p))
  {
    EmptyOrNot(tree);
    if tree.root.left == NULL {
      tree.InsertOnly(x);
      r := x;
    } else {
      var up, troot;
      ghost var c, t;
      up, troot, c, t := Descend(tree.root, x, w, tree.shape.value, tree.Unique(), tree.Foot());
      assert Snap(tree.Foot()) == old(Snap(tree.Foot()));
      assert tree.Valid();
      LeavesDistinct(t);
      r := Finish(tree, x, up, troot, x.key >= troot.to.key, w, false, c, t);
    }
  }

  /** new->key + 0x80000000 in an int. */
  function HighBitShifted(v: nat, w: nat): int
    requires w > 0 && v < Pow2(w)
  {
    Signed(AddWord(v, Pow2(w - 1), w), w)
  }

  /** The side taken from the shifted key is that of its rank. */
  lemma SignedSide(v: nat, w: nat, b: nat)
    requires w > 0 && v < Pow2(w) && b < w
    ensures Shr(HighBitShifted(v, w), b) % 2 == 1 <==> Shr(Rank(v, w, true), b) % 2 == 1
  {
    SignedShift(Flip(v, w), w, b);
  }

  lemma SignedRound(t: Tree, x: EbNode, w: nat, newkey: int)
    requires t.Node? && Radix(t) && Elastic(t) && AllKeyed(LeafSet(t), w, true) && Keyed(x, w, true)
    requires newkey == HighBitShifted(x.key, w)
    ensures Keyed(t.n, w, true)
    ensures var b := BitField(Scalar(w), t.k);
      if b < 0 then Stops(t, x.bits)
      else
        && (Stops(t, x.bits) <==> Shr(Xor(x.key, t.n.key), b) >= 2)
        && (GoesRight(t.k, x.bits) <==> Shr(newkey, b) % 2 == 1)
  {
    IntRound(t, x, w, true);
    IntNode(t, w, true);
    if t.k.Normal? { SignedSide(x.key, w, w - 1 - t.k.p); }
  }

  /** The descent of __eb32i_insert: the keys are told apart as unsigned words, and the side is
      taken from the key shifted by half the range, kept in a signed variable. */
  method DescendSigned(root_: EbNode, x: EbNode, w: nat, ghost T: Tree, ghost unique: bool, ghost S: set<EbNode>)
    returns (up: Troot, troot: Troot, ghost c: Ctx, ghost t: Tree)
    requires Sound(T, unique) && AllKeyed(LeafSet(T), w, true) && Keyed(x, w, true)
    requires root_ in S && root_.left == At(T) && Rep(Snap(S), Scalar(w), T, Troot(root_, EB_LEFT))
    ensures Reached(T, unique, x.bits, c, t) && Stops(t, x.bits)
    ensures up == Up(root_, c) && troot == At(t) && Insert(T, x) == Plug(c, Join(t, x))
  {
    ghost var M := Snap(S);
    c, t := Top, T;
    var root, side := root_, EB_LEFT;
    troot := root.left;
    var newkey := HighBitShifted(x.key, w);
    while true
      invariant Reached(T, unique, x.bits, c, t)
      invariant Troot(root, side) == Up(root_, c) && troot == At(t) && Rep(M, Scalar(w), t, Troot(root, side))
      invariant Insert(T, x) == Plug(c, Insert(t, x))
      decreases t
    {
      if troot.tag == EB_LEAF {
        break;
      }
      var old_ := troot.to;
      assert M[old_] == CellOf(old_);
      var old_node_bit := old_.bit;
      SignedRound(t, x, w, newkey);
      if old_node_bit < 0 || Shr(Xor(x.key, old_.key), old_node_bit) >= 2 { break; }
      Descends(T, unique, x.bits, c, t);
      root := old_;
      side := Shr(newkey, old_node_bit) % 2 == 1;
      c, t := Deeper(c, t, side), Below(t, side);
      troot := if side == EB_LEFT then root.left else root.right;
    }
    up := Troot(root, side);
  }

  /** __eb32i_insert: the same in signed order. */
  method InsertSigned(tree: EbTree, x: EbNode, w: nat) returns (r: EbNode)
    requires IntTree(tree, w, true) && x !in tree.Foot() && Keyed(x, w, true)
    modifies tree`shape, x`left, x`right, x`node_p, x`leaf_p, x`bit
    modifies tree.Foot()`left, tree.Foot()`right, tree.Foot()`node_p, tree.Foot()`leaf_p, tree.Foot()`bit
    ensures IntTree(tree, w, true) && tree.Unique() == old(tree.Unique())
    ensures Inserted(old(tree.Unique()), old(tree.Contents()), x, r, tree.Contents())
    ensures tree.Entries() == old(tree.Entries()) + if r == x then {x} else {}
    ensures tree.shape == ShapeAfter(old(tree.shape), x, r) && (r != x ==> x.leaf_p == old(x.leaf_p))
  {
    EmptyOrNot(tree);
    if tree.root.left == NULL {
      tree.InsertOnly(x);
      r := x;
    } else {
      var up, troot;
      ghost var c, t;
      up, troot, c, t := DescendSigned(tree.root, x, w, tree.shape.value, tree.Unique(), tree.Foot());
      assert Snap(tree.Foot()) == old(Snap(tree.Foot()));
      LeavesDistinct(t);
      FlipOrder(troot.to.key, x.key, w);
      r := Finish(tree, x, up, troot, Signed(x.key, w) >= Signed(troot.to.key, w), w, true, c, t);
    }
  }
}
