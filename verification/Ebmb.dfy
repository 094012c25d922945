/**
  Trees of prefixes of byte blocks, as for network addresses: insertion.
 */
module Ebmb {
  import opened BitStrings
  import opened ByteKeys
  import opened EbNodes
  import opened EbShapes
  import opened EbRadix
  import opened EbMemory
  import opened EbRoots

  /** The key of a prefix is its first pfx bits. What follows them in the block does not matter. */
  ghost predicate Keyed(n: EbNode, len: nat)
  {
    0 < len <= |n.bytes| && n.pfx <= 8 * len && n.bits == BytesBits(n.bytes)[..n.pfx]
  }

  ghost predicate AllKeyed(s: set<EbNode>, len: nat)
  {
    forall n :: n in s ==> Keyed(n, len)
  }

  ghost predicate PrefixTree(tree: EbTree, len: nat)
    reads tree, tree.Foot()
  {
    tree.Valid() && tree.layer == Prefixes && AllKeyed(tree.Entries(), len)
  }

  ghost function Full(n: EbNode): Bits
  {
    BytesBits(n.bytes)
  }

  function Min(a: int, b: int): int
  {
    if a < b then a else b
  }

  lemma CommonOfPrefixes(a: Bits, b: Bits, m: nat, n: nat)
    requires m <= |a| && n <= |b|
    ensures Common(a[..m], b[..n]) == Min(Common(a, b), Min(m, n))
  {
    var c := Common(a, b);
    var d := Min(c, Min(m, n));
    Weaken(a, b, c, d);
    assert a[..m][..d] == a[..d] && b[..n][..d] == b[..d];
    CommonIs(a[..m], b[..n], d);
  }

  /** x and all keys of t agree on m bits. */
  ghost predicate Agreed(t: Tree, w: Bits, m: nat)
  {
    m <= |w| && forall e :: e in LeafSet(t) ==> m <= |e.bits| && e.bits[..m] == w[..m]
  }

  /** The position of a node is not before what its keys agree on. */
  lemma AgreedPosition(t: Tree, w: Bits, m: nat)
    requires t.Node? && !t.k.Dup? && Radix(t) && Agreed(t, w, m)
    ensures m <= t.k.p
  {
    FirstIsFirst(t.l);
    FirstIsFirst(t.r);
    var a, b := First(t.l), First(t.r);
    assert forall i :: 0 <= i < m ==> a.bits[i] == a.bits[..m][i] && b.bits[i] == b.bits[..m][i];
  }

  /** The keys of exactly p bits on the left of a cover node are one key. */
  lemma CoverLeft(t: Tree, w: Bits)
    requires t.Node? && t.k.Cover? && Radix(t) && Elastic(t) && !Stops(t, w) && |w| == t.k.p
    ensures forall e :: e in LeafSet(t.l) ==> e.bits == w
    ensures t.l.Leaf? || t.l.k.Dup?
    ensures t.l.n.bits == w
  {
    Weaken(w, t.n.bits, Common(w, t.n.bits), t.k.p);
    assert w == w[..t.k.p];
    forall e | e in LeafSet(t.l) ensures e.bits == w { assert e.bits == e.bits[..t.k.p]; }
    LeavesDistinct(t.l);
    if t.l.Node? {
      FirstIsFirst(t.l.l);
      FirstIsFirst(t.l.r);
      assert First(t.l.l).bits == First(t.l.r).bits == w;
    }
  }

  /** One step of the descent for x at a node that is not one of duplicates. The node's key and the
      new one agree on eq bits, which counts no more than needed. */
  lemma PrefixStops(t: Tree, x: EbNode, len: nat, eq: nat)
    requires t.Node? && !t.k.Dup? && Radix(t) && Elastic(t) && AllKeyed(LeafSet(t), len) && Keyed(x, len)
    requires var c := Common(Full(x), Full(t.n)); if c < t.k.p then eq == c else t.k.p <= eq <= c
    ensures Keyed(t.n, len) && t.k.p <= t.n.pfx
    ensures var b, b0 := 2 * eq + 1, BitField(Prefixes, t.k);
      if b >= 2 * x.pfx && 2 * x.pfx < b0 then
        Stops(t, x.bits) && x.bits != t.n.bits && Join(t, x) == Above(t, x, Cover(x.pfx), false)
      else if b < b0 then
        && Stops(t, x.bits) && x.bits != t.n.bits && eq < x.pfx && eq < t.n.pfx
        && Full(x)[eq] != Full(t.n)[eq] && Join(t, x) == Above(t, x, Normal(eq), Full(x)[eq])
      else
        && !Stops(t, x.bits) && t.k.p <= x.pfx
        && (GoesRight(t.k, x.bits) <==> if t.k.Cover? then 2 * x.pfx != b0 else Full(x)[t.k.p])
  {
    LeavesDistinct(t);
    CommonOfPrefixes(Full(x), Full(t.n), x.pfx, t.n.pfx);
    if x.bits == t.n.bits { CommonSelf(x.bits); }
  }

  lemma NormalAgrees(t: Tree, w: Bits)
    requires Radix(t) && t.Node? && t.k.Normal? && !Stops(t, w)
    ensures Agreed(Below(t, GoesRight(t.k, w)), w, t.k.p + 1)
  {
    var p := t.k.p;
    Weaken(w, t.n.bits, Common(w, t.n.bits), p);
    forall e | e in LeafSet(Below(t, GoesRight(t.k, w))) ensures p + 1 <= |e.bits| && e.bits[..p + 1] == w[..p + 1] {
      assert e.bits[..p + 1] == e.bits[..p] + [e.bits[p]];
      assert w[..p + 1] == w[..p] + [w[p]];
    }
  }

  lemma PrefixGoesOn(t: Tree, x: EbNode)
    requires Radix(t) && Elastic(t) && t.Node? && !t.k.Dup? && !Stops(t, x.bits)
    ensures var right := GoesRight(t.k, x.bits); var p := t.k.p; var u := Below(t, right);
      && (t.k.Cover? && !right ==> (u.Leaf? || u.k.Dup?) && u.n.bits == x.bits)
      && (t.k.Cover? && right ==> Agreed(u, x.bits, p))
      && (t.k.Normal? ==> Agreed(u, x.bits, p + 1))
  {
    if t.k.Normal? {
      NormalAgrees(t, x.bits);
    } else if GoesRight(t.k, x.bits) {
      Weaken(x.bits, t.n.bits, Common(x.bits, t.n.bits), t.k.p);
    } else {
      CoverLeft(t, x.bits);
    }
  }

  /** How a descent ended: right above a node, with the bit and the side to insert at, or above a
      leaf or a tree of duplicates, whose key remains to be compared. */
  ghost predicate Ended(t: Tree, x: EbNode, above: bool, bit: nat, diff: int, k: Kind)
  {
    if above then x.bits != t.n.bits && BitField(Prefixes, k) == bit && Join(t, x) == Above(t, x, k, diff >= 0)
    else t.Leaf? || t.k.Dup?
  }

  /** What is known about the bits when the descent is at t: whole bytes before bit agree, or the
      keys of t are known to be the new one. */
  ghost predicate Compared(t: Tree, x: EbNode, bit: nat)
  {
    Agreed(t, x.bits, 8 * (bit / 8)) || ((t.Leaf? || t.k.Dup?) && t.n.bits == x.bits)
  }

  lemma ComparedNode(t: Tree, x: EbNode, bit: nat, len: nat)
    requires t.Node? && !t.k.Dup? && Radix(t) && Elastic(t) && Compared(t, x, bit)
    requires AllKeyed(LeafSet(t), len) && Keyed(x, len)
    ensures 8 * (bit / 8) <= t.k.p <= t.n.pfx <= 8 * len && Keyed(t.n, len)
    ensures Common(Full(x), Full(t.n)) >= 8 * (bit / 8)
  {
    var m := 8 * (bit / 8);
    LeavesDistinct(t);
    AgreedPosition(t, x.bits, m);
    FullAgree(x, t.n, m);
  }

  lemma FullAgree(x: EbNode, n: EbNode, m: nat)
    requires x.pfx <= |Full(x)| && n.pfx <= |Full(n)|
    requires x.bits == Full(x)[..x.pfx] && n.bits == Full(n)[..n.pfx]
    requires m <= |x.bits| && m <= |n.bits| && x.bits[..m] == n.bits[..m]
    ensures Common(Full(x), Full(n)) >= m
  {
    assert Full(x)[..m] == x.bits[..m] && Full(n)[..m] == n.bits[..m];
    CommonAtLeast(Full(x), Full(n), m);
  }

  lemma AgreedBytes(t: Tree, x: EbNode, bit: nat)
    requires Agreed(t, x.bits, bit)
    ensures Compared(t, x, bit)
  {
    var n := 8 * (bit / 8);
    forall e | e in LeafSet(t) ensures n <= |e.bits| && e.bits[..n] == x.bits[..n] { Weaken(e.bits, x.bits, bit, n); }
  }

  /** x covers all of t. */
  lemma CoverEnds(t: Tree, x: EbNode, len: nat, eq: nat)
    requires t.Node? && !t.k.Dup? && Radix(t) && Elastic(t) && AllKeyed(LeafSet(t), len) && Keyed(x, len)
    requires var c := Common(Full(x), Full(t.n)); if c < t.k.p then eq == c else t.k.p <= eq <= c
    requires 2 * x.pfx <= 2 * eq + 1 && 2 * x.pfx < BitField(Prefixes, t.k)
    ensures Stops(t, x.bits) && Ended(t, x, true, 2 * x.pfx, -1, Cover(x.pfx))
  {
    PrefixStops(t, x, len, eq);
  }

  /** x differs from the node's key at the bit eq, before the node's position. */
  lemma NormalEnds(t: Tree, x: EbNode, len: nat, eq: nat)
    requires t.Node? && !t.k.Dup? && Radix(t) && Elastic(t) && AllKeyed(LeafSet(t), len) && Keyed(x, len)
    requires var c := Common(Full(x), Full(t.n)); if c < t.k.p then eq == c else t.k.p <= eq <= c
    requires 2 * eq + 1 < BitField(Prefixes, t.k) && 2 * eq + 1 < 2 * x.pfx
    ensures Stops(t, x.bits) && eq / 8 < |x.bytes| && eq / 8 < |t.n.bytes|
    ensures Ended(t, x, true, 2 * eq + 1, CmpBits(x.bytes, t.n.bytes, eq), Normal(eq))
  {
    PrefixStops(t, x, len, eq);
  }

  method EqualTo(x: EbNode, old_: EbNode, bit: nat, pos: nat, ghost len: nat, ghost t: Tree) returns (eq: nat)
    requires t.Node? && !t.k.Dup? && Radix(t) && Elastic(t) && Compared(t, x, bit)
    requires AllKeyed(LeafSet(t), len) && Keyed(x, len) && t.n == old_ && pos == t.k.p
    ensures var c := Common(Full(x), Full(t.n)); if c < t.k.p then eq == c else t.k.p <= eq <= c
  {
    ComparedNode(t, x, bit, len);
    eq := EqualBits(x.bytes, old_.bytes, bit, pos);
  }

  /** One round of the descent of __ebmb_insert_prefix, at a node that is not one of duplicates:
      either x goes above it, or the descent goes on at a side. */
  method Step(x: EbNode, old_: EbNode, old_node_bit: nat, bit0: nat, ghost len: nat, ghost t: Tree)
    returns (above: bool, bit: nat, diff: int, side: bool, ghost k: Kind)
    requires Radix(t) && Elastic(t) && AllKeyed(LeafSet(t), len) && Keyed(x, len)
    requires t.Node? && !t.k.Dup? && t.n == old_ && old_node_bit == BitField(Prefixes, t.k) && Compared(t, x, bit0)
    ensures if above then Stops(t, x.bits) && Ended(t, x, true, bit, diff, k)
            else !Stops(t, x.bits) && side == GoesRight(t.k, x.bits) && Compared(Below(t, side), x, bit)
  {
    var eq := EqualTo(x, old_, bit0, old_node_bit / 2, len, t);
    above, diff, side, k := false, 0, EB_LEFT, Dup(-1);
    // half-bits from here on: an odd number at a normal node
    bit := 2 * eq + 1;
    if bit >= 2 * x.pfx && 2 * x.pfx < old_node_bit {
      // the new prefix covers all that is below
      CoverEnds(t, x, len, eq);
      return true, 2 * x.pfx, -1, side, Cover(x.pfx);
    }
    if bit < old_node_bit {
      assert bit / 2 == eq;
      NormalEnds(t, x, len, eq);
      diff := CmpBits(x.bytes, old_.bytes, bit / 2);
      return true, bit, diff, side, Normal(eq);
    }
    PrefixStops(t, x, len, eq);
    bit, side := GoDown(x, old_node_bit, bit, len, t);
  }

  method GoDown(x: EbNode, old_node_bit: nat, bit0: nat, ghost len: nat, ghost t: Tree)
    returns (bit: nat, side: bool)
    requires Radix(t) && Elastic(t) && Keyed(x, len)
    requires t.Node? && !t.k.Dup? && old_node_bit == BitField(Prefixes, t.k) && !Stops(t, x.bits) && t.k.p <= x.pfx
    requires GoesRight(t.k, x.bits) <==> if t.k.Cover? then 2 * x.pfx != old_node_bit else Full(x)[t.k.p]
    ensures side == GoesRight(t.k, x.bits) && Compared(Below(t, side), x, bit)
  {
    PrefixGoesOn(t, x);
    bit, side := bit0, EB_LEFT;
    var pos := old_node_bit / 2;
    assert pos == t.k.p && (old_node_bit % 2 == 0 <==> t.k.Cover?);
    if old_node_bit % 2 == 0 {
      // on the left all prefixes have the length of the cover node
      if 2 * x.pfx != old_node_bit {
        side := EB_RGHT;
        bit := pos;
        AgreedBytes(t.r, x, bit);
      }
    } else {
      bit := pos + 1;
      side := GetBit(x.bytes, pos);
      AgreedBytes(Below(t, side), x, bit);
    }
  }

  lemma DupBit(t: Tree)
    requires t.Node? && Radix(t)
    ensures BitField(Prefixes, t.k) < 0 <==> t.k.Dup?
  {
  }

  /** The descent of __ebmb_insert_prefix. */
  method Descend(root_: EbNode, x: EbNode, ghost len: nat, ghost T: Tree, ghost unique: bool, ghost S: set<EbNode>)
    returns (up: Troot, troot: Troot, above: bool, bit: nat, diff: int, ghost k: Kind, ghost c: Ctx, ghost t: Tree)
    requires Sound(T, unique) && AllKeyed(LeafSet(T), len) && Keyed(x, len)
    requires root_ in S && root_.left == At(T) && Rep(Snap(S), Prefixes, T, Troot(root_, EB_LEFT))
    ensures Reached(T, unique, x.bits, c, t) && Stops(t, x.bits) && Ended(t, x, above, bit, diff, k)
    ensures !above ==> Compared(t, x, bit)
    ensures up == Up(root_, c) && troot == At(t) && Insert(T, x) == Plug(c, Join(t, x))
  {
    ghost var M := Snap(S);
    c, t, above, diff, k := Top, T, false, 0, Dup(-1);
    var root, side := root_, EB_LEFT;
    troot := root.left;
    bit := 0;
    AgreedBytes(T, x, 0);
    while true
      invariant Reached(T, unique, x.bits, c, t) && Compared(t, x, bit) && !above
      invariant Troot(root, side) == Up(root_, c) && troot == At(t) && Rep(M, Prefixes, t, Troot(root, side))
      invariant Insert(T, x) == Plug(c, Insert(t, x))
      decreases t
    {
      // a leaf, maybe the left one of a cover node
      if troot.tag == EB_LEAF { break; }
      var old_ := troot.to;
      assert M[old_] == CellOf(old_);
      // duplicates: they have one key, so all of it counts
      DupBit(t);
      if old_.bit < 0 { break; }
      var down;
      above, bit, diff, down, k := Step(x, old_, old_.bit, bit, len, t);
      if above { break; }
      Descends(T, unique, x.bits, c, t);
      root, side := old_, down;
      c, t := Deeper(c, t, side), Below(t, side);
      troot := if side == EB_LEFT then root.left else root.right;
    }
    up := Troot(root, side);
  }

  /** At a leaf or a tree of duplicates: the largest number of bits common to both keys. */
  method CommonAtEnd(x: EbNode, old_: EbNode, bit0: nat, ghost len: nat, ghost t: Tree) returns (bit: nat)
    requires Elastic(t) && (t.Leaf? || t.k.Dup?) && t.n == old_ && Compared(t, x, bit0)
    requires Keyed(x, len) && Keyed(old_, len)
    ensures bit == Common(x.bits, old_.bits)
  {
    // no more bits than both prefixes have
    var l := if x.pfx > old_.pfx then old_.pfx else x.pfx;
    EndAgrees(x, old_, bit0, len, t);
    bit := EqualBits(x.bytes, old_.bytes, bit0, l);
    if bit > x.pfx { bit := x.pfx; }
    if bit > old_.pfx { bit := old_.pfx; }
  }

  lemma EndAgrees(x: EbNode, old_: EbNode, bit: nat, len: nat, t: Tree)
    requires Elastic(t) && t.n == old_ && Compared(t, x, bit) && Keyed(x, len) && Keyed(old_, len)
    ensures var start, l, c := 8 * (bit / 8), Min(x.pfx, old_.pfx), Common(Full(x), Full(old_));
      && (start < l ==> c >= start)
      && (start >= l ==> c >= l)
      && Common(x.bits, old_.bits) == Min(c, l)
  {
    LeavesDistinct(t);
    CommonOfPrefixes(Full(x), Full(old_), x.pfx, old_.pfx);
    if x.bits == old_.bits {
      FullAgree(x, old_, |x.bits|);
    } else {
      FullAgree(x, old_, 8 * (bit / 8));
    }
  }

  /** What the number of common bits and the prefix lengths say about the place of x. */
  lemma PrefixJoin(t: Tree, x: EbNode, len: nat)
    requires Keyed(x, len) && Keyed(t.n, len)
    ensures var m := Common(x.bits, t.n.bits);
      && m <= x.pfx && m <= t.n.pfx
      && (x.bits == t.n.bits <==> m == x.pfx == t.n.pfx)
      && (m < x.pfx && m < t.n.pfx ==>
            Full(x)[m] != Full(t.n)[m] && Join(t, x) == Above(t, x, Normal(m), Full(x)[m]))
      && ((m == x.pfx || m == t.n.pfx) && x.pfx != t.n.pfx ==> Join(t, x) == Above(t, x, Cover(m), x.pfx > t.n.pfx))
      && (m == x.pfx == t.n.pfx && t.Leaf? ==> Join(t, x) == Above(t, x, Dup(-1), true))
  {
    var m := Common(x.bits, t.n.bits);
    if m == x.pfx == t.n.pfx {
      assert x.bits == x.bits[..m] && t.n.bits == t.n.bits[..m];
    }
    if x.bits == t.n.bits { CommonSelf(x.bits); }
  }

  /** The end of __ebmb_insert_prefix when no node stopped the descent. */
  method Finish(tree: EbTree, x: EbNode, up: Troot, troot: Troot, bit0: nat, ghost len: nat, ghost c: Ctx,
      ghost t: Tree)
    returns (r: EbNode)
    requires tree.Valid() && tree.layer == Prefixes && tree.shape.Some? && x !in tree.Foot()
    requires Keyed(x, len) && Keyed(t.n, len) && (t.Leaf? || t.k.Dup?) && Compared(t, x, bit0)
    requires Reached(tree.shape.value, tree.Unique(), x.bits, c, t) && Stops(t, x.bits)
    requires up == Up(tree.root, c) && troot == At(t) && Insert(tree.shape.value, x) == Plug(c, Join(t, x))
    modifies tree`shape, x`left, x`right, x`node_p, x`leaf_p, x`bit
    modifies tree.Foot()`left, tree.Foot()`right, tree.Foot()`node_p, tree.Foot()`leaf_p, tree.Foot()`bit
    ensures tree.Valid() && tree.Unique() == old(tree.Unique())
    ensures Inserted(old(tree.Unique()), old(tree.Contents()), x, r, tree.Contents())
    ensures tree.Entries() == old(tree.Entries()) + if r == x then {x} else {}
    ensures tree.shape == ShapeAfter(old(tree.shape), x, r) && (r != x ==> x.leaf_p == old(x.leaf_p))
  {
    var old_ := troot.to;
    var bit := CommonAtEnd(x, old_, bit0, len, t);
    assert Snap(tree.Foot()) == old(Snap(tree.Foot()));
    PrefixJoin(t, x, len);
    // where one prefix ends there is no bit to compare
    var diff := if bit < old_.pfx && bit < x.pfx then CmpBits(x.bytes, old_.bytes, bit) else 0;
    var equal := diff == 0 && x.pfx == old_.pfx;
    var right := if diff == 0 then x.pfx >= old_.pfx else diff >= 0;
    var field := if equal then -1 else if diff == 0 then 2 * bit else 2 * bit + 1;
    r := tree.Conclude(x, up, troot, equal, right, field, -1, c, t,
      if equal then Dup(-1) else if diff == 0 then Cover(bit) else Normal(bit));
  }

  /** The end of the insertion, wherever the descent has ended. */
  method End(tree: EbTree, x: EbNode, up: Troot, troot: Troot, above: bool, bit: nat, diff: int, ghost len: nat,
      ghost c: Ctx, ghost t: Tree, ghost k: Kind)
    returns (r: EbNode)
    requires PrefixTree(tree, len) && tree.shape.Some? && x !in tree.Foot() && Keyed(x, len)
    requires Reached(tree.shape.value, tree.Unique(), x.bits, c, t) && Stops(t, x.bits)
    requires Ended(t, x, above, bit, diff, k) && (!above ==> Compared(t, x, bit))
    requires up == Up(tree.root, c) && troot == At(t) && Insert(tree.shape.value, x) == Plug(c, Join(t, x))
    modifies tree`shape, x`left, x`right, x`node_p, x`leaf_p, x`bit
    modifies tree.Foot()`left, tree.Foot()`right, tree.Foot()`node_p, tree.Foot()`leaf_p, tree.Foot()`bit
    ensures tree.Valid() && tree.Unique() == old(tree.Unique())
    ensures Inserted(old(tree.Unique()), old(tree.Contents()), x, r, tree.Contents())
    ensures tree.Entries() == old(tree.Entries()) + if r == x then {x} else {}
    ensures tree.shape == ShapeAfter(old(tree.shape), x, r) && (r != x ==> x.leaf_p == old(x.leaf_p))
  {
    LeavesDistinct(t);
    if above {
      r := tree.Conclude(x, up, troot, false, diff >= 0, bit, x.bit, c, t, k);
    } else {
      r := Finish(tree, x, up, troot, bit, len, c, t);
    }
  }

  /** __ebmb_insert_prefix: in the order of bit strings, shorter prefixes before longer ones. */
  method InsertPrefix(tree: EbTree, x: EbNode, ghost len: nat) returns (r: EbNode)
    requires PrefixTree(tree, len) && x !in tree.Foot() && Keyed(x, len)
    modifies tree`shape, x`left, x`right, x`node_p, x`leaf_p, x`bit
    modifies tree.Foot()`left, tree.Foot()`right, tree.Foot()`node_p, tree.Foot()`leaf_p, tree.Foot()`bit
    ensures PrefixTree(tree, len) && tree.Unique() == old(tree.Unique())
    ensures Inserted(old(tree.Unique()), old(tree.Contents()), x, r, tree.Contents())
    ensures tree.Entries() == old(tree.Entries()) + if r == x then {x} else {}
    ensures tree.shape == ShapeAfter(old(tree.shape), x, r) && (r != x ==> x.leaf_p == old(x.leaf_p))
  {
    EmptyOrNot(tree);
    if tree.root.left == NULL {
      tree.InsertOnly(x);
      r := x;
    } else {
      var up, troot, above, bit, diff;
      ghost var k, c, t;
      up, troot, above, bit, diff, k, c, t := Descend(tree.root, x, len, tree.shape.value, tree.Unique(), tree.Foot());
      assert Snap(tree.Foot()) == old(Snap(tree.Foot()));
      r := End(tree, x, up, troot, above, bit, diff, len, c, t, k);
    }
  }
}
