/**
  Trees of zero-terminated strings (ebis).
 */
module Ebis {
  import opened Basics
  import opened BitStrings
  import opened ByteKeys
  import opened EbNodes
  import opened EbShapes
  import opened EbRadix
  import opened EbMemory
  import opened EbRoots
  import opened EbWalks
  import opened Ebmb

  ghost predicate StrKeyed(n: EbNode)
  {
    CString(n.bytes) && n.bits == BytesBits(n.bytes)
  }

  ghost predicate AllStr(s: set<EbNode>)
  {
    forall n :: n in s ==> StrKeyed(n)
  }

  ghost predicate StringTree(tree: EbTree)
    reads tree, tree.Foot()
  {
    tree.Valid() && tree.layer == Strings && AllStr(tree.Entries())
  }

  lemma SameString(a: EbNode, b: EbNode)
    requires StrKeyed(a) && StrKeyed(b)
    ensures a.bits == b.bits <==> a.bytes == b.bytes
    ensures a.bits != b.bits ==> Common(a.bits, b.bits) < |a.bits| && Common(a.bits, b.bits) < |b.bits|
  {
    if a.bytes != b.bytes {
      StringsDiffer(a.bytes, b.bytes);
      StringsDiffer(b.bytes, a.bytes);
      CommonSym(a.bits, b.bits);
    }
  }

  /** No key being a prefix of another, there are no cover nodes. */
  lemma StrNode(t: Tree)
    requires t.Node? && Radix(t) && Elastic(t) && AllStr(LeafSet(t))
    ensures !t.k.Cover? && StrKeyed(t.n)
    ensures t.k.Dup? ==> t.k.d < 0 && forall e :: e in LeafSet(t) ==> e.bits == t.n.bits
  {
    FirstIsFirst(t.l);
    FirstIsFirst(t.r);
    LeavesDistinct(t);
    if t.k.Dup? {
      DupTreeKeys(t, t.k.d - 1, t.n.bits);
    } else {
      var a, b := First(t.l), First(t.r);
      assert a in LeafSet(t) && b in LeafSet(t);
      SameString(a, b);
      CommonAtLeast(a.bits, b.bits, t.k.p);
    }
  }

  /** What the variable bit of the insertion says at t. Negative: the entry w below is the key. Else
      either all keys below agree with x on as many bits, or w is below and agrees on just as many. */
  ghost predicate Tracks(t: Tree, x: EbNode, bit: int, w: EbNode)
  {
    if bit < 0 then bit == -1 && w in LeafSet(t) && w.bits == x.bits
    else
      && bit < |x.bits|
      && (Agreed(t, x.bits, bit) || (w in LeafSet(t) && x.bits != w.bits && Common(x.bits, w.bits) == bit))
  }

  lemma AgreedWithin(t: Tree, k: Bits, m: nat, n: nat)
    requires Agreed(t, k, m) && n <= m && Elastic(t)
    ensures Agreed(t, k, n) && Common(k, t.n.bits) >= n
  {
    LeavesDistinct(t);
    forall e | e in LeafSet(t) ensures n <= |e.bits| && e.bits[..n] == k[..n] { Weaken(e.bits, k, m, n); }
    CommonAtLeast(k, t.n.bits, n);
  }

  /** Comparing with the key of t may start at the byte of bit. */
  lemma TracksStart(t: Tree, x: EbNode, bit: nat, w: EbNode)
    requires Tracks(t, x, bit, w) && Radix(t) && Elastic(t) && AllStr(LeafSet(t)) && StrKeyed(x)
    requires t.Leaf? || t.k.Dup? || bit < t.k.p
    ensures StrKeyed(t.n) && Common(x.bits, t.n.bits) >= 8 * (bit / 8)
    ensures bit / 8 < |x.bytes| && bit / 8 < |t.n.bytes|
  {
    LeavesDistinct(t);
    var m := 8 * (bit / 8);
    if Agreed(t, x.bits, bit) {
      AgreedWithin(t, x.bits, bit, m);
      if x.bits == t.n.bits { CommonSelf(x.bits); }
      AgreedInside(t, x, bit);
    } else {
      if t.Node? { StrNode(t); }
      SameString(x, w);
      if t.Node? && t.k.Normal? { Weaken(w.bits, t.n.bits, t.k.p, bit); }
      Weaken(x.bits, w.bits, bit, m);
      Weaken(w.bits, t.n.bits, bit, m);
      CommonAtLeast(x.bits, t.n.bits, m);
    }
  }

  lemma AgreedInside(t: Tree, x: EbNode, bit: nat)
    requires Agreed(t, x.bits, bit) && bit < |x.bits| && Elastic(t) && AllStr(LeafSet(t)) && StrKeyed(x)
    ensures bit / 8 < |x.bytes| && bit / 8 < |t.n.bytes|
  {
    LeavesDistinct(t);
    if t.n.bits != x.bits {
      SameString(x, t.n);
      CommonAtLeast(x.bits, t.n.bits, bit);
    }
  }

  /** With as many known bits as a node's position the descent goes on. */
  lemma TracksOn(t: Tree, x: EbNode, bit: int, w: EbNode)
    requires t.Node? && t.k.Normal? && Tracks(t, x, bit, w) && (bit < 0 || bit >= t.k.p)
    requires Radix(t) && Elastic(t) && AllStr(LeafSet(t)) && StrKeyed(x)
    ensures !Stops(t, x.bits) && t.k.p < |x.bits|
    ensures Tracks(Below(t, GoesRight(t.k, x.bits)), x, bit, w)
  {
    var p := t.k.p;
    LeavesDistinct(t);
    if bit < 0 {
      CommonAtLeast(x.bits, t.n.bits, p);
    } else if Agreed(t, x.bits, bit) {
      AgreedPosition(t, x.bits, bit);
      AgreedWithin(t, x.bits, bit, p);
    } else {
      Weaken(x.bits, w.bits, bit, p);
      CommonAtLeast(x.bits, t.n.bits, p);
    }
    var u := Below(t, GoesRight(t.k, x.bits));
    if bit >= 0 && !Agreed(t, x.bits, bit) {
      SameString(x, w);
      if bit == p {
        PrefixGoesOn(t, x);
        forall e | e in LeafSet(u)
          ensures bit <= |e.bits| && e.bits[..bit] == x.bits[..bit] { Weaken(e.bits, x.bits, p + 1, p); }
      } else {
        Weaken(x.bits, w.bits, bit, p);
      }
    }
  }

  /** Where the descent ends, the number of common bits gives the place of x. */
  lemma StrJoin(t: Tree, x: EbNode)
    requires StrKeyed(x) && StrKeyed(t.n)
    ensures x.bytes == t.n.bytes <==> x.bits == t.n.bits
    ensures x.bits == t.n.bits && t.Leaf? ==> Join(t, x) == Above(t, x, Dup(-1), true)
    ensures x.bits != t.n.bits ==> var c := Common(x.bits, t.n.bits);
      c < |x.bits| && c < |t.n.bits| && x.bits[c] != t.n.bits[c] && Join(t, x) == Above(t, x, Normal(c), x.bits[c])
  {
    SameString(x, t.n);
  }

  /** One round of __ebis_insert at a leaf or node: compares if need be, and says whether to stop. */
  method Round(x: EbNode, old_: EbNode, leaf: bool, old_node_bit: int, bit0: int, ghost t: Tree, ghost w0: EbNode)
    returns (bit: int, stop: bool, ghost w: EbNode)
    requires Tracks(t, x, bit0, w0) && Radix(t) && Elastic(t) && AllStr(LeafSet(t)) && StrKeyed(x)
    requires t.n == old_ && (leaf <==> t.Leaf?) && (t.Node? ==> old_node_bit == BitField(Strings, t.k))
    ensures stop ==>
      && Stops(t, x.bits) && StrKeyed(t.n)
      && bit == if x.bits == t.n.bits then -1 else Common(x.bits, t.n.bits)
    ensures !stop ==> !Stops(t, x.bits) && t.k.Normal? && t.k.p / 8 < |x.bytes|
    ensures !stop ==> Tracks(Below(t, GoesRight(t.k, x.bits)), x, bit, w)
  {
    bit, w := bit0, w0;
    LeavesDistinct(t);
    if t.Node? { StrNode(t); }
    SameString(x, old_);
    if bit >= 0 && (leaf || bit < old_node_bit || old_node_bit < 0) {
      TracksStart(t, x, bit, w);
      bit := StringEqualBits(x.bytes, old_.bytes, bit);
      w := old_;
    }
    stop := leaf || old_node_bit < 0 || (bit >= 0 && bit < old_node_bit);
    if !stop { TracksOn(t, x, bit, w); }
  }

  /** The descent of __ebis_insert. */
  method DescendStr(root_: EbNode, x: EbNode, ghost T: Tree, ghost unique: bool, ghost S: set<EbNode>)
    returns (up: Troot, troot: Troot, bit: int, ghost c: Ctx, ghost t: Tree)
    requires Sound(T, unique) && AllStr(LeafSet(T)) && StrKeyed(x)
    requires root_ in S && root_.left == At(T) && Rep(Snap(S), Strings, T, Troot(root_, EB_LEFT))
    ensures Reached(T, unique, x.bits, c, t) && Stops(t, x.bits) && StrKeyed(t.n)
    ensures bit == if x.bits == t.n.bits then -1 else Common(x.bits, t.n.bits)
    ensures up == Up(root_, c) && troot == At(t) && Insert(T, x) == Plug(c, Join(t, x))
  {
    ghost var M, w := Snap(S), x;
    c, t := Top, T;
    var root, side := root_, EB_LEFT;
    troot := root.left;
    bit := 0;
    while true
      invariant Reached(T, unique, x.bits, c, t) && Tracks(t, x, bit, w)
      invariant Troot(root, side) == Up(root_, c) && troot == At(t) && Rep(M, Strings, t, Troot(root, side))
      invariant Insert(T, x) == Plug(c, Insert(t, x))
      decreases t
    {
      var old_ := troot.to;
      assert M[old_] == CellOf(old_);
      var old_node_bit := old_.bit;
      var stop;
      bit, stop, w := Round(x, old_, troot.tag == EB_LEAF, old_node_bit, bit, t, w);
      if stop { break; }
      Descends(T, unique, x.bits, c, t);
      root := old_;
      side := GetBit(x.bytes, old_node_bit);
      c, t := Deeper(c, t, side), Below(t, side);
      troot := if side == EB_LEFT then root.left else root.right;
    }
    up := Troot(root, side);
  }

  /** __ebis_insert: byte-string order, equal strings in the order of their insertion. */
  method InsertString(tree: EbTree, x: EbNode) returns (r: EbNode)
    requires StringTree(tree) && x !in tree.Foot() && StrKeyed(x)
    modifies tree`shape, x`left, x`right, x`node_p, x`leaf_p, x`bit
    modifies tree.Foot()`left, tree.Foot()`right, tree.Foot()`node_p, tree.Foot()`leaf_p, tree.Foot()`bit
    ensures StringTree(tree) && tree.Unique() == old(tree.Unique())
    ensures Inserted(old(tree.Unique()), old(tree.Contents()), x, r, tree.Contents())
    ensures tree.Entries() == old(tree.Entries()) + if r == x then {x} else {}
    ensures tree.shape == ShapeAfter(old(tree.shape), x, r) && (r != x ==> x.leaf_p == old(x.leaf_p))
  {
    EmptyOrNot(tree);
    if tree.root.left == NULL {
      tree.InsertOnly(x);
      r := x;
    } else {
      var up, troot, bit;
      ghost var c, t;
      up, troot, bit, c, t := DescendStr(tree.root, x, tree.shape.value, tree.Unique(), tree.Foot());
      assert Snap(tree.Foot()) == old(Snap(tree.Foot()));
      r := FinishStr(tree, x, up, troot, bit, c, t);
    }
  }

  /** The end of __ebis_insert, with the number of common bits, or -1 if the key was already there. */
  method FinishStr(tree: EbTree, x: EbNode, up: Troot, troot: Troot, bit: int, ghost c: Ctx, ghost t: Tree)
    returns (r: EbNode)
    requires StringTree(tree) && tree.shape.Some? && x !in tree.Foot()
    requires StrKeyed(x) && StrKeyed(t.n) && bit == if x.bits == t.n.bits then -1 else Common(x.bits, t.n.bits)
    requires Reached(tree.shape.value, tree.Unique(), x.bits, c, t) && Stops(t, x.bits)
    requires up == Up(tree.root, c) && troot == At(t) && Insert(tree.shape.value, x) == Plug(c, Join(t, x))
    modifies tree`shape, x`left, x`right, x`node_p, x`leaf_p, x`bit
    modifies tree.Foot()`left, tree.Foot()`right, tree.Foot()`node_p, tree.Foot()`leaf_p, tree.Foot()`bit
    ensures tree.Valid() && tree.Unique() == old(tree.Unique())
    ensures Inserted(old(tree.Unique()), old(tree.Contents()), x, r, tree.Contents())
    ensures tree.Entries() == old(tree.Entries()) + if r == x then {x} else {}
    ensures tree.shape == ShapeAfter(old(tree.shape), x, r) && (r != x ==> x.leaf_p == old(x.leaf_p))
  {
    StrJoin(t, x);
    var equal := bit < 0;
    // new entries go to the right of equal ones
    var diff := if equal then 1 else CmpBits(x.bytes, troot.to.bytes, bit);
    r := tree.Conclude(x, up, troot, equal, diff >= 0, bit, x.bit, c, t, if equal then Dup(-1) else Normal(bit));
  }

  // ---- __ebis_lookup ----

  /** What the variable bit of the lookup says at t: negative, the key has been seen above and is
      below; else all keys below agree with it on as many bits. */
  ghost predicate Seeks(T: Tree, t: Tree, k: Bits, bit: int)
  {
    && Radix(t) && Elastic(t) && OwnFirst(t) && LeafSet(t) <= LeafSet(T)
    && FirstWith(Leaves(t), k) == FirstWith(Leaves(T), k)
    && if bit < 0 then FirstWith(Leaves(t), k) != null else bit < |k| && Agreed(t, k, bit)
  }

  /** Neither string of bits is a prefix of the other one. */
  ghost predicate Apart(a: Bits, b: Bits)
  {
    a != b ==> Common(a, b) < |a| && Common(a, b) < |b|
  }

  lemma SameAs(n: EbNode, x: seq<byte>)
    requires StrKeyed(n) && CString(x)
    ensures n.bytes == x <==> n.bits == BytesBits(x)
    ensures Apart(BytesBits(x), n.bits)
  {
    if n.bytes != x {
      StringsDiffer(x, n.bytes);
      StringsDiffer(n.bytes, x);
      CommonSym(n.bits, BytesBits(x));
    }
  }

  lemma SeekStart(T: Tree, t: Tree, k: Bits, bit: nat)
    requires Seeks(T, t, k, bit) && Apart(k, t.n.bits)
    ensures Common(k, t.n.bits) >= 8 * (bit / 8) && bit < |t.n.bits|
  {
    AgreedWithin(t, k, bit, bit);
  }

  /** The step down from a node at p bits, when the key agrees with it that far. */
  lemma SeekBelow(t: Tree, k: Bits)
    requires Radix(t) && Elastic(t) && Apart(k, t.n.bits) && t.Node? && t.k.Normal? && Common(k, t.n.bits) >= t.k.p
    ensures t.k.p < |k| && t.k.p < |t.n.bits|
    ensures FirstWith(Leaves(Below(t, k[t.k.p])), k) == FirstWith(Leaves(t), k)
  {
    LeavesDistinct(t);
    if t.n.bits == k { CommonSelf(k); }
    StopAtFinds(t, k);
    StopAtFinds(Below(t, k[t.k.p]), k);
  }

  lemma SeekAgreed(t: Tree, k: Bits, right: bool)
    requires Radix(t) && Elastic(t) && t.Node? && t.k.Normal? && Common(k, t.n.bits) >= t.k.p
    ensures Agreed(Below(t, right), k, t.k.p)
  {
    CommonAtLeast(k, t.n.bits, t.k.p);
  }

  lemma SeekStep(T: Tree, t: Tree, k: Bits, bit: int)
    requires Seeks(T, t, k, bit) && Apart(k, t.n.bits) && t.Node? && t.k.Normal?
    requires bit < 0 || Common(k, t.n.bits) >= t.k.p
    ensures t.k.p < |k|
    ensures var u := Below(t, k[t.k.p]);
      Seeks(T, u, k, t.k.p) && (bit < 0 ==> Seeks(T, u, k, -1))
  {
    if bit < 0 {
      FirstWithFound(Leaves(t), k);
      LeafSetIsLeaves(t);
      CommonAtLeast(k, t.n.bits, t.k.p);
    }
    SeekBelow(t, k);
    SeekAgreed(t, k, k[t.k.p]);
  }

  /** One round at a node that is not one of duplicates: compares unless the key is known to be
      below, and says whether the answer is known. */
  method SeekRound(node: EbNode, node_bit: nat, x: seq<byte>, bit0: int, unique: bool, ghost k: Bits, ghost T: Tree,
      ghost t: Tree)
    returns (done: bool, r: EbNode?, bit: int)
    requires k == BytesBits(x) && CString(x) && Seeks(T, t, k, bit0) && AllStr(LeafSet(T))
    requires t.Node? && t.k.Normal? && t.n == node && node_bit == t.k.p
    ensures done ==> r == FirstWith(Leaves(T), k)
    ensures !done ==> node_bit < |k| && Seeks(T, Below(t, k[node_bit]), k, bit)
  {
    done, r, bit := false, null, bit0;
    LeavesDistinct(t);
    SameAs(node, x);
    if bit >= 0 {
      SeekStart(T, t, k, bit);
      bit := StringEqualBits(x, node.bytes, bit);
      if bit < node_bit {
        if bit >= 0 {
          StopAtFinds(t, k);
          return true, null, bit;
        }
        // equal to the end: the key is the one, and only duplicates can be left below
        if unique { return true, node, bit; }
        CommonSelf(k);
      } else {
        bit := node_bit;  // agreement with this leaf beyond the node says nothing of the others
      }
    }
    SeekOn(T, t, k, bit0, bit);
  }

  lemma SeekOn(T: Tree, t: Tree, k: Bits, bit0: int, bit: int)
    requires Seeks(T, t, k, bit0) && Apart(k, t.n.bits) && t.Node? && t.k.Normal?
    requires
      if bit0 < 0 then bit == bit0
      else if bit < 0 then bit == -1 && t.n.bits == k
      else bit == t.k.p && Common(k, t.n.bits) >= bit
    ensures t.k.p < |k| && Seeks(T, Below(t, k[t.k.p]), k, bit)
  {
    if bit0 >= 0 && bit < 0 { CommonSelf(k); }
    SeekStep(T, t, k, if bit0 < 0 then bit0 else if bit < 0 then -1 else bit0);
  }

  /** __ebis_lookup: the first entry with the string x. */
  method LookupString(tree: EbTree, x: seq<byte>) returns (r: EbNode?)
    requires StringTree(tree) && CString(x)
    ensures r == FirstWith(tree.Contents(), BytesBits(x))
  {
    EmptyOrNot(tree);
    if tree.root.left == NULL { return null; }
    r := FindString(tree.root, x, tree.Unique(), BytesBits(x), tree.shape.value, tree.Foot());
  }

  method FindString(root: EbNode, x: seq<byte>, unique: bool, ghost k: Bits, ghost T: Tree, ghost S: set<EbNode>)
    returns (r: EbNode?)
    requires k == BytesBits(x) && Sound(T, unique) && AllStr(LeafSet(T)) && CString(x)
    requires root in S && root.left == At(T) && Rep(Snap(S), Strings, T, Troot(root, EB_LEFT))
    ensures r == FirstWith(Leaves(T), k)
  {
    ghost var M, t, up := Snap(S), T, Troot(root, EB_LEFT);
    var troot := root.left;
    var bit: int := 0;
    while true
      invariant Snap(S) == M && Seeks(T, t, k, bit)
      invariant troot == At(t) && Rep(M, Strings, t, up)
      decreases t
    {
      var node := troot.to;
      assert M[node] == CellOf(node);
      LeavesDistinct(t);
      SameAs(node, x);
      if troot.tag == EB_LEAF {
        StopAtFinds(t, k);
        return if node.bytes == x then node else null;
      }
      StrNode(t);
      var node_bit := node.bit;
      if node_bit < 0 {
        StopAtFinds(t, k);
        if node.bytes != x { return null; }
        r := WalkDown(node.left, EB_LEFT, Strings, Some(t.l), Troot(node, EB_LEFT), S);
        return r;
      }
      var done;
      done, r, bit := SeekRound(node, node_bit, x, bit, unique, k, T, t);
      assert Snap(S) == M;
      if done { return r; }
      var side := GetBit(x, node_bit);
      troot := if side == EB_LEFT then node.left else node.right;
      up, t := Troot(node, side), Below(t, side);
    }
  }
}
