/**
  Lookups in trees of integers: the first entry of a key, and the nearest one below or above.
 */
module Eb32Lookup {
  import opened Basics
  import opened BitStrings
  import opened Integers
  import opened EbNodes
  import opened EbShapes
  import opened EbRadix
  import opened EbMemory
  import opened EbRoots
  import opened EbWalks
  import opened Eb32

  /** The first entry with the key x, in walking order. */
  ghost function FirstKey(s: seq<EbNode>, x: nat): EbNode?
  {
    if s == [] then null else if s[0].key == x then s[0] else FirstKey(s[1..], x)
  }

  lemma {:induction false} FirstKeyIsFirstWith(s: seq<EbNode>, x: nat, w: nat, signed: bool)
    requires w > 0 && x < Pow2(w) && forall n :: n in s ==> Keyed(n, w, signed)
    ensures FirstKey(s, x) == FirstWith(s, IntBits(Rank(x, w, signed), w))
  {
    if s != [] {
      assert s[0] in s;
      SameKey(s[0], x, w, signed);
      FirstKeyIsFirstWith(s[1..], x, w, signed);
    }
  }

  lemma SameKey(n: EbNode, x: nat, w: nat, signed: bool)
    requires w > 0 && x < Pow2(w) && Keyed(n, w, signed)
    ensures n.bits == IntBits(Rank(x, w, signed), w) <==> n.key == x
  {
    var a, b := Rank(n.key, w, signed), Rank(x, w, signed);
    if signed { FlipOrder(n.key, x, w); }
    if IntBits(a, w) == IntBits(b, w) { BitsInjective(a, b, w); }
  }

  /** A part of the tree that holds the answer for the key of bits k. */
  ghost predicate Narrowed(T: Tree, t: Tree, k: Bits)
  {
    && Elastic(t) && Radix(t) && OwnFirst(t) && LeafSet(t) <= LeafSet(T)
    && FirstWith(Leaves(t), k) == FirstWith(Leaves(T), k)
  }

  /** What a lookup learns from the node at the top of t. */
  lemma LookupStep(T: Tree, t: Tree, x: nat, w: nat, signed: bool)
    requires w > 0 && x < Pow2(w) && AllKeyed(LeafSet(T), w, signed)
    requires Narrowed(T, t, IntBits(Rank(x, w, signed), w))
    ensures Keyed(t.n, w, signed)
    ensures var k := IntBits(Rank(x, w, signed), w); var first := FirstWith(Leaves(T), k);
      && (t.Leaf? ==> first == if t.n.key == x then t.n else null)
      && (t.Node? ==> var b := BitField(Scalar(w), t.k);
          && (t.n.key == x ==> first == if b < 0 then First(t) else t.n)
          && (t.n.key != x && b < 0 ==> first == null && Narrowed(T, t.l, k) && Narrowed(T, t.r, k))
          && (t.n.key != x && b >= 0 ==>
                if Shr(Xor(t.n.key, x), b) >= 2 then first == null
                else Narrowed(T, Below(t, Shr(Rank(x, w, signed), b) % 2 == 1), k)))
  {
    var k := IntBits(Rank(x, w, signed), w);
    LeavesDistinct(t);
    SameKey(t.n, x, w, signed);
    if t.Leaf? {
      LookupLeaf(t, k);
    } else {
      IntNode(t, w, signed);
      if t.k.Dup? {
        LookupDup(T, t, k);
      } else if t.n.key != x {
        LookupNode(T, t, x, w, signed);
      }
    }
  }

  lemma LookupLeaf(t: Tree, k: Bits)
    requires t.Leaf?
    ensures FirstWith(Leaves(t), k) == if t.n.bits == k then t.n else null
  {
    assert Leaves(t)[1..] == [];
    FirstWithFound([], k);
  }

  lemma LookupDup(T: Tree, t: Tree, k: Bits)
    requires t.Node? && t.k.Dup? && Narrowed(T, t, k)
    ensures FirstWith(Leaves(T), k) == if t.n.bits == k then First(t) else null
    ensures t.n.bits != k ==> Narrowed(T, t.l, k) && Narrowed(T, t.r, k)
  {
    DupTreeKeys(t, t.k.d - 1, t.n.bits);
    DupTreeKeys(t.l, t.k.d, t.n.bits);
    DupTreeKeys(t.r, t.k.d, t.n.bits);
    FirstIsFirst(t);
    LeafSetIsLeaves(t);
    LeafSetIsLeaves(t.l);
    LeafSetIsLeaves(t.r);
    FirstWithFound(Leaves(t), k);
    FirstWithFound(Leaves(t.l), k);
    FirstWithFound(Leaves(t.r), k);
  }

  lemma LookupNode(T: Tree, t: Tree, x: nat, w: nat, signed: bool)
    requires w > 0 && x < Pow2(w) && Narrowed(T, t, IntBits(Rank(x, w, signed), w))
    requires t.Node? && t.k.Normal? && t.k.p < w && Keyed(t.n, w, signed) && t.n.key != x
    ensures var k := IntBits(Rank(x, w, signed), w); var b := w - 1 - t.k.p;
      if Shr(Xor(t.n.key, x), b) >= 2 then FirstWith(Leaves(T), k) == null
      else Narrowed(T, Below(t, Shr(Rank(x, w, signed), b) % 2 == 1), k)
  {
    LookupTest(t, x, w, signed);
    LookupBranch(T, t, IntBits(Rank(x, w, signed), w));
  }

  /** The test of the common bits, and the bit that tells the side. */
  lemma LookupTest(t: Tree, x: nat, w: nat, signed: bool)
    requires w > 0 && x < Pow2(w) && t.Node? && t.k.Normal? && t.k.p < w && Keyed(t.n, w, signed) && t.n.key != x
    ensures var k := IntBits(Rank(x, w, signed), w); var b := w - 1 - t.k.p;
      && t.n.bits != k && (Stops(t, k) <==> Shr(Xor(t.n.key, x), b) >= 2)
      && (GoesRight(t.k, k) <==> Shr(Rank(x, w, signed), b) % 2 == 1)
  {
    var k, b := IntBits(Rank(x, w, signed), w), w - 1 - t.k.p;
    if signed { XorFlip(t.n.key, x, w); }
    NoCommonBits(Rank(t.n.key, w, signed), Rank(x, w, signed), w, b);
    CommonSym(t.n.bits, k);
    BitAt(Rank(x, w, signed), w, b);
    SameKey(t.n, x, w, signed);
  }

  lemma LookupBranch(T: Tree, t: Tree, k: Bits)
    requires t.Node? && !t.k.Dup? && t.n.bits != k && Narrowed(T, t, k)
    ensures if Stops(t, k) then FirstWith(Leaves(T), k) == null else Narrowed(T, Below(t, GoesRight(t.k, k)), k)
  {
    StopAtFinds(t, k);
    if !Stops(t, k) { StopAtFinds(Below(t, GoesRight(t.k, k)), k); }
  }

  /** __eb32_lookup: the first of the entries with the key x, in the order of their insertion. */
  method Lookup32(tree: EbTree, x: nat, ghost w: nat) returns (r: EbNode?)
    requires IntTree(tree, w, false) && x < Pow2(w) && w > 0
    ensures r == FirstKey(tree.Contents(), x)
  {
    EmptyOrNot(tree);
    var troot := tree.root.left;
    if troot == NULL { return null; }
    ghost var T, S, M, k := tree.shape.value, tree.Foot(), Snap(tree.Foot()), IntBits(x, w);
    ghost var t, up := T, Troot(tree.root, EB_LEFT);
    LeafSetIsLeaves(T);
    FirstKeyIsFirstWith(Leaves(T), x, w, false);
    while true
      invariant Narrowed(T, t, k) && troot == At(t) && Rep(M, Scalar(w), t, up)
      decreases t
    {
      LookupStep(T, t, x, w, false);
      var node := troot.to;
      if troot.tag == EB_LEAF {
        return if node.key == x then node else null;
      }
      assert M[node] == CellOf(node);
      var node_bit := node.bit;
      var y := Xor(node.key, x);
      XorZero(node.key, x);
      if y == 0 {
        // of duplicates the leftmost one came first
        if node_bit < 0 {
          r := WalkDown(node.left, EB_LEFT, Scalar(w), Some(t.l), Troot(node, EB_LEFT), S);
          return r;
        }
        return node;
      }
      // in front of another key's dup tree the shifts below have no defined result
      var shifted: int, side: bool := *, *;
      if node_bit >= 0 {
        shifted, side := Shr(y, node_bit), Shr(x, node_bit) % 2 == 1;
      }
      if shifted >= 2 { return null; }
      up, t := Troot(node, side), Below(t, side);
      troot := if side == EB_LEFT then node.left else node.right;
    }
  }

  /** __eb32i_lookup, for x given as the word that holds the signed key. */
  method LookupSigned(tree: EbTree, x: nat, w: nat) returns (r: EbNode?)
    requires IntTree(tree, w, true) && x < Pow2(w) && w > 0
    ensures r == FirstKey(tree.Contents(), x)
  {
    EmptyOrNot(tree);
    var troot := tree.root.left;
    if troot == NULL { return null; }
    var key := Xor(x, Pow2(w - 1));
    XorTop(x, w);
    ghost var T, S, M, k := tree.shape.value, tree.Foot(), Snap(tree.Foot()), IntBits(key, w);
    ghost var t, up := T, Troot(tree.root, EB_LEFT);
    LeafSetIsLeaves(T);
    FirstKeyIsFirstWith(Leaves(T), x, w, true);
    while true
      invariant Narrowed(T, t, k) && troot == At(t) && Rep(M, Scalar(w), t, up)
      decreases t
    {
      LookupStep(T, t, x, w, true);
      var node := troot.to;
      if troot.tag == EB_LEAF {
        return if node.key == x then node else null;
      }
      assert M[node] == CellOf(node);
      var node_bit := node.bit;
      var y := Xor(node.key, x);
      XorZero(node.key, x);
      if y == 0 {
        if node_bit < 0 {
          r := WalkDown(node.left, EB_LEFT, Scalar(w), Some(t.l), Troot(node, EB_LEFT), S);
          return r;
        }
        return node;
      }
      var shifted: int, side: bool := *, *;
      if node_bit >= 0 {
        shifted, side := Shr(y, node_bit), Shr(key, node_bit) % 2 == 1;
      }
      if shifted >= 2 { return null; }
      up, t := Troot(node, side), Below(t, side);
      troot := if side == EB_LEFT then node.left else node.right;
    }
  }

  // ---- The nearest key ----

  /** The last entry with a key of x or less, by a linear scan; the first with a key of x or more. */
  ghost function LastUpTo(s: seq<EbNode>, x: nat): EbNode?
  {
    if s == [] then null
    else if s[|s| - 1].key <= x then s[|s| - 1] else LastUpTo(s[..|s| - 1], x)
  }

  ghost function FirstFrom(s: seq<EbNode>, x: nat): EbNode?
  {
    if s == [] then null else if s[0].key >= x then s[0] else FirstFrom(s[1..], x)
  }

  lemma {:induction false} LastUpToPast(a: seq<EbNode>, b: seq<EbNode>, x: nat)
    requires forall e :: e in b ==> e.key > x
    ensures LastUpTo(a + b, x) == LastUpTo(a, x)
  {
    if b == [] {
      assert a + b == a;
    } else {
      var n := |b| - 1;
      assert (a + b)[..|a + b| - 1] == a + b[..n];
      assert b[n] in b;
      LastUpToPast(a, b[..n], x);
    }
  }

  lemma {:induction false} FirstFromPast(a: seq<EbNode>, b: seq<EbNode>, x: nat)
    requires forall e :: e in a ==> e.key < x
    ensures FirstFrom(a + b, x) == FirstFrom(b, x)
  {
    if a == [] {
      assert a + b == b;
    } else {
      assert (a + b)[1..] == a[1..] + b;
      FirstFromPast(a[1..], b, x);
    }
  }

  /** The order of the keys is the order of their bits. */
  lemma KeyOrder(a: nat, b: nat, w: nat)
    requires a < Pow2(w) && b < Pow2(w)
    ensures Before(IntBits(a, w), IntBits(b, w)) <==> a < b
  {
    if a == b { NotBeforeSelf(IntBits(a, w)); } else { FirstDifference(a, b, w); }
  }

  /** The descent for x has come to t: what is left of it is below x, what is right of it above. */
  ghost predicate Between(T: Tree, c: Ctx, t: Tree, x: nat)
  {
    && T == Plug(c, t) && Elastic(t) && Radix(t) && LeafSet(t) <= LeafSet(T)
    && (forall e :: e in Pre(c) ==> e.key < x)
    && (forall e :: e in Post(c) ==> e.key > x)
  }

  ghost predicate AllBelow(t: Tree, x: nat) { forall e :: e in Leaves(t) ==> e.key < x }
  ghost predicate AllAbove(t: Tree, x: nat) { forall e :: e in Leaves(t) ==> e.key > x }
  ghost predicate AllAre(t: Tree, x: nat) { forall e :: e in Leaves(t) ==> e.key == x }

  /** What the node at the top of t tells a search for the key nearest to x. */
  lemma NearStep(T: Tree, c: Ctx, t: Tree, x: nat, w: nat)
    requires w > 0 && x < Pow2(w) && AllKeyed(LeafSet(T), w, false) && Between(T, c, t, x)
    ensures Keyed(t.n, w, false) && (t.Leaf? ==> AllAre(t, t.n.key))
    ensures t.Node? ==>
      var b := BitField(Scalar(w), t.k);
      if b < 0 then AllAre(t, t.n.key)
      else if Shr(Xor(x, t.n.key), b) >= 2 then
        if Shr(t.n.key, b) < Shr(x, b) then AllBelow(t, x) else AllAbove(t, x) && Shr(t.n.key, b) > Shr(x, b)
      else var right := Shr(x, b) % 2 == 1; Between(T, Deeper(c, t, right), Below(t, right), x)
  {
    LeavesDistinct(t);
    LeafSetIsLeaves(t);
    if t.Node? {
      IntNode(t, w, false);
      if t.k.Dup? { NearDup(t, w); } else { NearNode(T, c, t, x, w); }
    }
  }

  lemma NearDup(t: Tree, w: nat)
    requires t.Node? && t.k.Dup? && Radix(t) && AllKeyed(LeafSet(t), w, false) && Keyed(t.n, w, false)
    ensures AllAre(t, t.n.key)
  {
    LeafSetIsLeaves(t);
    DupTreeKeys(t, t.k.d - 1, t.n.bits);
    forall e | e in Leaves(t) ensures e.key == t.n.key { SameKey(e, t.n.key, w, false); }
  }

  lemma NearNode(T: Tree, c: Ctx, t: Tree, x: nat, w: nat)
    requires w > 0 && x < Pow2(w) && AllKeyed(LeafSet(T), w, false) && Between(T, c, t, x)
    requires t.Node? && t.k.Normal? && t.k.p < w && Keyed(t.n, w, false)
    ensures
      var b := w - 1 - t.k.p;
      if Shr(Xor(x, t.n.key), b) >= 2 then
        if Shr(t.n.key, b) < Shr(x, b) then AllBelow(t, x) else AllAbove(t, x) && Shr(t.n.key, b) > Shr(x, b)
      else var right := Shr(x, b) % 2 == 1; Between(T, Deeper(c, t, right), Below(t, right), x)
  {
    var b := w - 1 - t.k.p;
    NoCommonBits(x, t.n.key, w, b);
    if Shr(Xor(x, t.n.key), b) >= 2 {
      NearStops(t, x, w);
    } else {
      BitAt(x, w, b);
      NearDescends(T, c, t, x, w, Shr(x, b) % 2 == 1);
    }
  }

  lemma NearStops(t: Tree, x: nat, w: nat)
    requires w > 0 && x < Pow2(w) && AllKeyed(LeafSet(t), w, false) && Elastic(t) && Radix(t)
    requires t.Node? && t.k.Normal? && t.k.p < w && Keyed(t.n, w, false)
    requires Common(IntBits(x, w), t.n.bits) < t.k.p
    ensures var b := w - 1 - t.k.p;
      if Shr(t.n.key, b) < Shr(x, b) then AllBelow(t, x) else AllAbove(t, x) && Shr(t.n.key, b) > Shr(x, b)
  {
    var b, k := w - 1 - t.k.p, IntBits(x, w);
    var m := Common(k, t.n.bits);
    JoinUniform(t, k);
    LeafSetIsLeaves(t);
    AgreeHigh(x, t.n.key, w, b);
    if t.n.key <= x { ShrMonotone(t.n.key, x, b); } else { ShrMonotone(x, t.n.key, b); }
    KeyOrder(x, t.n.key, w);
    KeyOrder(t.n.key, x, w);
    forall e | e in Leaves(t) ensures if t.n.key < x then e.key < x else e.key > x {
      KeyOrder(x, e.key, w);
      KeyOrder(e.key, x, w);
      if t.n.key < x {
        BeforeAt(e.bits, k, m);
      } else {
        BeforeAt(k, e.bits, m);
      }
    }
  }

  lemma OrderedBelow(t: Tree, x: nat, w: nat)
    requires x < Pow2(w) && AllKeyed(LeafSet(t), w, false)
      && forall e :: e in LeafSet(t) ==> Before(e.bits, IntBits(x, w))
    ensures AllBelow(t, x)
  {
    LeafSetIsLeaves(t);
    forall e | e in Leaves(t) ensures e.key < x { KeyOrder(e.key, x, w); }
  }

  lemma OrderedAbove(t: Tree, x: nat, w: nat)
    requires x < Pow2(w) && AllKeyed(LeafSet(t), w, false)
      && forall e :: e in LeafSet(t) ==> Before(IntBits(x, w), e.bits)
    ensures AllAbove(t, x)
  {
    LeafSetIsLeaves(t);
    forall e | e in Leaves(t) ensures e.key > x { KeyOrder(x, e.key, w); }
  }

  lemma NearDescends(T: Tree, c: Ctx, t: Tree, x: nat, w: nat, right: bool)
    requires w > 0 && x < Pow2(w) && AllKeyed(LeafSet(T), w, false) && Between(T, c, t, x)
    requires t.Node? && t.k.Normal? && t.k.p < w && Keyed(t.n, w, false)
    requires Common(IntBits(x, w), t.n.bits) >= t.k.p && right == GoesRight(t.k, IntBits(x, w))
    ensures Between(T, Deeper(c, t, right), Below(t, right), x)
  {
    SideOrder(t, IntBits(x, w));
    if right { OrderedBelow(t.l, x, w); } else { OrderedAbove(t.r, x, w); }
    LeafSetIsLeaves(t);
    BetweenDeeper(T, c, t, x, right);
  }

  lemma BetweenDeeper(T: Tree, c: Ctx, t: Tree, x: nat, right: bool)
    requires Between(T, c, t, x) && t.Node? && !t.k.Dup?
    requires if right then AllBelow(t.l, x) else AllAbove(t.r, x)
    ensures Between(T, Deeper(c, t, right), Below(t, right), x)
  {
    assert Plug(Deeper(c, t, right), Below(t, right)) == Plug(c, t);
    if right { assert Pre(Deeper(c, t, right)) == Pre(c) + Leaves(t.l); }
    else { assert Post(Deeper(c, t, right)) == Leaves(t.r) + Post(c); }
  }

  /** The answers of both searches where the descent ends. */
  lemma EndBelow(T: Tree, c: Ctx, t: Tree, x: nat)
    requires Between(T, c, t, x)
    ensures (AllAre(t, t.n.key) && t.n.key <= x) || AllBelow(t, x) ==> LastUpTo(Leaves(T), x) == Last(t)
    ensures AllAbove(t, x) ==> LastUpTo(Leaves(T), x) == LastOf(Pre(c))
  {
    PlugLeaves(c, t);
    LastIsLast(t);
    LastIn(Leaves(t));
    ScanBack(Pre(c), Leaves(t), Post(c), x);
  }

  lemma LastIn(s: seq<EbNode>)
    ensures s != [] ==> s[|s| - 1] in s
  {
  }

  lemma ScanBack(a: seq<EbNode>, s: seq<EbNode>, b: seq<EbNode>, x: nat)
    requires s != [] && (forall e :: e in b ==> e.key > x) && forall e :: e in a ==> e.key < x
    ensures s[|s| - 1].key <= x ==> LastUpTo(a + s + b, x) == s[|s| - 1]
    ensures (forall e :: e in s ==> e.key > x) ==> LastUpTo(a + s + b, x) == LastOf(a)
  {
    LastUpToPast(a + s, b, x);
    if s[|s| - 1].key <= x {
      LastUpToHit(a, s, x);
    } else if forall e :: e in s ==> e.key > x {
      LastUpToPast(a, s, x);
      LastIn(a);
      LastUpToHit([], a, x);
      assert [] + a == a;
    }
  }

  lemma LastUpToHit(a: seq<EbNode>, s: seq<EbNode>, x: nat)
    requires s != [] ==> s[|s| - 1].key <= x
    ensures s != [] ==> LastUpTo(a + s, x) == s[|s| - 1]
    ensures s == [] ==> LastUpTo(s, x) == null
  {
    if s != [] { assert (a + s)[|a + s| - 1] == s[|s| - 1]; }
  }

  lemma EndAbove(T: Tree, c: Ctx, t: Tree, x: nat)
    requires Between(T, c, t, x)
    ensures (AllAre(t, t.n.key) && t.n.key >= x) || AllAbove(t, x) ==> FirstFrom(Leaves(T), x) == First(t)
    ensures AllBelow(t, x) ==> FirstFrom(Leaves(T), x) == FirstOf(Post(c))
  {
    PlugLeaves(c, t);
    FirstIsFirst(t);
    var a, s, b := Pre(c), Leaves(t), Post(c);
    assert a + s + b == a + (s + b);
    FirstFromPast(a, s + b, x);
    if AllBelow(t, x) {
      FirstFromPast(s, b, x);
      if b != [] { assert b[0] in b; }
    } else {
      assert (s + b)[0] == s[0] && s[0] in s;
    }
  }

  /** eb32_lookup_le: what a linear scan from the end would find. */
  method LookupLe(tree: EbTree, x: nat, ghost w: nat) returns (r: EbNode?)
    requires IntTree(tree, w, false) && x < Pow2(w) && w > 0
    ensures r == LastUpTo(tree.Contents(), x)
  {
    EmptyOrNot(tree);
    var troot := tree.root.left;
    if troot == NULL { return null; }
    ghost var T, S, M, y := tree.shape.value, tree.Foot(), Snap(tree.Foot()), tree.layer;
    ghost var c, t := Top, T;
    while true
      invariant Between(T, c, t, x) && troot == At(t)
      invariant Rep(M, y, t, Up(tree.root, c)) && RepCtx(M, y, tree.root, c, At(t))
      decreases t
    {
      NearStep(T, c, t, x, w);
      EndBelow(T, c, t, x);
      var node := troot.to;
      assert M[node] == CellOf(node);
      if troot.tag == EB_LEAF {
        if node.key <= x { return node; }
        troot := node.leaf_p;
        break;
      }
      if node.bit < 0 {
        // duplicates: all of them are up to x, or none is
        if node.key <= x {
          r := WalkDown(node.right, EB_RGHT, y, Some(t.r), Troot(node, EB_RGHT), S);
          return r;
        }
        troot := node.node_p;
        break;
      }
      if Shr(Xor(x, node.key), node.bit) >= 2 {
        // all keys below are on the same side of x
        if Shr(node.key, node.bit) < Shr(x, node.bit) {
          r := WalkDown(node.right, EB_RGHT, y, Some(t.r), Troot(node, EB_RGHT), S);
          return r;
        }
        troot := node.node_p;
        break;
      }
      var side := Shr(x, node.bit) % 2 == 1;
      c, t := Deeper(c, t, side), Below(t, side);
      troot := if side == EB_LEFT then node.left else node.right;
    }
    r := StepLeft(troot, y, tree.root, c, At(t), S);
  }

  /** eb32_lookup_ge: what a linear scan from the start would find. */
  method LookupGe(tree: EbTree, x: nat, ghost w: nat) returns (r: EbNode?)
    requires IntTree(tree, w, false) && x < Pow2(w) && w > 0
    ensures r == FirstFrom(tree.Contents(), x)
  {
    EmptyOrNot(tree);
    var troot := tree.root.left;
    if troot == NULL { return null; }
    ghost var T, S, M, y := tree.shape.value, tree.Foot(), Snap(tree.Foot()), tree.layer;
    ghost var c, t := Top, T;
    while true
      invariant Between(T, c, t, x) && troot == At(t)
      invariant Rep(M, y, t, Up(tree.root, c)) && RepCtx(M, y, tree.root, c, At(t))
      decreases t
    {
      NearStep(T, c, t, x, w);
      EndAbove(T, c, t, x);
      var node := troot.to;
      assert M[node] == CellOf(node);
      if troot.tag == EB_LEAF {
        if node.key >= x { return node; }
        troot := node.leaf_p;
        break;
      }
      if node.bit < 0 {
        if node.key >= x {
          r := WalkDown(node.left, EB_LEFT, y, Some(t.l), Troot(node, EB_LEFT), S);
          return r;
        }
        troot := node.node_p;
        break;
      }
      if Shr(Xor(x, node.key), node.bit) >= 2 {
        if Shr(node.key, node.bit) > Shr(x, node.bit) {
          r := WalkDown(node.left, EB_LEFT, y, Some(t.l), Troot(node, EB_LEFT), S);
          return r;
        }
        troot := node.node_p;
        break;
      }
      var side := Shr(x, node.bit) % 2 == 1;
      c, t := Deeper(c, t, side), Below(t, side);
      troot := if side == EB_LEFT then node.left else node.right;
    }
    r := StepRight(troot, y, tree.root, c, At(t), S);
  }
}
