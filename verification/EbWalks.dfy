/**
  Walking: from a branch down to its first or last leaf, and from a leaf to its neighbours.
 */
module EbWalks {
  import opened Basics
  import opened BitStrings
  import opened EbNodes
  import opened EbShapes
  import opened EbRadix
  import opened EbMemory
  import opened EbRemoval
  import opened EbRoots

  // ---- Neighbours in a list ----

  ghost function After(s: seq<EbNode>, n: EbNode): seq<EbNode>
  {
    if s == [] then [] else if s[0] == n then s[1..] else After(s[1..], n)
  }

  ghost function Until(s: seq<EbNode>, n: EbNode): seq<EbNode>
  {
    if s == [] || s[0] == n then [] else [s[0]] + Until(s[1..], n)
  }

  ghost function FirstOf(s: seq<EbNode>): EbNode?
  {
    if s == [] then null else s[0]
  }

  ghost function LastOf(s: seq<EbNode>): EbNode?
  {
    if s == [] then null else s[|s| - 1]
  }

  /** The first entry with another key than w, and the last one. */
  ghost function FirstOther(s: seq<EbNode>, w: Bits): EbNode?
  {
    if s == [] then null else if s[0].bits != w then s[0] else FirstOther(s[1..], w)
  }

  ghost function LastOther(s: seq<EbNode>, w: Bits): EbNode?
  {
    if s == [] then null else if s[|s| - 1].bits != w then s[|s| - 1] else LastOther(s[..|s| - 1], w)
  }

  ghost predicate AllDistinct(s: seq<EbNode>)
  {
    forall i, j :: 0 <= i < j < |s| ==> s[i] != s[j]
  }

  lemma {:induction false} Around(a: seq<EbNode>, n: EbNode, b: seq<EbNode>)
    requires n !in a
    ensures After(a + [n] + b, n) == b && Until(a + [n] + b, n) == a
  {
    if a == [] {
      assert a + [n] + b == [n] + b;
    } else {
      assert (a + [n] + b)[1..] == a[1..] + [n] + b;
      Around(a[1..], n, b);
    }
  }

  lemma {:induction false} SplitAt(s: seq<EbNode>, n: EbNode)
    requires n in s
    ensures s == Until(s, n) + [n] + After(s, n) && n !in Until(s, n)
  {
    if s[0] != n { SplitAt(s[1..], n); }
  }

  /** Stepping forward and stepping back undo each other along the whole list. */
  lemma StepsInverse(s: seq<EbNode>, n: EbNode)
    requires AllDistinct(s) && n in s
    ensures var m := FirstOf(After(s, n)); m != null ==> m in s && LastOf(Until(s, m)) == n
    ensures var m := LastOf(Until(s, n)); m != null ==> m in s && FirstOf(After(s, m)) == n
  {
    SplitAt(s, n);
    var a, b := Until(s, n), After(s, n);
    if b != [] {
      assert s == (a + [n]) + [b[0]] + b[1..];
      assert b[0] !in a + [n] by { DistinctParts(a + [n], b[0], b[1..], s); }
      Around(a + [n], b[0], b[1..]);
    }
    if a != [] {
      var m := a[|a| - 1];
      assert s == a[..|a| - 1] + [m] + ([n] + b);
      DistinctParts(a[..|a| - 1], m, [n] + b, s);
      Around(a[..|a| - 1], m, [n] + b);
    }
  }

  lemma DistinctParts(a: seq<EbNode>, n: EbNode, b: seq<EbNode>, s: seq<EbNode>)
    requires s == a + [n] + b && AllDistinct(s)
    ensures n !in a && n in s
  {
    assert s[|a|] == n;
    forall i | 0 <= i < |a| ensures a[i] != n { assert s[i] == a[i]; }
  }

  // ---- Walking down ----

  /** eb_walk_down. A null branch, as an empty root has, is returned as it is. */
  method WalkDown(start: Troot, side: bool, ghost y: Layer, ghost t: Option<Tree>, ghost up: Troot,
      ghost S: set<EbNode>)
    returns (r: EbNode?)
    requires match t case None => start == NULL case Some(t) => start == At(t) && Rep(Snap(S), y, t, up)
    ensures match t case None => r == null case Some(t) => r == if side == EB_LEFT then First(t) else Last(t)
  {
    ghost var M, cur, at := Snap(S), t, up;
    var p := start;
    while p.tag == EB_NODE
      invariant t.Some? == cur.Some? && p == if cur.None? then NULL else At(cur.value)
      invariant cur.Some? ==> Rep(M, y, cur.value, at)
      invariant cur.Some? ==> if side == EB_LEFT then First(cur.value) == First(t.value)
        else Last(cur.value) == Last(t.value)
      decreases if cur.Some? then Size(cur.value) else 0
    {
      assert M[p.to] == CellOf(p.to);
      at, cur := Troot(p.to, side), Some(if side == EB_LEFT then cur.value.l else cur.value.r);
      p := if side == EB_LEFT then p.to.left else p.to.right;
    }
    r := p.to;
  }

  /** eb_first. */
  method FirstEntry(tree: EbTree) returns (r: EbNode?)
    requires tree.Valid()
    ensures r == FirstOf(tree.Contents())
  {
    EmptyOrNot(tree);
    if tree.shape.Some? { FirstIsFirst(tree.shape.value); }
    r := WalkDown(tree.root.left, EB_LEFT, tree.layer, tree.shape, Troot(tree.root, EB_LEFT), tree.Foot());
  }

  /** eb_last. */
  method LastEntry(tree: EbTree) returns (r: EbNode?)
    requires tree.Valid()
    ensures r == LastOf(tree.Contents())
  {
    EmptyOrNot(tree);
    if tree.shape.Some? { LastIsLast(tree.shape.value); }
    r := WalkDown(tree.root.left, EB_RGHT, tree.layer, tree.shape, Troot(tree.root, EB_LEFT), tree.Foot());
  }

  // ---- Walking up from a leaf ----

  lemma AfterPath(T: Tree, n: EbNode)
    requires n in LeafSet(T) && Elastic(T)
    ensures var c := PathToLeaf(Top, T, n); After(Leaves(T), n) == Post(c) && Until(Leaves(T), n) == Pre(c)
  {
    var c := PathToLeaf(Top, T, n);
    PlugLeaves(c, Leaf(n));
    LeavesDistinct(T);
    DistinctParts(Pre(c), n, Post(c), Leaves(T));
    Around(Pre(c), n, Post(c));
  }

  /** The surroundings of a linked leaf, and its neighbours as they split the walking order. */
  lemma Start(M: Mem, y: Layer, root: EbNode, T: Tree, n: EbNode) returns (c: Ctx)
    requires n in LeafSet(T) && Elastic(T) && Linked(M, y, root, T)
    ensures c == PathToLeaf(Top, T, n)
    ensures T == Plug(c, Leaf(n)) && RepCtx(M, y, root, c, Troot(n, EB_LEAF)) && n in M && M[n].leaf_p == Up(root, c)
    ensures After(Leaves(T), n) == Post(c) && Until(Leaves(T), n) == Pre(c)
  {
    c := PathToLeaf(Top, T, n);
    Zoom(M, y, root, c, Leaf(n));
    AfterPath(T, n);
  }

  /** From a parent pointer up to the next leaf on the right of the hole c. */
  method StepRight(up: Troot, ghost y: Layer, ghost root: EbNode, ghost c0: Ctx, ghost hole0: Troot,
      ghost S: set<EbNode>)
    returns (r: EbNode?)
    requires up == Up(root, c0) && RepCtx(Snap(S), y, root, c0, hole0)
    ensures r == FirstOf(Post(c0))
  {
    ghost var M, c, hole := Snap(S), c0, hole0;
    var t := up;
    while t.tag != EB_LEFT
      invariant t == Up(root, c) && RepCtx(M, y, root, c, hole) && Post(c) == Post(c0)
      decreases c
    {
      assert M[t.to] == CellOf(t.to);
      hole := Troot(t.to, EB_NODE);
      t, c := t.to.node_p, c.up;
    }
    assert t.to in M && M[t.to] == CellOf(t.to);
    t := t.to.right;
    if t.to == null { return null; }
    FirstIsFirst(c.r);
    r := WalkDown(t, EB_LEFT, y, Some(c.r), Troot(c.n, EB_RGHT), S);
  }

  /** From a parent pointer up to the next leaf on the left of the hole c. */
  method StepLeft(up: Troot, ghost y: Layer, ghost root: EbNode, ghost c0: Ctx, ghost hole0: Troot,
      ghost S: set<EbNode>)
    returns (r: EbNode?)
    requires up == Up(root, c0) && RepCtx(Snap(S), y, root, c0, hole0)
    ensures r == LastOf(Pre(c0))
  {
    ghost var M, c, hole := Snap(S), c0, hole0;
    var t := up;
    while t.tag == EB_LEFT
      invariant t == Up(root, c) && RepCtx(M, y, root, c, hole) && Pre(c) == Pre(c0)
      decreases c
    {
      // a null right branch tells the root
      assert t.to in M && M[t.to] == CellOf(t.to);
      if t.to.right.to == null { return null; }
      hole := Troot(t.to, EB_NODE);
      t, c := t.to.node_p, c.up;
    }
    assert M[t.to] == CellOf(t.to);
    t := t.to.left;
    LastIsLast(c.l);
    r := WalkDown(t, EB_RGHT, y, Some(c.l), Troot(c.n, EB_LEFT), S);
  }

  /** eb_next. */
  method Next(tree: EbTree, node: EbNode) returns (r: EbNode?)
    requires tree.Valid() && node in tree.Entries()
    ensures r == FirstOf(After(tree.Contents(), node))
  {
    ghost var M := Snap(tree.Foot());
    ghost var c := Start(M, tree.layer, tree.root, tree.shape.value, node);
    assert M[node] == CellOf(node);
    r := StepRight(node.leaf_p, tree.layer, tree.root, c, Troot(node, EB_LEAF), tree.Foot());
  }

  /** eb_prev. */
  method Prev(tree: EbTree, node: EbNode) returns (r: EbNode?)
    requires tree.Valid() && node in tree.Entries()
    ensures r == LastOf(Until(tree.Contents(), node))
  {
    ghost var M := Snap(tree.Foot());
    ghost var c := Start(M, tree.layer, tree.root, tree.shape.value, node);
    assert M[node] == CellOf(node);
    r := StepLeft(node.leaf_p, tree.layer, tree.root, c, Troot(node, EB_LEAF), tree.Foot());
  }

  // ---- Walking within and across keys ----

  lemma {:induction false} PlugRadix(c: Ctx, t: Tree)
    requires Radix(Plug(c, t))
    ensures Radix(t)
    decreases c
  {
    if c != Top {
      var u := if c.InLeft? then Node(c.n, c.k, t, c.r) else Node(c.n, c.k, c.l, t);
      PlugRadix(c.up, u);
      if c.k.Dup? { DupTreeKeys(t, c.k.d, c.n.bits); }
    }
  }

  /** Outside a tree that is not one of duplicates its keys do not occur. */
  lemma {:induction false} OtherKeys(c: Ctx, t: Tree)
    requires Radix(Plug(c, t)) && Elastic(Plug(c, t)) && t.Node? && !t.k.Dup?
    ensures forall e, f :: e in LeafSet(t) && f in CtxLeaves(c) ==> e.bits != f.bits
    decreases c
  {
    if c != Top {
      var u := if c.InLeft? then Node(c.n, c.k, t, c.r) else Node(c.n, c.k, c.l, t);
      PlugRadix(c.up, u);
      assert c.k.Dup? ==> DupTree(t, c.k.d, c.n.bits);
      OtherKeys(c.up, u);
    }
  }

  /** The leaves on the other side of the node above a hole. */
  ghost function Sibling(c: Ctx): Tree
    requires c != Top
  {
    if c.InLeft? then c.r else c.l
  }

  ghost function Raise(c: Ctx, t: Tree): Tree
    requires c != Top
  {
    if c.InLeft? then Node(c.n, c.k, t, c.r) else Node(c.n, c.k, c.l, t)
  }

  /** What the node above a hole with the entry e says about the keys around: in a tree of duplicates
      those of the sibling are the same; outside, no other one is. Its bit field tells which. */
  lemma UpStep(T: Tree, c: Ctx, t: Tree, e: EbNode, y: Layer)
    requires T == Plug(c, t) && Radix(T) && Elastic(T) && e in LeafSet(t) && c != Top
    requires y.Scalar? ==> forall n :: n in LeafSet(T) ==> |n.bits| == y.w
    ensures T == Plug(c.up, Raise(c, t)) && e in LeafSet(Raise(c, t))
    ensures BitField(y, c.k) < 0 <==> c.k.Dup?
    ensures c.k.Dup? ==> forall f :: f in Leaves(Sibling(c)) ==> f.bits == e.bits
    ensures !c.k.Dup? ==> forall f :: f in Leaves(Sibling(c)) ==> f.bits != e.bits
    ensures !c.k.Dup? ==> forall f :: f in CtxLeaves(c.up) ==> f.bits != e.bits
  {
    var u := Raise(c, t);
    PlugRadix(c.up, u);
    PlugElastic(c.up, u);
    PlugSets(c.up, u);
    LeafSetIsLeaves(Sibling(c));
    FirstIsFirst(t);
    FirstIsFirst(Sibling(c));
    if c.k.Dup? {
      DupTreeKeys(u, c.k.d - 1, c.n.bits);
    } else {
      OtherKeys(c.up, u);
    }
  }

  lemma {:induction false} PostInside(c: Ctx)
    ensures forall e :: e in Post(c) || e in Pre(c) ==> e in CtxLeaves(c)
  {
    if c != Top {
      PostInside(c.up);
      LeafSetIsLeaves(Sibling(c));
    }
  }

  /** eb_next_dup. */
  method NextDup(tree: EbTree, node: EbNode) returns (r: EbNode?)
    requires tree.Valid() && node in tree.Entries()
    ensures var m := FirstOf(After(tree.Contents(), node));
      r == if m != null && m.bits == node.bits then m else null
  {
    ghost var T, S, M, y := tree.shape.value, tree.Foot(), Snap(tree.Foot()), tree.layer;
    ghost var c := Start(M, y, tree.root, T, node);
    ghost var post, hole, sub := Post(c), Troot(node, EB_LEAF), Leaf(node);
    assert M[node] == CellOf(node);
    var t := node.leaf_p;
    while t.tag != EB_LEFT
      invariant t == Up(tree.root, c) && RepCtx(M, y, tree.root, c, hole) && Post(c) == post
      invariant T == Plug(c, sub) && node in LeafSet(sub)
      decreases c
    {
      assert M[t.to] == CellOf(t.to);
      UpStep(T, c, sub, node, y);
      PostInside(c.up);
      if t.to.bit >= 0 { return null; }
      hole, sub := Troot(t.to, EB_NODE), Raise(c, sub);
      t, c := t.to.node_p, c.up;
    }
    assert t.to in M && M[t.to] == CellOf(t.to);
    if c != Top { UpStep(T, c, sub, node, y); FirstIsFirst(c.r); }
    // below the root the field read here is not one of a node
    if t.to.bit >= 0 { return null; }
    t := t.to.right;
    if t.to == null { return null; }
    r := WalkDown(t, EB_LEFT, y, Some(c.r), Troot(c.n, EB_RGHT), S);
  }

  /** eb_prev_dup. */
  method PrevDup(tree: EbTree, node: EbNode) returns (r: EbNode?)
    requires tree.Valid() && node in tree.Entries()
    ensures var m := LastOf(Until(tree.Contents(), node));
      r == if m != null && m.bits == node.bits then m else null
  {
    ghost var T, S, M, y := tree.shape.value, tree.Foot(), Snap(tree.Foot()), tree.layer;
    ghost var c := Start(M, y, tree.root, T, node);
    ghost var pre, hole, sub := Pre(c), Troot(node, EB_LEAF), Leaf(node);
    assert M[node] == CellOf(node);
    var t := node.leaf_p;
    while t.tag == EB_LEFT
      invariant t == Up(tree.root, c) && RepCtx(M, y, tree.root, c, hole) && Pre(c) == pre
      invariant T == Plug(c, sub) && node in LeafSet(sub)
      decreases c
    {
      assert t.to in M && M[t.to] == CellOf(t.to);
      if t.to.right.to == null { return null; }
      UpStep(T, c, sub, node, y);
      PostInside(c.up);
      if t.to.bit >= 0 { return null; }
      hole, sub := Troot(t.to, EB_NODE), Raise(c, sub);
      t, c := t.to.node_p, c.up;
    }
    assert M[t.to] == CellOf(t.to);
    UpStep(T, c, sub, node, y);
    LastIsLast(c.l);
    if t.to.bit >= 0 { return null; }
    t := t.to.left;
    r := WalkDown(t, EB_RGHT, y, Some(c.l), Troot(c.n, EB_LEFT), S);
  }

  lemma {:induction false} FirstOtherPast(a: seq<EbNode>, b: seq<EbNode>, w: Bits)
    requires forall e :: e in a ==> e.bits == w
    ensures FirstOther(a + b, w) == FirstOther(b, w)
  {
    if a == [] {
      assert a + b == b;
    } else {
      assert (a + b)[1..] == a[1..] + b;
      FirstOtherPast(a[1..], b, w);
    }
  }

  lemma {:induction false} LastOtherPast(a: seq<EbNode>, b: seq<EbNode>, w: Bits)
    requires forall e :: e in b ==> e.bits == w
    ensures LastOther(a + b, w) == LastOther(a, w)
  {
    if b == [] {
      assert a + b == a;
    } else {
      var n := |b| - 1;
      assert (a + b)[..|a + b| - 1] == a + b[..n];
      assert b[n] in b;
      LastOtherPast(a, b[..n], w);
    }
  }

  /** Where a walk towards another key stops. */
  lemma NextStop(c: Ctx, w: Bits)
    requires c.InLeft? && forall f :: f in Leaves(Sibling(c)) ==> f.bits != w
    ensures FirstOther(Post(c), w) == First(c.r)
  {
    FirstIsFirst(c.r);
    assert Leaves(c.r)[0] in Leaves(c.r) && Post(c)[0] == Leaves(c.r)[0];
  }

  lemma PrevStop(c: Ctx, w: Bits)
    requires c.InRight? && forall f :: f in Leaves(Sibling(c)) ==> f.bits != w
    ensures LastOther(Pre(c), w) == Last(c.l)
  {
    LastIsLast(c.l);
    var n := |Leaves(c.l)| - 1;
    assert Leaves(c.l)[n] in Leaves(c.l) && Pre(c)[|Pre(c)| - 1] == Leaves(c.l)[n];
  }

  /** eb_next_unique: the first leaf of the next key. */
  method NextUnique(tree: EbTree, node: EbNode) returns (r: EbNode?)
    requires tree.Valid() && node in tree.Entries()
    ensures r == FirstOther(After(tree.Contents(), node), node.bits)
  {
    ghost var T, S, M, y := tree.shape.value, tree.Foot(), Snap(tree.Foot()), tree.layer;
    ghost var c := Start(M, y, tree.root, T, node);
    ghost var goal, hole, sub := FirstOther(Post(c), node.bits), Troot(node, EB_LEAF), Leaf(node);
    assert M[node] == CellOf(node);
    var t := node.leaf_p;
    while true
      invariant t == Up(tree.root, c) && RepCtx(M, y, tree.root, c, hole)
      invariant FirstOther(Post(c), node.bits) == goal
      invariant T == Plug(c, sub) && node in LeafSet(sub)
      decreases c
    {
      assert t.to in M && M[t.to] == CellOf(t.to);
      if t.tag == EB_LEFT {
        if t.to.right.to == null { return null; }
        UpStep(T, c, sub, node, y);
          if t.to.bit >= 0 {
          NextStop(c, node.bits);
          break;
        }
        FirstOtherPast(Leaves(c.r), Post(c.up), node.bits);
      } else {
        UpStep(T, c, sub, node, y);
      }
      hole, sub := Troot(t.to, EB_NODE), Raise(c, sub);
      t, c := t.to.node_p, c.up;
    }
    t := t.to.right;
    r := WalkDown(t, EB_LEFT, y, Some(c.r), Troot(c.n, EB_RGHT), S);
  }

  /** eb_prev_unique: the last leaf of the previous key. */
  method PrevUnique(tree: EbTree, node: EbNode) returns (r: EbNode?)
    requires tree.Valid() && node in tree.Entries()
    ensures r == LastOther(Until(tree.Contents(), node), node.bits)
  {
    ghost var T, S, M, y := tree.shape.value, tree.Foot(), Snap(tree.Foot()), tree.layer;
    ghost var c := Start(M, y, tree.root, T, node);
    ghost var goal, hole, sub := LastOther(Pre(c), node.bits), Troot(node, EB_LEAF), Leaf(node);
    assert M[node] == CellOf(node);
    var t := node.leaf_p;
    while true
      invariant t == Up(tree.root, c) && RepCtx(M, y, tree.root, c, hole)
      invariant LastOther(Pre(c), node.bits) == goal
      invariant T == Plug(c, sub) && node in LeafSet(sub)
      decreases c
    {
      assert t.to in M && M[t.to] == CellOf(t.to);
      if t.tag != EB_LEFT {
        UpStep(T, c, sub, node, y);
          if t.to.bit >= 0 {
          PrevStop(c, node.bits);
          break;
        }
        LastOtherPast(Pre(c.up), Leaves(c.l), node.bits);
      } else {
        if t.to.right.to == null { return null; }
        UpStep(T, c, sub, node, y);
      }
      hole, sub := Troot(t.to, EB_NODE), Raise(c, sub);
      t, c := t.to.node_p, c.up;
    }
    t := t.to.left;
    r := WalkDown(t, EB_RGHT, y, Some(c.l), Troot(c.n, EB_LEFT), S);
  }
}
