/**
  Walking a scoped tree: only through branches whose mask meets the scope.
 */
module Eb32scWalk {
  import opened EbNodes
  import opened EbShapes
  import opened EbMemory
  import opened EbRemoval
  import opened EbRoots
  import opened EbWalks
  import Scopes

  ghost function NodeMasks(S: set<EbNode>): (m: Scopes.Masks)
    reads S
    ensures m.Keys == S
  {
    map n: EbNode | n in S :: n.node_s
  }

  ghost function LeafMasks(S: set<EbNode>): (m: Scopes.Masks)
    reads S
    ensures m.Keys == S
  {
    map n: EbNode | n in S :: n.leaf_s
  }

  /** Every node's mask includes the scopes of all leaves below it. */
  ghost predicate Covered(tree: EbTree)
    reads tree, tree.Foot()
  {
    tree.shape.Some? ==> Scopes.Covers(NodeMasks(tree.Foot()), LeafMasks(tree.Foot()), tree.shape.value)
  }

  /** The entries whose own scope meets the one asked for. */
  ghost function InScope(s: seq<EbNode>, ls: Scopes.Masks, scope: Scope): seq<EbNode>
  {
    if s == [] then []
    else (if Scopes.Get(ls, s[0]) * scope != {} then [s[0]] else []) + InScope(s[1..], ls, scope)
  }

  /** The leaves that meet the scope and are not hidden by a mask on the way down to them. */
  ghost function Pruned(t: Tree, ns: Scopes.Masks, ls: Scopes.Masks, scope: Scope): seq<EbNode>
  {
    if Scopes.BranchMask(ns, ls, t) * scope == {} then []
    else match t
      case Leaf(n) => [n]
      case Node(_, _, l, r) => Pruned(l, ns, ls, scope) + Pruned(r, ns, ls, scope)
  }

  ghost function PrunedPost(c: Ctx, ns: Scopes.Masks, ls: Scopes.Masks, scope: Scope): seq<EbNode>
  {
    match c
    case Top => []
    case InLeft(_, _, up, r) => Pruned(r, ns, ls, scope) + PrunedPost(up, ns, ls, scope)
    case InRight(_, _, _, up) => PrunedPost(up, ns, ls, scope)
  }

  lemma {:induction false} InScopeAppend(a: seq<EbNode>, b: seq<EbNode>, ls: Scopes.Masks, scope: Scope)
    ensures InScope(a + b, ls, scope) == InScope(a, ls, scope) + InScope(b, ls, scope)
  {
    if a == [] {
      assert a + b == b;
    } else {
      var head := if Scopes.Get(ls, a[0]) * scope != {} then [a[0]] else [];
      var x, y := InScope(a[1..], ls, scope), InScope(b, ls, scope);
      InScopeAppend(a[1..], b, ls, scope);
      assert (a + b)[1..] == a[1..] + b;
      assert head + (x + y) == (head + x) + y;
    }
  }

  // ---- The masks hide nothing exactly if they are wide enough ----

  /** The masks hide no leaf, whatever the scope asked for. */
  ghost predicate HidesNothing(ns: Scopes.Masks, ls: Scopes.Masks, t: Tree)
  {
    forall scope: Scope :: Pruned(t, ns, ls, scope) == InScope(Leaves(t), ls, scope)
  }

  lemma {:induction false} NoneInScope(t: Tree, ls: Scopes.Masks, scope: Scope)
    ensures InScope(Leaves(t), ls, scope) == [] <==> Scopes.ScopesOf(ls, t) * scope == {}
  {
    match t
    case Leaf(_) =>
    case Node(_, _, l, r) =>
      NoneInScope(l, ls, scope);
      NoneInScope(r, ls, scope);
      InScopeAppend(Leaves(l), Leaves(r), ls, scope);
      assert Scopes.ScopesOf(ls, t) * scope == Scopes.ScopesOf(ls, l) * scope + Scopes.ScopesOf(ls, r) * scope;
  }

  lemma {:induction false} CoveredPruned(t: Tree, ns: Scopes.Masks, ls: Scopes.Masks, scope: Scope)
    requires Scopes.Covers(ns, ls, t)
    ensures Pruned(t, ns, ls, scope) == InScope(Leaves(t), ls, scope)
  {
    match t
    case Leaf(_) =>
    case Node(_, _, l, r) =>
      CoveredPruned(l, ns, ls, scope);
      CoveredPruned(r, ns, ls, scope);
      InScopeAppend(Leaves(l), Leaves(r), ls, scope);
      NoneInScope(t, ls, scope);
  }

  /** A walk meets no leaves but those of the scope. */
  lemma {:induction false} PrunedShorter(t: Tree, ns: Scopes.Masks, ls: Scopes.Masks, scope: Scope)
    ensures |Pruned(t, ns, ls, scope)| <= |InScope(Leaves(t), ls, scope)|
  {
    match t
    case Leaf(_) =>
    case Node(_, _, l, r) =>
      PrunedShorter(l, ns, ls, scope);
      PrunedShorter(r, ns, ls, scope);
      InScopeAppend(Leaves(l), Leaves(r), ls, scope);
  }

  /** If no leaf is hidden in a tree none is in its branches. */
  lemma BranchesHideNothing(t: Tree, ns: Scopes.Masks, ls: Scopes.Masks, scope: Scope)
    requires t.Node? && Pruned(t, ns, ls, scope) == InScope(Leaves(t), ls, scope)
    ensures Pruned(t.l, ns, ls, scope) == InScope(Leaves(t.l), ls, scope)
    ensures Pruned(t.r, ns, ls, scope) == InScope(Leaves(t.r), ls, scope)
  {
    var a, b := Pruned(t.l, ns, ls, scope), Pruned(t.r, ns, ls, scope);
    var x, y := InScope(Leaves(t.l), ls, scope), InScope(Leaves(t.r), ls, scope);
    PrunedShorter(t.l, ns, ls, scope);
    PrunedShorter(t.r, ns, ls, scope);
    InScopeAppend(Leaves(t.l), Leaves(t.r), ls, scope);
    if Scopes.BranchMask(ns, ls, t) * scope != {} {
      assert a + b == x + y;
      assert a == (a + b)[..|a|] && b == (a + b)[|a|..] && x == (x + y)[..|x|] && y == (x + y)[|x|..];
    }
  }

  /** The masks include the scopes of all leaves below their nodes if and only if no walk misses a leaf. */
  lemma {:induction false} CoversIffHidesNothing(ns: Scopes.Masks, ls: Scopes.Masks, t: Tree)
    ensures Scopes.Covers(ns, ls, t) <==> HidesNothing(ns, ls, t)
  {
    if Scopes.Covers(ns, ls, t) {
      forall scope: Scope ensures Pruned(t, ns, ls, scope) == InScope(Leaves(t), ls, scope) {
        CoveredPruned(t, ns, ls, scope);
      }
    } else {
      if HidesNothing(ns, ls, t) { HiddenSomewhere(ns, ls, t); }
    }
  }

  lemma {:induction false} HiddenSomewhere(ns: Scopes.Masks, ls: Scopes.Masks, t: Tree)
    requires HidesNothing(ns, ls, t)
    ensures Scopes.Covers(ns, ls, t)
  {
    match t
    case Leaf(_) =>
    case Node(n, _, l, r) =>
      forall scope: Scope
        ensures Pruned(l, ns, ls, scope) == InScope(Leaves(l), ls, scope)
        ensures Pruned(r, ns, ls, scope) == InScope(Leaves(r), ls, scope)
      {
        BranchesHideNothing(t, ns, ls, scope);
      }
      HiddenSomewhere(ns, ls, l);
      HiddenSomewhere(ns, ls, r);
      forall b | b in Scopes.ScopesOf(ls, t) ensures b in Scopes.Get(ns, n) {
        NoneInScope(t, ls, {b});
        assert b in Scopes.ScopesOf(ls, t) * {b};
        assert Pruned(t, ns, ls, {b}) != [];
      }
  }

  // ---- What next steps visit ----

  /** Where a walk stands at a leaf it has come to, what it has still to visit is what comes after it. */
  lemma {:induction false} PrunedOn(c: Ctx, t: Tree, n: EbNode, ns: Scopes.Masks, ls: Scopes.Masks, scope: Scope)
    requires n in LeafSet(t) && Elastic(t) && n in Pruned(t, ns, ls, scope)
    ensures PrunedPost(PathToLeaf(c, t, n), ns, ls, scope) ==
      After(Pruned(t, ns, ls, scope), n) + PrunedPost(c, ns, ls, scope)
    decreases t
  {
    match t
    case Leaf(_) =>
    case Node(d, k, l, r) =>
      var a, b := Pruned(l, ns, ls, scope), Pruned(r, ns, ls, scope);
      PrunedIn(l, ns, ls, scope);
      PrunedIn(r, ns, ls, scope);
      if n in LeafSet(l) {
        PrunedOn(InLeft(d, k, c, r), l, n, ns, ls, scope);
        AfterLeft(a, b, n);
      } else {
        PrunedOn(InRight(d, k, l, c), r, n, ns, ls, scope);
        AfterRight(a, b, n);
      }
  }

  lemma {:induction false} AfterLeft(a: seq<EbNode>, b: seq<EbNode>, n: EbNode)
    requires n in a
    ensures After(a + b, n) == After(a, n) + b
  {
    assert (a + b)[1..] == a[1..] + b;
    if a[0] != n { AfterLeft(a[1..], b, n); }
  }

  lemma {:induction false} AfterRight(a: seq<EbNode>, b: seq<EbNode>, n: EbNode)
    requires n !in a
    ensures After(a + b, n) == After(b, n)
  {
    if a == [] {
      assert a + b == b;
    } else {
      assert (a + b)[1..] == a[1..] + b;
      AfterRight(a[1..], b, n);
    }
  }

  lemma {:induction false} PrunedIn(t: Tree, ns: Scopes.Masks, ls: Scopes.Masks, scope: Scope)
    ensures forall n :: n in Pruned(t, ns, ls, scope) ==> n in LeafSet(t)
    ensures Elastic(t) ==> AllDistinct(Pruned(t, ns, ls, scope))
  {
    match t
    case Leaf(_) =>
    case Node(_, _, l, r) =>
      var a, b := Pruned(l, ns, ls, scope), Pruned(r, ns, ls, scope);
      PrunedIn(l, ns, ls, scope);
      PrunedIn(r, ns, ls, scope);
      if Elastic(t) {
        assert forall i, j :: 0 <= i < |a| && 0 <= j < |b| ==> a[i] in LeafSet(l) && b[j] in LeafSet(r);
        assert forall i, j :: 0 <= i < |a| && 0 <= j < |b| ==> a[i] != b[j];
      }
  }

  lemma {:induction false} AfterAt(s: seq<EbNode>, i: nat)
    requires AllDistinct(s) && i < |s|
    ensures After(s, s[i]) == s[i + 1..]
  {
    if i > 0 { AfterAt(s[1..], i - 1); }
  }

  lemma AlongList(s: seq<EbNode>, k: nat, n: EbNode)
    requires AllDistinct(s) && k <= |s| && FirstOf(s[k..]) == n
    ensures k < |s| && n in s && After(s, n) == s[k + 1..] && s[..k] + [n] == s[..k + 1]
  {
    AfterAt(s, k);
  }

  lemma {:induction false} CoveredPost(c: Ctx, t: Tree, ns: Scopes.Masks, ls: Scopes.Masks, scope: Scope)
    requires Scopes.Covers(ns, ls, Plug(c, t))
    ensures PrunedPost(c, ns, ls, scope) == InScope(Post(c), ls, scope)
    decreases c
  {
    match c
    case Top =>
    case InLeft(n, k, up, r) =>
      CoveredPost(up, Node(n, k, t, r), ns, ls, scope);
      Scopes.CoversPlug(up, Node(n, k, t, r), Node(n, k, t, r), ns, ls);
      CoveredPruned(r, ns, ls, scope);
      InScopeAppend(Leaves(r), Post(up), ls, scope);
    case InRight(n, k, l, up) =>
      CoveredPost(up, Node(n, k, l, t), ns, ls, scope);
  }

  /** A position in a walk over a linked tree: at t, with c around it. */
  ghost predicate Standing(M: Mem, y: Layer, root: EbNode, T: Tree, c: Ctx, t: Tree)
  {
    T == Plug(c, t) && Rep(M, y, t, Up(root, c)) && RepCtx(M, y, root, c, At(t))
  }

  /** What is to the right of a position is to the right of another one as well. */
  ghost predicate SameRight(c: Ctx, c0: Ctx, ns: Scopes.Masks, ls: Scopes.Masks, scope: Scope)
  {
    && Post(c) == Post(c0)
    && PrunedPost(c, ns, ls, scope) == PrunedPost(c0, ns, ls, scope)
  }

  ghost predicate NothingOnRight(c: Ctx, ns: Scopes.Masks, ls: Scopes.Masks, scope: Scope)
  {
    Post(c) == [] && PrunedPost(c, ns, ls, scope) == []
  }

  /** The tree t, in its surroundings c, is the next one on the right of c0. */
  ghost predicate NextOnRight(c0: Ctx, c: Ctx, t: Tree, ns: Scopes.Masks, ls: Scopes.Masks, scope: Scope)
  {
    && Post(c0) == Leaves(t) + Post(c)
    && PrunedPost(c0, ns, ls, scope) == Pruned(t, ns, ls, scope) + PrunedPost(c, ns, ls, scope)
  }

  /** From a parent pointer to the closest branch on the right, or null at the end of the tree. */
  method NextBranch(up: Troot, ghost y: Layer, ghost root: EbNode, ghost T: Tree, ghost c0: Ctx, ghost t0: Tree,
      ghost S: set<EbNode>, ghost ns: Scopes.Masks, ghost ls: Scopes.Masks, ghost scope: Scope)
    returns (start: Troot, ghost c: Ctx, ghost t: Tree)
    requires Standing(Snap(S), y, root, T, c0, t0) && up == Up(root, c0)
    ensures start.to == null ==> NothingOnRight(c0, ns, ls, scope)
    ensures start.to != null ==>
      && Standing(Snap(S), y, root, T, c, t) && start == At(t)
      && NextOnRight(c0, c, t, ns, ls, scope)
  {
    ghost var M := Snap(S);
    c, t := c0, t0;
    var p := up;
    while p.tag != EB_LEFT
      invariant p == Up(root, c) && Standing(M, y, root, T, c, t) && SameRight(c, c0, ns, ls, scope)
      decreases c
    {
      assert M[p.to] == CellOf(p.to);
      c, t := c.up, Raise(c, t);
      p := p.to.node_p;
    }
    assert p.to in M && M[p.to] == CellOf(p.to);
    start := p.to.right;
    if start.to != null { c, t := InRight(c.n, c.k, t, c.up), c.r; }
  }

  /** eb32sc_walk_down_left. */
  method WalkDownLeft(start0: Troot, scope: Scope, ghost y: Layer, ghost root: EbNode, ghost T: Tree, ghost c0: Ctx,
      ghost t0: Tree, ghost S: set<EbNode>, ghost ns: Scopes.Masks, ghost ls: Scopes.Masks) returns (r: EbNode?)
    requires Standing(Snap(S), y, root, T, c0, t0) && start0 == At(t0)
    requires ns == NodeMasks(S) && ls == LeafMasks(S)
    ensures r == FirstOf(Pruned(t0, ns, ls, scope) + PrunedPost(c0, ns, ls, scope))
  {
    ghost var M, c, t := Snap(S), c0, t0;
    var start := start0;
    while true
      invariant Standing(M, y, root, T, c, t) && start == At(t) && Snap(S) == M && ns == NodeMasks(S)
        && ls == LeafMasks(S)
      invariant Pruned(t, ns, ls, scope) + PrunedPost(c, ns, ls, scope) ==
        Pruned(t0, ns, ls, scope) + PrunedPost(c0, ns, ls, scope)
      decreases |Leaves(t) + Post(c)|, Size(t)
    {
      var node := start.to;
      assert M[node] == CellOf(node) && ns[node] == node.node_s && ls[node] == node.leaf_s;
      var up;
      if start.tag == EB_NODE {
        if node.node_s * scope != {} {
          start := node.left;
          LeftFirst(c, t, ns, ls, scope);
          c, t := InLeft(t.n, t.k, c, t.r), t.l;
          continue;
        }
        up := node.node_p;
      } else {
        if node.leaf_s * scope != {} { return node; }
        up := node.leaf_p;
      }
      // nothing of the scope is to be seen from here
      assert Pruned(t, ns, ls, scope) == [];
      ghost var c1, t1;
      start, c1, t1 := NextBranch(up, y, root, T, c, t, S, ns, ls, scope);
      assert Snap(S) == M && ns == NodeMasks(S) && ls == LeafMasks(S);
      if start.to == null { return null; }
      c, t := c1, t1;
    }
  }

  lemma LeftFirst(c: Ctx, t: Tree, ns: Scopes.Masks, ls: Scopes.Masks, scope: Scope)
    requires t.Node? && Scopes.BranchMask(ns, ls, t) * scope != {}
    ensures var c' := InLeft(t.n, t.k, c, t.r);
      && Pruned(t, ns, ls, scope) + PrunedPost(c, ns, ls, scope) ==
        Pruned(t.l, ns, ls, scope) + PrunedPost(c', ns, ls, scope)
      && Leaves(t) + Post(c) == Leaves(t.l) + Post(c')
  {
  }

  /** The leaves of the scope that no mask hides, for the masks in memory. */
  ghost function Visible(tree: EbTree, scope: Scope): seq<EbNode>
    reads tree, tree.Foot()
  {
    if tree.shape.None? then [] else Pruned(tree.shape.value, NodeMasks(tree.Foot()), LeafMasks(tree.Foot()), scope)
  }

  /** Nothing is hidden for any scope if and only if all masks are wide enough. */
  lemma VisibleIffCovered(tree: EbTree)
    ensures Covered(tree) <==> forall scope: Scope :: Visible(tree, scope) == InScope(tree.Contents(),
      LeafMasks(tree.Foot()), scope)
  {
    if tree.shape.Some? {
      var t, ns, ls := tree.shape.value, NodeMasks(tree.Foot()), LeafMasks(tree.Foot());
      CoversIffHidesNothing(ns, ls, t);
      assert forall scope: Scope :: Visible(tree, scope) == Pruned(t, ns, ls, scope);
    }
  }

  lemma VisibleLinked(tree: EbTree, scope: Scope)
    requires tree.Valid()
    ensures AllDistinct(Visible(tree, scope)) && forall n :: n in Visible(tree, scope) ==> n in tree.Entries()
  {
    if tree.shape.Some? { PrunedIn(tree.shape.value, NodeMasks(tree.Foot()), LeafMasks(tree.Foot()), scope); }
  }

  /** eb32sc_first. */
  method FirstScoped(tree: EbTree, scope: Scope) returns (r: EbNode?)
    requires tree.Valid()
    ensures r == FirstOf(Visible(tree, scope))
    ensures Covered(tree) ==> r == FirstOf(InScope(tree.Contents(), LeafMasks(tree.Foot()), scope))
  {
    EmptyOrNot(tree);
    VisibleIffCovered(tree);
    if tree.root.left == NULL { return null; }
    ghost var S, T := tree.Foot(), tree.shape.value;
    r := WalkDownLeft(tree.root.left, scope, tree.layer, tree.root, T, Top, T, S, NodeMasks(S), LeafMasks(S));
    assert Pruned(T, NodeMasks(S), LeafMasks(S), scope) + [] == Pruned(T, NodeMasks(S), LeafMasks(S), scope);
  }

  /** eb32sc_next_with_parent. */
  method NextWithParent(up: Troot, scope: Scope, ghost y: Layer, ghost root: EbNode, ghost T: Tree, ghost c0: Ctx,
      ghost t0: Tree, ghost S: set<EbNode>, ghost ns: Scopes.Masks, ghost ls: Scopes.Masks) returns (r: EbNode?)
    requires Standing(Snap(S), y, root, T, c0, t0) && up == Up(root, c0)
    requires ns == NodeMasks(S) && ls == LeafMasks(S)
    ensures r == FirstOf(PrunedPost(c0, ns, ls, scope))
  {
    ghost var M := Snap(S);
    var start;
    ghost var c, t;
    start, c, t := NextBranch(up, y, root, T, c0, t0, S, ns, ls, scope);
    if start.to == null { return null; }
    assert Snap(S) == M && NodeMasks(S) == ns && LeafMasks(S) == ls;
    r := WalkDownLeft(start, scope, y, root, T, c, t, S, ns, ls);
  }

  /** What lies on the right of a leaf, in terms of the walk. */
  lemma NextIs(T: Tree, n: EbNode, ns: Scopes.Masks, ls: Scopes.Masks, scope: Scope)
    requires n in LeafSet(T) && Elastic(T)
    ensures var next, visible := PrunedPost(PathToLeaf(Top, T, n), ns, ls, scope), Pruned(T, ns, ls, scope);
      && (n in visible ==> next == After(visible, n))
      && (Scopes.Covers(ns, ls, T) ==> next == InScope(After(Leaves(T), n), ls, scope))
  {
    var c := PathToLeaf(Top, T, n);
    if n in Pruned(T, ns, ls, scope) { PrunedOn(Top, T, n, ns, ls, scope); }
    if Scopes.Covers(ns, ls, T) {
      CoveredPost(c, Leaf(n), ns, ls, scope);
      AfterPath(T, n);
    }
  }

  /** eb32sc_next, by way of eb32sc_next_with_parent: the first leaf of the scope on the right of the entry that
      no mask hides between it and the node where the walk turns right. */
  method NextScoped(tree: EbTree, node: EbNode, scope: Scope) returns (r: EbNode?)
    requires tree.Valid() && node in tree.Entries()
    ensures r == FirstOf(PrunedPost(PathToLeaf(Top, tree.shape.value, node), NodeMasks(tree.Foot()),
      LeafMasks(tree.Foot()), scope))
    ensures node in Visible(tree, scope) ==> r == FirstOf(After(Visible(tree, scope), node))
    ensures Covered(tree) ==> r == FirstOf(InScope(After(tree.Contents(), node), LeafMasks(tree.Foot()), scope))
  {
    ghost var S, T := tree.Foot(), tree.shape.value;
    ghost var c0 := Start(Snap(S), tree.layer, tree.root, T, node);
    NextIs(T, node, NodeMasks(S), LeafMasks(S), scope);
    assert Snap(S)[node] == CellOf(node);
    r := NextWithParent(node.leaf_p, scope, tree.layer, tree.root, T, c0, Leaf(node), S, NodeMasks(S), LeafMasks(S));
  }

  /** eb32sc_first, and eb32sc_next as long as there is an entry: the walk that the scopes are for. It visits the
      leaves of the scope that no mask hides, once each and in order. */
  method VisitScoped(tree: EbTree, scope: Scope) returns (v: seq<EbNode>)
    requires tree.Valid()
    ensures v == Visible(tree, scope)
    ensures Covered(tree) ==> v == InScope(tree.Contents(), LeafMasks(tree.Foot()), scope)
  {
    ghost var S, ns, ls, all := tree.Foot(), NodeMasks(tree.Foot()), LeafMasks(tree.Foot()), Visible(tree, scope);
    VisibleLinked(tree, scope);
    v := [];
    var node := FirstScoped(tree, scope);
    assert NodeMasks(S) == ns && LeafMasks(S) == ls;
    while node != null
      invariant NodeMasks(S) == ns && LeafMasks(S) == ls
      invariant |v| <= |all| && v == all[..|v|] && node == FirstOf(all[|v|..])
      decreases |all| - |v|
    {
      AlongList(all, |v|, node);
      v := v + [node];
      node := NextScoped(tree, node, scope);
      assert NodeMasks(S) == ns && LeafMasks(S) == ls;
    }
    if Covered(tree) && tree.shape.Some? { CoveredPruned(tree.shape.value, ns, ls, scope); }
  }
}
