/**
  Deletion from a scoped tree, and what whole runs of insertions and deletions keep.
 */
module Eb32scRuns {
  import opened Basics
  import opened EbNodes
  import opened EbShapes
  import opened EbRadix
  import opened EbDeletion
  import opened EbMemory
  import opened EbRemoval
  import opened EbLinks
  import opened EbRoots
  import opened Eb32scWalk
  import opened Eb32sc
  import opened Scopes

  /** The masks once a node that has been moved has those of its two branches. */
  ghost function Widened(ns: Masks, ls: Masks, moved: EbNode?, u: Tree): Masks
    requires moved != null ==> u.Node?
  {
    if moved == null then ns else ns[moved := BranchMask(ns, ls, u.l) + BranchMask(ns, ls, u.r)]
  }

  lemma MovedSets(t: Tree, d: EbNode, moved: EbNode, c: Ctx, u: Tree)
    requires t.Node? && d in LeafSet(t) && Elastic(t) && Moved(t, d, moved, c, u)
    ensures u.l.n in LeafSet(t) - {d} && u.r.n in LeafSet(t) - {d}
    ensures CtxNodes(c) + NodeSet(u.l) + NodeSet(u.r) <= LeafSet(t) - {d} - {moved}
  {
    DeleteLeafSet(t, d);
    DeleteElastic(t, d);
    OneSpareNode(Delete(t, d));
    PlugSets(c, u.(n := moved));
    PlugSets(c, u);
    TopIn(u.l);
    TopIn(u.r);
  }

  /** Deletion keeps every mask wide enough, if a node that takes another one's place gets the masks of
      its two branches. */
  lemma DeleteKeepsCover(t: Tree, d: EbNode, moved: EbNode?, c: Ctx, u: Tree, ns: Masks, ls: Masks, ns': Masks,
      ls': Masks)
    requires t.Node? && d in LeafSet(t) && Elastic(t) && Covers(ns, ls, t)
    requires if moved == null then Delete(t, d) == Cut(t, d) else Moved(t, d, moved, c, u)
    requires Same(LeafSet(t) - {d}, ls, ls') && Same(LeafSet(t) - {d}, ns, ns')
    ensures Covers(Widened(ns', ls', moved, u), ls', Delete(t, d))
  {
    CutCovers(t, d, ns, ls);
    var t', w := Delete(t, d), Widened(ns', ls', moved, u);
    if moved != null {
      MovedCovers(t, d, moved, c, u, ns, ls, ns', ls');
    }
    DeleteLeafSet(t, d);
    DeleteElastic(t, d);
    OneSpareNode(t');
    CoversFrame(if moved == null then ns else w, ls, w, ls', t');
  }

  lemma MovedMasks(s: set<EbNode>, moved: EbNode, u: Tree, ns: Masks, ls: Masks, ns': Masks, ls': Masks)
    requires u.Node? && u.l.n in s && u.r.n in s && Same(s, ls, ls') && Same(s, ns, ns')
    ensures Get(Widened(ns', ls', moved, u), moved) == BranchMask(ns, ls, u.l) + BranchMask(ns, ls, u.r)
    ensures Same(s - {moved}, ns, Widened(ns', ls', moved, u))
  {
    assert BranchMask(ns', ls', u.l) == BranchMask(ns, ls, u.l) && BranchMask(ns', ls', u.r) == BranchMask(ns, ls, u.r);
  }

  lemma MovedCovers(t: Tree, d: EbNode, moved: EbNode, c: Ctx, u: Tree, ns: Masks, ls: Masks, ns': Masks, ls': Masks)
    requires t.Node? && d in LeafSet(t) && Elastic(t) && Moved(t, d, moved, c, u) && Covers(ns, ls, Cut(t, d))
    requires Same(LeafSet(t) - {d}, ls, ls') && Same(LeafSet(t) - {d}, ns, ns')
    ensures Covers(Widened(ns', ls', moved, u), ls, Delete(t, d))
  {
    MovedSets(t, d, moved, c, u);
    var w := Widened(ns', ls', moved, u);
    MovedMasks(LeafSet(t) - {d}, moved, u, ns, ls, ns', ls');
    assert Same(CtxNodes(c) + NodeSet(u.l) + NodeSet(u.r), ns, w);
    TakeOverCovers(c, u, moved, ns, ls, w);
  }

  lemma MovedLinks(M: Mem, y: Layer, root: EbNode, t: Tree, d: EbNode, moved: EbNode, c: Ctx, u: Tree, S: set<EbNode>)
    requires t.Node? && d in LeafSet(t) && Elastic(t) && Moved(t, d, moved, c, u) && M == Snap(S)
      && Linked(M, y, root, Delete(t, d))
    requires LeafSet(Delete(t, d)) <= S
    ensures moved in S && moved.left == At(u.l) && moved.right == At(u.r)
    ensures u.l.n in LeafSet(Delete(t, d)) && u.r.n in LeafSet(Delete(t, d))
  {
    DeleteElastic(t, d);
    MovedInside(t, d, moved, c, u);
    var v := u.(n := moved);
    InTree(M, y, root, c, v);
    assert M[moved] == CellOf(moved);
    LeavesDistinct(v.l);
    LeavesDistinct(v.r);
  }

  /** The last step of eb32sc_delete: the scope of the node that has been moved is enlarged to cover
      the branches it absorbs. */
  method WidenMoved(moved: EbNode, ghost y: Layer, ghost root: EbNode, ghost t: Tree, ghost d: EbNode, ghost c: Ctx,
      ghost u: Tree, ghost S: set<EbNode>)
    requires t.Node? && d in LeafSet(t) && Elastic(t) && Moved(t, d, moved, c, u)
      && Linked(Snap(S), y, root, Delete(t, d))
    requires LeafSet(Delete(t, d)) <= S
    modifies moved`node_s
    ensures Snap(S) == old(Snap(S)) && LeafMasks(S) == old(LeafMasks(S))
    ensures NodeMasks(S) == old(NodeMasks(S))[moved :=
      BranchMask(old(NodeMasks(S)), LeafMasks(S), u.l) + BranchMask(old(NodeMasks(S)), LeafMasks(S), u.r)]
  {
    MovedLinks(Snap(S), y, root, t, d, moved, c, u, S);
    ScopeBelowIs(u.l, S);
    ScopeBelowIs(u.r, S);
    SetMask(moved, ScopeBelow(moved.left) + ScopeBelow(moved.right), S);
  }

  method WidenTree(tree: EbTree, moved: EbNode, ghost t: Tree, ghost d: EbNode, ghost c: Ctx, ghost u: Tree,
      ghost S: set<EbNode>)
    requires tree.Valid() && t.Node? && d in LeafSet(t) && Elastic(t) && tree.shape == Some(Delete(t, d))
    requires S == tree.Foot() && moved in S && Moved(t, d, moved, c, u)
    modifies moved`node_s
    ensures tree.Valid() && LeafMasks(S) == old(LeafMasks(S))
    ensures NodeMasks(S) == Widened(old(NodeMasks(S)), LeafMasks(S), moved, u)
  {
    DeleteLeafSet(t, d);
    WidenMoved(moved, tree.layer, tree.root, t, d, c, u, S);
    assert tree.Foot() == S;
  }

  /** The deletion itself leaves the masks alone. */
  method DeleteLinked(tree: EbTree, node: EbNode, ghost t: Tree, ghost F: set<EbNode>)
    returns (moved: EbNode?, ghost c: Ctx, ghost u: Tree)
    requires tree.Valid() && tree.shape == Some(t) && node in LeafSet(t) && F == tree.Foot()
    modifies tree`shape, F`left, F`right, F`node_p, F`leaf_p, F`bit
    ensures tree.Valid() && tree.Unique() == old(tree.Unique()) && node.leaf_p == NULL && tree.Foot() <= F
    ensures tree.shape == if t.Leaf? then None else Some(Delete(t, node))
    ensures t.Node? ==> if moved == null then Delete(t, node) == Cut(t, node) else Moved(t, node, moved, c, u)
    ensures moved != null ==> t.Node? && u.Node? && moved in tree.Foot()
    ensures NodeMasks(F) == old(NodeMasks(F)) && LeafMasks(F) == old(LeafMasks(F))
  {
    moved, c, u := tree.Delete(node);
  }

  /** eb32sc_delete of a linked entry, with what becomes of the masks. */
  method DeleteLinkedScoped(tree: EbTree, node: EbNode, ghost t: Tree, ghost F: set<EbNode>)
    returns (ghost moved: EbNode?, ghost c: Ctx, ghost u: Tree, ghost ns: Masks)
    requires tree.Valid() && tree.shape == Some(t) && node in LeafSet(t) && F == tree.Foot()
    modifies tree`shape, F`left, F`right, F`node_p, F`leaf_p, F`bit, F`node_s
    ensures tree.Valid() && tree.Unique() == old(tree.Unique()) && node.leaf_p == NULL
    ensures tree.shape == if t.Leaf? then None else Some(Delete(t, node))
    ensures t.Node? ==> if moved == null then Delete(t, node) == Cut(t, node) else Moved(t, node, moved, c, u)
    ensures moved != null ==> t.Node? && u.Node?
    ensures Same(tree.Foot(), old(NodeMasks(F)), ns) && Same(tree.Foot(), old(LeafMasks(F)), LeafMasks(tree.Foot()))
    ensures NodeMasks(tree.Foot()) == Widened(ns, LeafMasks(tree.Foot()), moved, u)
  {
    var node_p;
    node_p, c, u := DeleteLinked(tree, node, t, F);
    moved := node_p;
    ghost var S := tree.Foot();
    ns := NodeMasks(S);
    SubMasks(S, F);
    if node_p != null { WidenTree(tree, node_p, t, node, c, u, S); }
  }

  lemma SubMasks(S: set<EbNode>, F: set<EbNode>)
    requires S <= F
    ensures Same(S, NodeMasks(F), NodeMasks(S)) && Same(S, LeafMasks(F), LeafMasks(S))
  {
  }

  /** eb32sc_delete. */
  method DeleteScoped(tree: EbTree, node: EbNode)
    requires tree.Valid() && node != tree.root
    requires node in tree.Entries() || node.leaf_p == NULL
    modifies tree`shape, node`leaf_p
    modifies tree.Foot()`left, tree.Foot()`right, tree.Foot()`node_p, tree.Foot()`leaf_p, tree.Foot()`bit,
      tree.Foot()`node_s
    ensures tree.Valid() && tree.Unique() == old(tree.Unique())
    ensures tree.Entries() == old(tree.Entries()) - {node}
    ensures tree.Contents() == if node in old(tree.Entries()) then Remove(old(tree.Contents()), node)
      else old(tree.Contents())
    ensures node.leaf_p == NULL
    ensures old(Covered(tree)) ==> Covered(tree)
  {
    ghost var S, M := tree.Foot(), Snap(tree.Foot());
    if node in tree.Entries() {
      LeafParent(M, tree.layer, tree.root, tree.shape.value, node);
      assert M[node] == CellOf(node);
    }
    if node.leaf_p.to == null { return; }
    ghost var t, ns, ls := tree.shape.value, NodeMasks(S), LeafMasks(S);
    ghost var moved, c, u, ns' := DeleteLinkedScoped(tree, node, t, S);
    if t.Node? {
      DeleteLeafSet(t, node);
      DeleteLeaves(t, node);
      ghost var ls' := LeafMasks(tree.Foot());
      assert Same(LeafSet(t) - {node}, ls, ls') && Same(LeafSet(t) - {node}, ns, ns');
      if Covers(ns, ls, t) { DeleteKeepsCover(t, node, moved, c, u, ns, ls, ns', ls'); }
    }
  }

  // ---- Runs ----

  datatype ScopedOp = Ins(x: EbNode, scope: Scope) | Del(x: EbNode)

  /** A tree with the masks of its nodes and leaves. */
  datatype Scoped = Scoped(tree: Option<Tree>, ns: Masks, ls: Masks)

  ghost predicate WellCovered(s: Scoped)
  {
    s.tree.Some? ==> Sound(s.tree.value, false) && Covers(s.ns, s.ls, s.tree.value)
  }

  /** The masks after a deletion. */
  ghost function DeleteMasks(t: Tree, d: EbNode, ns: Masks, ls: Masks): Masks
    requires t.Node? && d in LeafSet(t)
  {
    var t' := Cut(t, d);
    if d in NodeSet(t') then Widened(ns, ls, Freed(t, d), PathToNode(Top, t', d).1) else ns
  }

  ghost function ScopedStep(s: Scoped, op: ScopedOp): Scoped
  {
    match op
    case Ins(x, scope) =>
      var ls := s.ls[x := scope];
      if s.tree.None? then Scoped(Some(Leaf(x)), s.ns[x := scope], ls)
      else if x in LeafSet(s.tree.value) then s
      else Scoped(Some(Insert(s.tree.value, x)), InsertMasks(s.tree.value, x, s.ns, ls, scope), ls)
    case Del(x) =>
      if s.tree.None? || x !in LeafSet(s.tree.value) then s
      else if s.tree.value.Leaf? then Scoped(None, s.ns, s.ls)
      else Scoped(Some(Delete(s.tree.value, x)), DeleteMasks(s.tree.value, x, s.ns, s.ls), s.ls)
  }

  ghost function ScopedRun(ops: seq<ScopedOp>): Scoped
  {
    if ops == [] then Scoped(None, map[], map[]) else ScopedStep(ScopedRun(ops[..|ops| - 1]), ops[|ops| - 1])
  }

  /** The insertion does not meet masks that have some of its scope and not all. */
  ghost predicate StepFits(s: Scoped, op: ScopedOp)
  {
    op.Ins? && s.tree.Some? && op.x !in LeafSet(s.tree.value) ==>
      InsertFits(StopAt(s.tree.value, op.x.bits), op.x.bits, s.ns, op.scope)
  }

  lemma MovedIs(t: Tree, d: EbNode)
    requires t.Node? && d in LeafSet(t) && Elastic(t)
    ensures d in NodeSet(Cut(t, d)) ==> var q := PathToNode(Top, Cut(t, d), d); Moved(t, d, Freed(t, d), q.0, q.1)
    ensures d !in NodeSet(Cut(t, d)) ==> Delete(t, d) == Cut(t, d)
  {
    var t', p := Cut(t, d), Freed(t, d);
    CutDistinct(t, d);
    if d in NodeSet(t') {
      var q := PathToNode(Top, t', d);
      PlugSets(q.0, q.1);
      PlugDistinct(q.0, q.1);
      RelabelAbsent(q.1.l, d, p);
      RelabelAbsent(q.1.r, d, p);
      RelabelPlug(q.0, q.1, d, p);
    } else {
      RelabelAbsent(t', d, p);
    }
  }

  /** Each step of a run keeps all masks wide enough if and only if it fits. */
  lemma StepKeepsCover(s: Scoped, op: ScopedOp)
    requires WellCovered(s) && (s.tree.Some? ==> LeafSet(s.tree.value) <= s.ns.Keys)
    ensures WellCovered(ScopedStep(s, op)) <==> StepFits(s, op)
    ensures var s' := ScopedStep(s, op); s'.tree.Some? ==>
      && Sound(s'.tree.value, false)
      && LeafSet(s'.tree.value) <= s'.ns.Keys
  {
    if s.tree.Some? {
      var t := s.tree.value;
      if op.Ins? {
        if op.x !in LeafSet(t) {
          InsertSound(t, op.x, false);
          InsertKeepsCover(t, op.x, s.ns, s.ls, s.ls[op.x := op.scope], op.scope);
        }
      } else if op.x in LeafSet(t) && t.Node? {
        var q := if op.x in NodeSet(Cut(t, op.x)) then PathToNode(Top, Cut(t, op.x), op.x) else (Top, t);
        var moved := if op.x in NodeSet(Cut(t, op.x)) then Freed(t, op.x) else null;
        MovedIs(t, op.x);
        DeleteSound(t, op.x, false);
        DeleteLeafSet(t, op.x);
        DeleteKeepsCover(t, op.x, moved, q.0, q.1, s.ns, s.ls, s.ns, s.ls);
      }
    }
  }

  /** No walk misses an entry of its scope. */
  ghost predicate WalksRight(s: Scoped)
  {
    s.tree.Some? ==> HidesNothing(s.ns, s.ls, s.tree.value)
  }

  /** After a step from a state in which all masks are wide enough, the walks are right for all scopes if and
      only if the step fits. */
  lemma StepKeepsWalks(s: Scoped, op: ScopedOp)
    requires WellCovered(s) && (s.tree.Some? ==> LeafSet(s.tree.value) <= s.ns.Keys)
    ensures WalksRight(ScopedStep(s, op)) <==> StepFits(s, op)
  {
    var s' := ScopedStep(s, op);
    StepKeepsCover(s, op);
    if s'.tree.Some? { CoversIffHidesNothing(s'.ns, s'.ls, s'.tree.value); }
  }

  /** In every run whose insertions all fit, in particular if their scopes have one element each, every
      mask includes the scopes of all leaves below its node. */
  lemma {:induction false} RunKeepsCover(ops: seq<ScopedOp>)
    requires forall i :: 0 <= i < |ops| ==> StepFits(ScopedRun(ops[..i]), ops[i])
    ensures WellCovered(ScopedRun(ops))
    ensures var s := ScopedRun(ops); s.tree.Some? ==> LeafSet(s.tree.value) <= s.ns.Keys
  {
    if ops != [] {
      var before := ops[..|ops| - 1];
      forall i | 0 <= i < |before| ensures StepFits(ScopedRun(before[..i]), before[i]) {
        assert before[..i] == ops[..i];
      }
      RunKeepsCover(before);
      StepKeepsCover(ScopedRun(before), ops[|ops| - 1]);
    }
  }

  /** In every such run, and at its end, all walks are right. */
  lemma RunKeepsWalks(ops: seq<ScopedOp>)
    requires forall i :: 0 <= i < |ops| ==> StepFits(ScopedRun(ops[..i]), ops[i])
    ensures WalksRight(ScopedRun(ops))
  {
    RunKeepsCover(ops);
    var s := ScopedRun(ops);
    if s.tree.Some? { CoversIffHidesNothing(s.ns, s.ls, s.tree.value); }
  }

  lemma {:induction false} SingleScopesCover(ops: seq<ScopedOp>)
    requires forall i :: 0 <= i < |ops| && ops[i].Ins? ==> exists b :: ops[i].scope == {b}
    ensures WellCovered(ScopedRun(ops)) && WalksRight(ScopedRun(ops))
  {
    forall i | 0 <= i < |ops| ensures StepFits(ScopedRun(ops[..i]), ops[i]) {
      var s := ScopedRun(ops[..i]);
      if ops[i].Ins? && s.tree.Some? {
        var b :| ops[i].scope == {b};
        SingleFits(StopAt(s.tree.value, ops[i].x.bits), ops[i].x.bits, s.ns, b);
      }
    }
    RunKeepsCover(ops);
    RunKeepsWalks(ops);
  }

  // ---- A run after which a mask is too narrow ----

  /** The entries of e inserted in turn, each with the scope {0}. */
  ghost function InsertAll(e: seq<EbNode>): seq<ScopedOp>
  {
    if e == [] then [] else InsertAll(e[..|e| - 1]) + [Ins(e[|e| - 1], {0})]
  }

  ghost predicate Equals(e: seq<EbNode>)
  {
    && (forall i, j :: 0 <= i < j < |e| ==> e[i] != e[j])
    && forall i :: 0 < i < |e| ==> e[i].bits == e[0].bits
  }

  /** All masks lie within a. */
  ghost predicate Within(s: Scoped, a: Scope)
  {
    s.tree.Some? ==>
      (forall n :: n in NodeSet(s.tree.value) ==> Get(s.ns, n) <= a)
        && forall n :: n in LeafSet(s.tree.value) ==> Get(s.ls, n) <= a
  }

  ghost function Pair(a: EbNode, b: EbNode): Tree
  {
    Node(b, Dup(-1), Leaf(a), Leaf(b))
  }

  ghost function Four(e: seq<EbNode>): Tree
    requires |e| >= 4
  {
    Node(e[2], Dup(-2), Pair(e[0], e[1]), Pair(e[2], e[3]))
  }

  /** The tree of seven duplicates: room for one more below the node of the last. */
  ghost function Seven(e: seq<EbNode>): Tree
    requires |e| >= 7
  {
    Node(e[4], Dup(-3), Four(e), Node(e[6], Dup(-2), Pair(e[4], e[5]), Leaf(e[6])))
  }

  lemma InsertFour(e: seq<EbNode>)
    requires |e| >= 4 && Equals(e)
    ensures Insert(Insert(Insert(Leaf(e[0]), e[1]), e[2]), e[3]) == Four(e)
  {
    var t1 := Pair(e[0], e[1]);
    assert Insert(Leaf(e[0]), e[1]) == t1;
    var t2 := Node(e[2], Dup(-2), t1, Leaf(e[2]));
    assert InsertDup(t1, e[2]) == t2;
    assert InsertDup(t2, e[3]) == Four(e);
  }

  lemma InsertSeven(e: seq<EbNode>)
    requires |e| >= 7 && Equals(e)
    ensures Insert(Insert(Insert(Four(e), e[4]), e[5]), e[6]) == Seven(e)
  {
    var t4, t5 := Four(e), Node(e[4], Dup(-3), Four(e), Leaf(e[4]));
    assert Bottom(t4.r) == -1 && !HoleBelow(t4.r) && !HoleBelow(t4);
    assert InsertDup(t4, e[4]) == t5;
    var t6 := Node(e[4], Dup(-3), Four(e), Pair(e[4], e[5]));
    assert InsertDup(t5, e[5]) == t6;
    assert Bottom(t6.r) == -1 && HoleBelow(t6) && !HoleBelow(t6.r);
    assert Wrap(t6.r, e[6]) == Seven(e).r;
    assert InsertDup(t6, e[6]) == Seven(e);
  }

  /** Masks stay within a when the scopes inserted do. */
  lemma StepWithin(s: Scoped, x: EbNode, a: Scope)
    requires WellCovered(s) && (s.tree.Some? ==> LeafSet(s.tree.value) <= s.ns.Keys && x !in LeafSet(s.tree.value))
      && Within(s, a)
    ensures Within(ScopedStep(s, Ins(x, a)), a)
  {
    if s.tree.Some? {
      var t, ls' := s.tree.value, s.ls[x := a];
      OneSpareNode(t);
      InsertSets(t, x);
      InsertMasksMark(t, x, s.ns, ls', a);
      NewWithin(t, x, s.ns, InsertMasks(t, x, s.ns, ls', a), ls', a);
    }
  }

  lemma NewWithin(t: Tree, x: EbNode, m: Masks, m': Masks, ls: Masks, a: Scope)
    requires InsertMarked(t, x, m, m', ls, a)
    requires (forall n :: n in NodeSet(t) ==> Get(m, n) <= a) && forall n :: n in LeafSet(t) ==> Get(ls, n) <= a
    ensures forall n :: n in NodeSet(t) + {x} ==> Get(m', n) <= a
  {
    var u := StopAt(t, x.bits);
    forall n | n in NodeSet(t) ensures Get(m', n) <= a {
      assert Get(m', n) == Marked(Get(m, n), n, t, x.bits, a);
      FitsIs(Get(m, n), a);
    }
    VisitedInside(t, x.bits);
    LastIsLast(u);
    TopIn(u);
    if u.Node? { WrapInside(u); }
  }

  /** The tree s holds just the entries of e, all with the scope {0}. */
  ghost predicate Holds(s: Scoped, e: seq<EbNode>)
  {
    && WellCovered(s) && Within(s, {0})
    && (if e == [] then s.tree.None?
        else s.tree.Some? && LeafSet(s.tree.value) <= s.ns.Keys && LeafSet(s.tree.value) == set n | n in e)
    && forall n :: n in e ==> Get(s.ls, n) == {0}
  }

  lemma HoldsOneMore(s: Scoped, e: seq<EbNode>, x: EbNode)
    requires Holds(s, e) && x !in e
    ensures Holds(ScopedStep(s, Ins(x, {0})), e + [x])
  {
    if s.tree.Some? {
      SingleFits(StopAt(s.tree.value, x.bits), x.bits, s.ns, 0);
      InsertSets(s.tree.value, x);
    }
    StepKeepsCover(s, Ins(x, {0}));
    StepWithin(s, x, {0});
  }

  lemma {:induction false} InsertAllRuns(e: seq<EbNode>)
    requires Equals(e)
    ensures Holds(ScopedRun(InsertAll(e)), e)
  {
    if e != [] {
      var k := |e| - 1;
      InsertAllRuns(e[..k]);
      assert e == e[..k] + [e[k]];
      assert InsertAll(e)[..|InsertAll(e)| - 1] == InsertAll(e[..k]);
      HoldsOneMore(ScopedRun(InsertAll(e[..k])), e[..k], e[k]);
    }
  }

  /** The tree that the entries of e make. */
  ghost function Grown(e: seq<EbNode>): Tree
    requires e != []
  {
    if |e| == 1 then Leaf(e[0]) else Insert(Grown(e[..|e| - 1]), e[|e| - 1])
  }

  lemma GrownOn(e: seq<EbNode>, k: nat)
    requires 0 < k < |e|
    ensures Grown(e[..k + 1]) == Insert(Grown(e[..k]), e[k])
  {
    assert e[..k + 1][..k] == e[..k];
  }

  lemma {:induction false} InsertAllTree(e: seq<EbNode>)
    requires Equals(e) && e != []
    ensures ScopedRun(InsertAll(e)).tree == Some(Grown(e))
  {
    var k := |e| - 1;
    InsertAllRuns(e[..k]);
    assert InsertAll(e)[..|InsertAll(e)| - 1] == InsertAll(e[..k]);
    StepTree(ScopedRun(InsertAll(e[..k])), e[..k], e[k]);
    if k > 0 { InsertAllTree(e[..k]); }
  }

  lemma StepTree(s: Scoped, e: seq<EbNode>, x: EbNode)
    requires Holds(s, e) && x !in e
    ensures ScopedStep(s, Ins(x, {0})).tree == Some(if e == [] then Leaf(x) else Insert(s.tree.value, x))
  {
  }

  lemma {:induction false} LeafInScopes(t: Tree, ls: Masks, e: EbNode)
    requires e in LeafSet(t)
    ensures Get(ls, e) <= ScopesOf(ls, t)
  {
    if t.Node? {
      if e in LeafSet(t.l) { LeafInScopes(t.l, ls, e); } else { LeafInScopes(t.r, ls, e); }
    }
  }

  lemma SevenTree(e: seq<EbNode>)
    requires |e| == 7 && Equals(e)
    ensures Grown(e) == Seven(e)
  {
    InsertFour(e);
    InsertSeven(e);
    GrownOn(e, 1);
    GrownOn(e, 2);
    GrownOn(e, 3);
    GrownOn(e, 4);
    GrownOn(e, 5);
    GrownOn(e, 6);
    assert e[..7] == e;
  }

  /** What the run up to the seventh leaves. */
  lemma SevenState(e: seq<EbNode>)
    requires |e| == 8 && Equals(e)
    ensures var s := ScopedRun(InsertAll(e[..7]));
      && s.tree == Some(Seven(e[..7])) && WellCovered(s) && LeafSet(s.tree.value) <= s.ns.Keys
        && e[7] !in LeafSet(s.tree.value)
      && Get(s.ns, e[6]) == {0} && Get(s.ns, e[2]) <= {0}
  {
    var s := ScopedRun(InsertAll(e[..7]));
    InsertAllRuns(e[..7]);
    InsertAllTree(e[..7]);
    SevenTree(e[..7]);
    var t := s.tree.value;
    assert Covers(s.ns, s.ls, t.r) && Get(s.ls, e[6]) == {0};
    assert e[6] in NodeSet(t) && t.l.n == e[2] && e[2] in NodeSet(t);
    LeafInScopes(t.r, s.ls, e[6]);
  }

  /** "The masks include the scopes of all leaves" is false: seven equal keys with the scope {0}, then an
      eighth with the scope {0, 1}. The node under which it is put already has 0, so 1 is not added. */
  lemma MaskTooNarrow(e: seq<EbNode>)
    requires |e| == 8 && Equals(e)
    ensures var s := ScopedRun(InsertAll(e[..7]));
      && WellCovered(s)
      && !WellCovered(ScopedStep(s, Ins(e[7], {0, 1})))
  {
    var s := ScopedRun(InsertAll(e[..7]));
    SevenState(e);
    var t := s.tree.value;
    assert 0 in Get(s.ns, e[6]) * {0, 1} && 1 !in Get(s.ns, e[6]);
    assert 1 in {0, 1};
    assert !Fits(Get(s.ns, t.r.n), {0, 1});
    assert Bottom(t) == -2;
    StepKeepsCover(s, Ins(e[7], {0, 1}));
  }

  lemma EighthMasks(e: seq<EbNode>)
    requires |e| == 8 && Equals(e)
    ensures var s := ScopedStep(ScopedRun(InsertAll(e[..7])), Ins(e[7], {0, 1}));
      && s.tree == Some(Append(Seven(e[..7]), e[7]))
      && Get(s.ns, e[6]) == {0} && Get(s.ns, e[2]) <= {0} && Get(s.ls, e[7]) == {0, 1}
  {
    var s := ScopedRun(InsertAll(e[..7]));
    SevenState(e);
    var t, x, scope := s.tree.value, e[7], {0, 1};
    InsertMasksMark(t, x, s.ns, s.ls[x := scope], scope);
    assert StopAt(t, x.bits) == t && Spine(t) == {e[6]} && Visited(t, x.bits) == {e[4]};
    assert e[6] in NodeSet(t) && e[2] in NodeSet(t);
    assert 0 in Get(s.ns, e[6]) * scope;
    assert Bottom(t) == -2;
  }

  /** The walk for {1} then misses the eighth entry. */
  lemma WalkMisses(e: seq<EbNode>)
    requires |e| == 8 && Equals(e)
    ensures var s := ScopedStep(ScopedRun(InsertAll(e[..7])), Ins(e[7], {0, 1}));
      && s.tree.Some? && e[7] in Leaves(s.tree.value) && Get(s.ls, e[7]) * {1} != {}
      && Pruned(s.tree.value, s.ns, s.ls, {1}) == []
  {
    EighthMasks(e);
    var s := ScopedStep(ScopedRun(InsertAll(e[..7])), Ins(e[7], {0, 1}));
    var t, t' := Seven(e[..7]), s.tree.value;
    assert t'.r == Append(t.r, e[7]);
    assert Pruned(t'.l, s.ns, s.ls, {1}) == [] && Pruned(t'.r, s.ns, s.ls, {1}) == [];
    AppendSets(t, e[7]);
    LeafSetIsLeaves(t');
    assert 1 in Get(s.ls, e[7]) * {1};
  }
}
