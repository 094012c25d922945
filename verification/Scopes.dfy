/**
  Masks of visibility: what a node's mask has to include, and how insertion and deletion treat it.
 */
module Scopes {
  import opened BitStrings
  import opened EbNodes
  import opened EbShapes
  import opened EbRadix
  import opened EbDeletion

  type Masks = map<EbNode, Scope>

  ghost function Get(m: Masks, n: EbNode): Scope
  {
    if n in m then m[n] else {}
  }

  /** The scopes of all leaves of a tree. */
  ghost function ScopesOf(ls: Masks, t: Tree): Scope
  {
    match t
    case Leaf(n) => Get(ls, n)
    case Node(_, _, l, r) => ScopesOf(ls, l) + ScopesOf(ls, r)
  }

  /** Every node's mask includes the scopes of all leaves below it. */
  ghost predicate Covers(ns: Masks, ls: Masks, t: Tree)
  {
    match t
    case Leaf(_) => true
    case Node(n, _, l, r) => ScopesOf(ls, t) <= Get(ns, n) && Covers(ns, ls, l) && Covers(ns, ls, r)
  }

  /** The mask seen through a branch: of the leaf or of the node there. */
  ghost function BranchMask(ns: Masks, ls: Masks, t: Tree): Scope
  {
    if t.Leaf? then Get(ls, t.n) else Get(ns, t.n)
  }

  lemma MaskCovers(ns: Masks, ls: Masks, t: Tree)
    requires Covers(ns, ls, t)
    ensures ScopesOf(ls, t) <= BranchMask(ns, ls, t)
  {
  }

  /** Widening masks and keeping the leaves' scopes does no harm. */
  lemma {:induction false} CoversFrame(ns: Masks, ls: Masks, ns': Masks, ls': Masks, t: Tree)
    requires forall n :: n in LeafSet(t) ==> Get(ls', n) == Get(ls, n)
    ensures ScopesOf(ls', t) == ScopesOf(ls, t)
    ensures Covers(ns, ls, t) && (forall n :: n in NodeSet(t) ==> Get(ns, n) <= Get(ns', n)) ==> Covers(ns', ls', t)
  {
    match t
    case Leaf(_) =>
    case Node(_, _, l, r) => CoversFrame(ns, ls, ns', ls', l); CoversFrame(ns, ls, ns', ls', r);
  }

  // ---- Insertion ----

  /** The marking in a tree of duplicates, which leaves a mask alone that has any of the scope. */
  ghost function Loosely(mask: Scope, scope: Scope): Scope
  {
    if mask * scope == {} then mask + scope else mask
  }

  /** The masks on which this marking has the effect of including the scope. */
  ghost predicate Fits(mask: Scope, scope: Scope)
  {
    mask * scope == {} || scope <= mask
  }

  /** The nodes on the right-hand walk down from t, without t's own. */
  ghost function Spine(t: Tree): set<EbNode>
  {
    if t.Node? && t.r.Node? then {t.r.n} + Spine(t.r) else {}
  }

  /** The nodes a descent for w passes or stops at. */
  ghost function Visited(t: Tree, w: Bits): set<EbNode>
  {
    if t.Leaf? then {}
    else {t.n} + if Stops(t, w) then {} else Visited(if GoesRight(t.k, w) then t.r else t.l, w)
  }

  /** Of the masks on the walk, those below the top and above the place of the new duplicate fit. */
  ghost predicate AppendFits(t: Tree, ns: Masks, scope: Scope)
    requires t.Node?
  {
    t.r.Node? ==> Fits(Get(ns, t.r.n), scope) && AppendFits(t.r, ns, scope)
  }

  ghost predicate WrapFits(t: Tree, ns: Masks, scope: Scope)
    requires t.Node?
  {
    HoleBelow(t) && HoleBelow(t.r) ==> Fits(Get(ns, t.r.n), scope) && WrapFits(t.r, ns, scope)
  }

  /** The descent ends at s, and an entry with the scope can go there without a mask too narrow. */
  ghost predicate InsertFits(s: Tree, w: Bits, ns: Masks, scope: Scope)
  {
    s.Node? && s.n.bits == w ==> if Bottom(s) < -1 then AppendFits(s, ns, scope) else WrapFits(s, ns, scope)
  }

  /** The marks in the tree of duplicates s, whose own top has the scope already. */
  ghost predicate SpineMarked(s: Tree, ns: Masks, ns': Masks, scope: Scope)
  {
    forall n :: n in Spine(s) ==> Get(ns', n) == Loosely(Get(ns, n), scope)
  }

  ghost predicate Same(s: set<EbNode>, m: Masks, m': Masks)
  {
    forall n :: n in s ==> Get(m', n) == Get(m, n)
  }

  lemma {:induction false} SpineInside(t: Tree)
    ensures Spine(t) <= NodeSet(t) && (t.Node? ==> Spine(t) <= NodeSet(t.r))
  {
    if t.Node? && t.r.Node? { SpineInside(t.r); }
  }

  lemma FitsIs(mask: Scope, scope: Scope)
    ensures Fits(mask, scope) <==> scope <= Loosely(mask, scope)
    ensures mask <= Loosely(mask, scope) <= mask + scope
  {
  }

  /** A node with its right branch replaced by one that holds one more leaf, of the scope. */
  lemma RightCovers(t: Tree, r': Tree, ns: Masks, ls: Masks, ns': Masks, ls': Masks, scope: Scope)
    requires t.Node? && Covers(ns, ls, t) && Get(ns, t.n) <= Get(ns', t.n)
    requires Same(LeafSet(t.l), ls, ls') && Same(NodeSet(t.l), ns, ns')
      && ScopesOf(ls', r') == ScopesOf(ls, t.r) + scope
    ensures Covers(ns', ls', t.(r := r')) <==> scope <= Get(ns', t.n) && Covers(ns', ls', r')
    ensures ScopesOf(ls', t.(r := r')) == ScopesOf(ls, t) + scope
  {
    CoversFrame(ns, ls, ns', ls', t.l);
  }

  lemma {:induction false} AppendCovers(t: Tree, x: EbNode, ns: Masks, ls: Masks, ns': Masks, ls': Masks, scope: Scope)
    requires t.Node? && Elastic(t) && x !in LeafSet(t) && x !in NodeSet(t) && Covers(ns, ls, t)
    requires SpineMarked(t, ns, ns', scope) && Same(NodeSet(t) - Spine(t) - {t.n}, ns, ns')
    requires Same(LeafSet(t), ls, ls') && Get(ls', x) == scope
    requires Get(ns', x) == Get(ls, Last(t)) + scope && Get(ns, t.n) <= Get(ns', t.n)
    ensures Covers(ns', ls', Append(t, x)) <==> scope <= Get(ns', t.n) && AppendFits(t, ns, scope)
    ensures ScopesOf(ls', Append(t, x)) == ScopesOf(ls, t) + scope
  {
    SpineInside(t);
    if t.r.Node? {
      FitsIs(Get(ns, t.r.n), scope);
      SpineInside(t.r);
      AppendCovers(t.r, x, ns, ls, ns', ls', scope);
      RightCovers(t, Append(t.r, x), ns, ls, ns', ls', scope);
    } else {
      PairCovers(ns', ls', t.r, x, Dup(-1));
      RightCovers(t, Node(x, Dup(-1), t.r, Leaf(x)), ns, ls, ns', ls', scope);
    }
  }

  lemma PairCovers(ns: Masks, ls: Masks, t: Tree, x: EbNode, k: Kind)
    ensures ScopesOf(ls, Node(x, k, t, Leaf(x))) == ScopesOf(ls, Node(x, k, Leaf(x), t)) == ScopesOf(ls, t) + Get(ls, x)
    ensures Covers(ns, ls, Node(x, k, t, Leaf(x))) <==> ScopesOf(ls, t) + Get(ls, x) <= Get(ns, x) && Covers(ns, ls, t)
    ensures Covers(ns, ls, Node(x, k, Leaf(x), t)) <==> ScopesOf(ls, t) + Get(ls, x) <= Get(ns, x) && Covers(ns, ls, t)
  {
    assert Covers(ns, ls, Leaf(x)) && ScopesOf(ls, Leaf(x)) == Get(ls, x);
  }

  /** The tree above which Wrap puts a new duplicate. */
  ghost function WrapPoint(t: Tree): Tree
    requires t.Node?
  {
    if HoleBelow(t) then WrapPoint(t.r) else t
  }

  lemma {:induction false} WrapCovers(t: Tree, x: EbNode, ns: Masks, ls: Masks, ns': Masks, ls': Masks, scope: Scope)
    requires t.Node? && Elastic(t) && x !in LeafSet(t) && x !in NodeSet(t) && Covers(ns, ls, t)
    requires SpineMarked(t, ns, ns', scope) && Same(NodeSet(t) - Spine(t) - {t.n}, ns, ns')
    requires Same(LeafSet(t), ls, ls') && Get(ls', x) == scope
    requires Get(ns', x) == Get(ns', WrapPoint(t).n) + scope && Get(ns, t.n) <= Get(ns', t.n)
    ensures Covers(ns', ls', Wrap(t, x)) <==> (HoleBelow(t) ==> scope <= Get(ns', t.n)) && WrapFits(t, ns, scope)
    ensures ScopesOf(ls', Wrap(t, x)) == ScopesOf(ls, t) + scope
  {
    SpineInside(t);
    if HoleBelow(t) {
      FitsIs(Get(ns, t.r.n), scope);
      SpineInside(t.r);
      WrapCovers(t.r, x, ns, ls, ns', ls', scope);
      RightCovers(t, Wrap(t.r, x), ns, ls, ns', ls', scope);
    } else {
      forall n | n in NodeSet(t) ensures Get(ns, n) <= Get(ns', n) { FitsIs(Get(ns, n), scope); }
      CoversFrame(ns, ls, ns', ls', t);
      MaskCovers(ns', ls', t);
      PairCovers(ns', ls', t, x, Dup(Level(t) - 1));
    }
  }

  /** The mask of the new entry's node, over what it is put above. */
  ghost function NewMask(s: Tree, w: Bits, ns': Masks, ls: Masks, scope: Scope): Scope
  {
    scope + if s.Node? && s.n.bits == w then
      if Bottom(s) < -1 then Get(ls, Last(s)) else Get(ns', WrapPoint(s).n)
    else BranchMask(ns', ls, s)
  }

  /** All the masks after an insertion with the scope whose descent ends at s. */
  ghost function Marked(mask: Scope, n: EbNode, t: Tree, w: Bits, scope: Scope): Scope
  {
    var s := StopAt(t, w);
    if n in Visited(t, w) then mask + scope
    else if s.Node? && s.n.bits == w && n in Spine(s) then Loosely(mask, scope)
    else mask
  }

  lemma {:induction false} VisitedInside(t: Tree, w: Bits)
    ensures Visited(t, w) <= NodeSet(t) && NodeSet(StopAt(t, w)) <= NodeSet(t) && LeafSet(StopAt(t, w)) <= LeafSet(t)
  {
    if !Stops(t, w) { VisitedInside(if GoesRight(t.k, w) then t.r else t.l, w); }
  }

  lemma JoinDupCovers(t: Tree, x: EbNode, ns: Masks, ls: Masks, ns': Masks, ls': Masks, scope: Scope)
    requires t.Node? && t.n.bits == x.bits && Elastic(t) && x !in LeafSet(t) && x !in NodeSet(t) && Covers(ns, ls, t)
    requires SpineMarked(t, ns, ns', scope) && Same(NodeSet(t) - Spine(t) - {t.n}, ns, ns')
      && Get(ns', t.n) == Get(ns, t.n) + scope
    requires Same(LeafSet(t), ls, ls') && Get(ls', x) == scope && Get(ns', x) == NewMask(t, x.bits, ns', ls, scope)
    ensures Covers(ns', ls', Join(t, x)) <==> InsertFits(t, x.bits, ns, scope)
    ensures ScopesOf(ls', Join(t, x)) == ScopesOf(ls, t) + scope
  {
    if Bottom(t) < -1 {
      AppendCovers(t, x, ns, ls, ns', ls', scope);
    } else {
      WrapCovers(t, x, ns, ls, ns', ls', scope);
    }
  }

  lemma JoinAboveCovers(t: Tree, x: EbNode, ns: Masks, ls: Masks, ns': Masks, ls': Masks, scope: Scope)
    requires t.Leaf? || t.n.bits != x.bits
    requires Covers(ns, ls, t) && forall n :: n in NodeSet(t) ==> Get(ns, n) <= Get(ns', n)
    requires Same(LeafSet(t), ls, ls') && Get(ls', x) == scope && Get(ns', x) == scope + BranchMask(ns', ls, t)
    ensures Covers(ns', ls', Join(t, x))
    ensures ScopesOf(ls', Join(t, x)) == ScopesOf(ls, t) + scope
  {
    CoversFrame(ns, ls, ns', ls', t);
    MaskCovers(ns', ls', t);
    var k := Join(t, x).k;
    PairCovers(ns', ls', t, x, k);
    assert Join(t, x) == Node(x, k, t, Leaf(x)) || Join(t, x) == Node(x, k, Leaf(x), t);
  }

  lemma JoinCovers(t: Tree, x: EbNode, ns: Masks, ls: Masks, ns': Masks, ls': Masks, scope: Scope)
    requires Radix(t) && Elastic(t) && Stops(t, x.bits) && x !in LeafSet(t) && x !in NodeSet(t) && Covers(ns, ls, t)
    requires forall n :: n in NodeSet(t) ==> Get(ns', n) == Marked(Get(ns, n), n, t, x.bits, scope)
    requires Same(LeafSet(t), ls, ls') && Get(ls', x) == scope && Get(ns', x) == NewMask(t, x.bits, ns', ls, scope)
    ensures Covers(ns', ls', Join(t, x)) <==> InsertFits(t, x.bits, ns, scope)
    ensures ScopesOf(ls', Join(t, x)) == ScopesOf(ls, t) + scope
  {
    if t.Node? && t.n.bits == x.bits {
      SpineInside(t);
      JoinDupCovers(t, x, ns, ls, ns', ls', scope);
    } else {
      JoinAboveCovers(t, x, ns, ls, ns', ls', scope);
    }
  }

  lemma BranchCovers(t: Tree, right: bool, u': Tree, ns: Masks, ls: Masks, ns': Masks, ls': Masks, scope: Scope)
    requires t.Node? && Covers(ns, ls, t) && Get(ns', t.n) == Get(ns, t.n) + scope
    requires var o := if right then t.l else t.r; Same(LeafSet(o), ls, ls') && Same(NodeSet(o), ns, ns')
    requires ScopesOf(ls', u') == ScopesOf(ls, if right then t.r else t.l) + scope
    ensures var t' := if right then t.(r := u') else t.(l := u');
      (Covers(ns', ls', t') <==> Covers(ns', ls', u')) && ScopesOf(ls', t') == ScopesOf(ls, t) + scope
  {
    CoversFrame(ns, ls, ns', ls', if right then t.l else t.r);
  }

  /** The marks on the two sides of a node that a descent passes. */
  lemma SideMarks(t: Tree, w: Bits, right: bool, ns: Masks, ns': Masks, scope: Scope)
    requires Elastic(t) && !Stops(t, w) && right == GoesRight(t.k, w)
    requires forall n :: n in NodeSet(t) ==> Get(ns', n) == Marked(Get(ns, n), n, t, w, scope)
    ensures var u := if right then t.r else t.l;
      forall n :: n in NodeSet(u) ==> Get(ns', n) == Marked(Get(ns, n), n, u, w, scope)
    ensures Same(NodeSet(if right then t.l else t.r), ns, ns') && Get(ns', t.n) == Get(ns, t.n) + scope
  {
    var u := if right then t.r else t.l;
    VisitedInside(u, w);
    SpineInside(StopAt(u, w));
    assert Visited(t, w) == {t.n} + Visited(u, w) && StopAt(t, w) == StopAt(u, w);
  }

  /** An insertion keeps every mask wide enough if and only if the masks in the tree of duplicates it
      meets fit its scope. */
  lemma {:induction false} InsertCovers(t: Tree, x: EbNode, ns: Masks, ls: Masks, ns': Masks, ls': Masks, scope: Scope)
    requires Radix(t) && Elastic(t) && x !in LeafSet(t) && x !in NodeSet(t) && Covers(ns, ls, t)
    requires forall n :: n in NodeSet(t) ==> Get(ns', n) == Marked(Get(ns, n), n, t, x.bits, scope)
    requires Same(LeafSet(t), ls, ls') && Get(ls', x) == scope
      && Get(ns', x) == NewMask(StopAt(t, x.bits), x.bits, ns', ls, scope)
    ensures Covers(ns', ls', Insert(t, x)) <==> InsertFits(StopAt(t, x.bits), x.bits, ns, scope)
    ensures ScopesOf(ls', Insert(t, x)) == ScopesOf(ls, t) + scope
  {
    if Stops(t, x.bits) {
      JoinCovers(t, x, ns, ls, ns', ls', scope);
    } else {
      var right := GoesRight(t.k, x.bits);
      var u := if right then t.r else t.l;
      SideMarks(t, x.bits, right, ns, ns', scope);
      InsertCovers(u, x, ns, ls, ns', ls', scope);
      BranchCovers(t, right, Insert(u, x), ns, ls, ns', ls', scope);
    }
  }

  /** Scopes of one element always fit. */
  lemma {:induction false} SingleFits(s: Tree, w: Bits, ns: Masks, b: nat)
    ensures InsertFits(s, w, ns, {b})
  {
    if s.Node? { SingleWalks(s, ns, b); }
  }

  lemma {:induction false} SingleWalks(s: Tree, ns: Masks, b: nat)
    requires s.Node?
    ensures AppendFits(s, ns, {b}) && WrapFits(s, ns, {b})
  {
    if s.r.Node? { SingleWalks(s.r, ns, b); }
  }

  // ---- Deletion ----

  lemma {:induction false} CutCovers(t: Tree, d: EbNode, ns: Masks, ls: Masks)
    requires t.Node? && d in LeafSet(t) && Covers(ns, ls, t)
    ensures Covers(ns, ls, Cut(t, d)) && ScopesOf(ls, Cut(t, d)) <= ScopesOf(ls, t)
  {
    assert t.r.Leaf? ==> LeafSet(t.r) == {t.r.n};
    if t.l != Leaf(d) && t.r != Leaf(d) {
      if d in LeafSet(t.l) { CutCovers(t.l, d, ns, ls); } else { CutCovers(t.r, d, ns, ls); }
    }
  }

  /** A tree replaced by one with the same leaves. */
  lemma {:induction false} CoversPlug(c: Ctx, t: Tree, t': Tree, ns: Masks, ls: Masks)
    requires Covers(ns, ls, Plug(c, t))
    ensures Covers(ns, ls, t)
    ensures Covers(ns, ls, t') && ScopesOf(ls, t') == ScopesOf(ls, t) ==> Covers(ns, ls, Plug(c, t'))
    decreases c
  {
    match c
    case Top =>
    case InLeft(n, k, up, r) => CoversPlug(up, Node(n, k, t, r), Node(n, k, t', r), ns, ls);
    case InRight(n, k, l, up) => CoversPlug(up, Node(n, k, l, t), Node(n, k, l, t'), ns, ls);
  }

  /** A node that takes the place of another one, with the masks of the two branches for its own. */
  lemma TakeOverCovers(c: Ctx, u: Tree, p: EbNode, ns: Masks, ls: Masks, ns': Masks)
    requires u.Node? && Covers(ns, ls, Plug(c, u))
    requires p !in CtxNodes(c) && p !in NodeSet(u.l) && p !in NodeSet(u.r)
    requires Get(ns', p) == BranchMask(ns, ls, u.l) + BranchMask(ns, ls, u.r)
    requires Same(CtxNodes(c) + NodeSet(u.l) + NodeSet(u.r), ns, ns')
    ensures Covers(ns', ls, Plug(c, u.(n := p)))
  {
    CoversPlug(c, u, u, ns, ls);
    MaskCovers(ns, ls, u.l);
    MaskCovers(ns, ls, u.r);
    CoversFrame(ns, ls, ns', ls, u.l);
    CoversFrame(ns, ls, ns', ls, u.r);
    CoversSwap(c, u, u.(n := p), ns, ns', ls);
  }

  lemma {:induction false} CoversSwap(c: Ctx, t: Tree, t': Tree, ns: Masks, ns': Masks, ls: Masks)
    requires Covers(ns, ls, Plug(c, t)) && Covers(ns', ls, t') && ScopesOf(ls, t') == ScopesOf(ls, t)
    requires forall n :: n in CtxNodes(c) ==> Get(ns', n) == Get(ns, n)
    ensures Covers(ns', ls, Plug(c, t'))
    decreases c
  {
    match c
    case Top =>
    case InLeft(n, k, up, r) =>
      CoversPlug(up, Node(n, k, t, r), t, ns, ls);
      CoversFrame(ns, ls, ns', ls, r);
      CoversSwap(up, Node(n, k, t, r), Node(n, k, t', r), ns, ns', ls);
    case InRight(n, k, l, up) =>
      CoversPlug(up, Node(n, k, l, t), t, ns, ls);
      CoversFrame(ns, ls, ns', ls, l);
      CoversSwap(up, Node(n, k, l, t), Node(n, k, l, t'), ns, ns', ls);
  }
}
