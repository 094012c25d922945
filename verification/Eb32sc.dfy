/**
  Scoped trees of integers: insertion marks the way to the new entry with its scope, deletion gives
  a node that takes another one's place the masks of its branches.
 */
module Eb32sc {
  import opened Basics
  import opened BitStrings
  import opened Integers
  import opened EbNodes
  import opened EbShapes
  import opened EbRadix
  import opened EbMemory
  import opened EbLinks
  import opened EbRemoval
  import opened EbRoots
  import opened Eb32
  import opened Eb32scWalk
  import opened Scopes

  /** Only the masks of the entries in V have changed since m, by the loose marking. */
  ghost predicate LooselyMarked(S: set<EbNode>, m: Masks, V: set<EbNode>, scope: Scope)
    reads S
  {
    m.Keys == S && forall n :: n in S ==> n.node_s == if n in V then Loosely(m[n], scope) else m[n]
  }

  method MarkLoosely(n: EbNode, scope: Scope, ghost S: set<EbNode>, ghost m: Masks, ghost V: set<EbNode>)
    requires n in S && LooselyMarked(S, m, V, scope) && n in V
    modifies n`node_s
    ensures Snap(S) == old(Snap(S))
    ensures LooselyMarked(S, m, V, scope)
  {
    if n.node_s * scope == {} {
      n.node_s := n.node_s + scope;
    }
  }

  // ---- The right-hand walk down a tree of duplicates ----

  /** b is on the right-hand walk down from a. */
  ghost predicate OnSpine(a: Tree, b: Tree)
  {
    a == b || (a.Node? && a.r.Node? && OnSpine(a.r, b))
  }

  /** The nodes from a to b on that walk, without b. */
  ghost function Passed(a: Tree, b: Tree): set<EbNode>
    requires OnSpine(a, b)
  {
    if a == b then {} else {a.n} + Passed(a.r, b)
  }

  /** The sub-tree below the deepest hole from a to b, or s. */
  ghost function Deepest(a: Tree, b: Tree, s: Tree): Tree
    requires OnSpine(a, b)
  {
    if a == b then s else Deepest(a.r, b, if Level(a.r) > Level(a) + 1 then a.r else s)
  }

  ghost function SpineCtx(c: Ctx, a: Tree, b: Tree): Ctx
    requires OnSpine(a, b)
    decreases a
  {
    if a == b then c else SpineCtx(InRight(a.n, a.k, a.l, c), a.r, b)
  }

  lemma {:induction false} SpineIn(a: Tree, b: Tree)
    requires OnSpine(a, b) && a.Node? && Elastic(a)
    ensures b.Node? && b.n in NodeSet(a) && Elastic(b) && (a.n == b.n <==> a == b)
  {
    if a != b { SpineIn(a.r, b); }
  }

  lemma {:induction false} SpineOn(a: Tree, b: Tree, s: Tree)
    requires OnSpine(a, b) && a.Node? && Elastic(a) && b.Node? && b.r.Node?
    ensures OnSpine(a, b.r) && a != b.r && Passed(a, b.r) == Passed(a, b) + {b.n}
    ensures Deepest(a, b.r, s) == if Level(b.r) > Level(b) + 1 then b.r else Deepest(a, b, s)
  {
    if a != b { SpineOn(a.r, b, if Level(a.r) > Level(a) + 1 then a.r else s); }
    SpineIn(a.r, b.r);
  }

  /** The deepest hole is on the walk. */
  lemma {:induction false} DeepestOn(a: Tree, b: Tree, s: Tree)
    requires OnSpine(a, b) && a.Node? && Elastic(a)
    ensures var d := Deepest(a, b, s);
      d == s || (OnSpine(d, b) && OnSpine(a, d) && d.Node? && Elastic(d) && Passed(d, b) <= Passed(a, b))
  {
    if a != b { DeepestOn(a.r, b, if Level(a.r) > Level(a) + 1 then a.r else s); }
  }

  /** What the walk has found when it is at its end. */
  lemma {:induction false} SpineEnd(c: Ctx, a: Tree, b: Tree, s: Tree, x: EbNode)
    requires OnSpine(a, b) && a.Node? && b.Node? && b.r.Leaf?
    ensures Plug(SpineCtx(c, a, b), b) == Plug(c, a) && Plug(SpineCtx(c, a, b), Append(b, x)) == Plug(c, Append(a, x))
    ensures Last(a) == b.r.n && Bottom(a) == Level(b) && Passed(a, b) + {b.n} == Spine(a) + {a.n}
    ensures Deepest(a, b, s) == if HoleBelow(a) then WrapPoint(a) else s
    decreases a
  {
    if a != b { SpineEnd(InRight(a.n, a.k, a.l, c), a.r, b, if Level(a.r) > Level(a) + 1 then a.r else s, x); }
  }

  /** The inner loop: sub goes on to head, over nodes that the outer loop has marked before. */
  method MarkBetween(sub0: EbNode, head: EbNode, scope: Scope, ghost M: Mem, ghost y: Layer, ghost up: Troot,
                     ghost t: Tree, ghost h: Tree, ghost S: set<EbNode>, ghost m: Masks, ghost V: set<EbNode>)
    returns (sub: EbNode)
    requires M == Snap(S) && t.Node? && t.n == sub0 && h.Node? && h.n == head && OnSpine(t, h) && t != h && Elastic(t)
    requires Rep(M, y, t, up)
    requires LooselyMarked(S, m, V, scope) && Passed(t, h) <= V
    modifies S`node_s
    ensures sub == head && LooselyMarked(S, m, V, scope) && Snap(S) == M
  {
    ghost var t', up' := t, up;
    sub := sub0;
    SpineIn(t, h);
    while sub != head
      invariant Snap(S) == M && t'.Node? && t'.n == sub && OnSpine(t', h) && Elastic(t') && (sub == head <==> t' == h)
      invariant Rep(M, y, t', up')
      invariant LooselyMarked(S, m, V, scope) && Passed(t', h) <= V
      decreases t'
    {
      assert M[sub] == CellOf(sub);
      MarkLoosely(sub, scope, S, m, V);
      up' := Troot(sub, EB_RGHT);
      sub, t' := sub.right.to, t'.r;
      SpineIn(t', h);
    }
  }

  /** One round of the outer loop: from the node that ht tops to the one on its right. */
  method MarkRound(last: EbNode, sub0: EbNode, scope: Scope, ghost M: Mem, ghost y: Layer, ghost up: Troot,
      ghost sup: Troot, ghost ht: Tree, ghost st: Tree, ghost S: set<EbNode>, ghost m: Masks, ghost V: set<EbNode>)
    returns (head: EbNode, sub: EbNode)
    requires last in S && Snap(S) == M && M[last] == CellOf(last)
    requires ht.Node? && ht.n == last && ht.r.Node? && ht.k.Dup? && ht.r.k.Dup?
    requires st.Node? && st.n == sub0 && Elastic(st) && OnSpine(st, ht.r) && st != ht.r
    requires Rep(M, y, ht, up) && Rep(M, y, st, sup)
    requires LooselyMarked(S, m, V, scope) && Passed(st, ht.r) <= V
    modifies S`node_s
    ensures head == ht.r.n && head in S && Snap(S) == M && M[head] == CellOf(head)
    ensures LooselyMarked(S, m, V + {head}, scope)
    ensures sub == if Level(ht.r) > Level(ht) + 1 then head else sub0
  {
    sub := sub0;
    head := last.right.to;
    assert M[head] == CellOf(head);
    if head.bit > last.bit + 1 {
      // a level is missing above head
      sub := MarkBetween(sub, head, scope, M, y, sup, st, ht.r, S, m, V);
    }
    MarkHead(head, scope, S, m, V);
  }

  lemma {:induction false} SpineDups(a: Tree, b: Tree, l: int, w: Bits)
    requires OnSpine(a, b) && DupTree(a, l, w) && b.Node? && b.r.Node?
    ensures b.k.Dup? && b.r.k.Dup?
  {
    if a == b { assert DupTree(b.r, b.k.d, w); } else { SpineDups(a.r, b, a.k.d, w); }
  }

  lemma RoundReady(d: Tree, h: Tree)
    requires OnSpine(d, h) && d.Node? && d.k.Dup? && DupTree(d, d.k.d - 1, d.n.bits) && Elastic(d) && h.Node?
      && h.r.Node?
    ensures h.k.Dup? && h.r.k.Dup?
    ensures OnSpine(d, h.r) && Passed(d, h.r) == Passed(d, h) + {h.n}
    ensures Deepest(d, h.r, d) == if Level(h.r) > Level(h) + 1 then h.r else Deepest(d, h, d)
    ensures var st := Deepest(d, h, d);
      && st.Node? && Elastic(st) && OnSpine(st, h.r) && st != h.r
      && Passed(st, h.r) <= Passed(d, h) + {h.n}
  {
    SpineDups(d, h, d.k.d - 1, d.n.bits);
    SpineOn(d, h, d);
    DeepestOn(d, h, d);
    SpineOn(Deepest(d, h, d), h, d);
  }

  /** The walk of eb32sc_insert_dup down the right branch, marking on its way. */
  method MarkToHole(top: EbNode, scope: Scope, ghost M: Mem, ghost y: Layer, ghost up: Troot, ghost d: Tree,
                    ghost S: set<EbNode>, ghost m: Masks)
    returns (head: EbNode, sub: EbNode, ghost ht: Tree)
    requires d.Node? && d.n == top && d.k.Dup? && DupTree(d, d.k.d - 1, d.n.bits) && Elastic(d)
    requires M == Snap(S) && Rep(M, y, d, up) && LooselyMarked(S, m, {top}, scope)
    modifies S`node_s
    ensures OnSpine(d, ht) && ht.Node? && ht.r.Leaf? && ht.n == head && sub == Deepest(d, ht, d).n
    ensures Snap(S) == M && LooselyMarked(S, m, Passed(d, ht) + {head}, scope)
  {
    head, sub, ht := top, top, d;
    ghost var hup := up;
    ghost var st, sup := d, up;
    assert M[head] == CellOf(head);
    while head.right.tag != EB_LEAF
      invariant head in S && Snap(S) == M && M[head] == CellOf(head)
      invariant ht.Node? && ht.k.Dup? && ht.n == head && OnSpine(d, ht) && Rep(M, y, ht, hup)
      invariant st == Deepest(d, ht, d) && st.Node? && st.n == sub && Rep(M, y, st, sup)
      invariant LooselyMarked(S, m, Passed(d, ht) + {head}, scope)
      decreases ht
    {
      RoundReady(d, ht);
      head, sub := MarkRound(head, sub, scope, M, y, hup, sup, ht, st, S, m, Passed(d, ht) + {head});
      ghost var hole := Level(ht.r) > Level(ht) + 1;
      hup, ht := Troot(ht.n, EB_RGHT), ht.r;
      if hole { st, sup := ht, hup; }
    }
  }

  method MarkHead(n: EbNode, scope: Scope, ghost S: set<EbNode>, ghost m: Masks, ghost V: set<EbNode>)
    requires n in S && LooselyMarked(S, m, V, scope)
    modifies n`node_s
    ensures Snap(S) == old(Snap(S))
    ensures LooselyMarked(S, m, V + {n}, scope)
  {
    if n.node_s * scope == {} {
      n.node_s := n.node_s + scope;
    }
  }

  lemma WalkDone(c: Ctx, d: Tree, h: Tree, x: EbNode)
    requires OnSpine(d, h) && d.Node? && d.k.Dup? && DupTree(d, d.k.d - 1, x.bits) && Elastic(d) && h.Node? && h.r.Leaf?
    ensures var hc, st := SpineCtx(c, d, h), Deepest(d, h, d);
      && h.k.Dup? && Plug(hc, h) == Plug(c, d) && Last(d) == h.r.n && Passed(d, h) + {h.n} == Spine(d) + {d.n}
      && st == WrapPoint(d) && st.Node? && st.k.Dup? && OnSpine(d, st) && Plug(SpineCtx(c, d, st), st) == Plug(c, d)
      && Bottom(d) == h.k.d
      && Plug(c, InsertDup(d, x)) == if h.k.d < -1 then Plug(hc, Append(h, x))
        else Plug(SpineCtx(c, d, st), WrapTop(st, x))
  {
    SpineEnd(c, d, h, d, x);
    SpineLevels(d, h, d.k.d - 1, x.bits);
    DeepestOn(d, h, d);
    SpineLevels(d, Deepest(d, h, d), d.k.d - 1, x.bits);
    WrapAt(c, d, x);
  }

  lemma {:induction false} SpineLevels(a: Tree, b: Tree, l: int, w: Bits)
    requires OnSpine(a, b) && DupTree(a, l, w)
    ensures b.Node? ==> b.k.Dup?
  {
    if a != b { SpineLevels(a.r, b, a.k.d, w); }
  }

  lemma {:induction false} SpineShrinks(a: Tree, b: Tree)
    requires OnSpine(a, b)
    ensures Size(b) <= Size(a)
  {
    if a != b { SpineShrinks(a.r, b); }
  }

  lemma {:induction false} WrapAt(c: Ctx, a: Tree, x: EbNode)
    requires a.Node?
    ensures OnSpine(a, WrapPoint(a)) && WrapPoint(a).Node?
    ensures Plug(SpineCtx(c, a, WrapPoint(a)), WrapPoint(a)) == Plug(c, a)
    ensures Plug(SpineCtx(c, a, WrapPoint(a)), WrapTop(WrapPoint(a), x)) == Plug(c, Wrap(a, x))
    decreases a
  {
    if HoleBelow(a) {
      WrapAt(InRight(a.n, a.k, a.l, c), a.r, x);
      SpineShrinks(a.r, WrapPoint(a.r));
    }
  }

  /** The masks after a walk with the scope down the right of d. */
  ghost function WalkMasks(d: Tree, m: Masks, scope: Scope): Masks
  {
    map n | n in m :: if n in Spine(d) then Loosely(m[n], scope) else m[n]
  }

  lemma WalkMasksAre(d: Tree, S: set<EbNode>, m: Masks, scope: Scope)
    requires LooselyMarked(S, m, Spine(d) + {d.n}, scope) && d.n in m && scope <= m[d.n]
    ensures NodeMasks(S) == WalkMasks(d, m, scope)
  {
    assert Loosely(m[d.n], scope) == m[d.n] by { assert scope == m[d.n] * scope; }
  }

  /** The mask for x, from the walk. */
  lemma RoomMask(d: Tree, x: EbNode, S: set<EbNode>, m: Masks, scope: Scope)
    requires d.Node? && d.k.Dup? && DupTree(d, d.k.d - 1, x.bits) && Elastic(d) && NodeMasks(S) == m
    requires Last(d) in S && WrapPoint(d).n in S
    ensures NewMask(d, x.bits, m, LeafMasks(S), scope) == scope + if Bottom(d) < -1 then Last(d).leaf_s
      else WrapPoint(d).n.node_s
    ensures WrapPoint(d).n in LeafSet(d)
  {
    DupTreeKeys(d, d.k.d - 1, x.bits);
    WrapAt(Top, d, x);
    SpineIn(d, WrapPoint(d));
    OneSpareNode(d);
    assert LeafMasks(S)[Last(d)] == Last(d).leaf_s && m[WrapPoint(d).n] == WrapPoint(d).n.node_s;
  }

  lemma {:induction false} SpineRep(M: Mem, y: Layer, a: Tree, b: Tree, up: Troot)
    requires OnSpine(a, b) && Rep(M, y, a, up)
    ensures b.n in M && (b.Node? ==> M[b.n].bit == BitField(y, b.k) && M[b.n].right == At(b.r) && b.r.n in M)
  {
    if a != b { SpineRep(M, y, a.r, b, Troot(a.n, EB_RGHT)); }
  }

  lemma RoomFound(M: Mem, y: Layer, root: EbNode, c: Ctx, d: Tree, h: Tree, x: EbNode, S: set<EbNode>, m: Masks,
      scope: Scope)
    returns (hc: Ctx, sc: Ctx, st: Tree)
    requires d.Node? && d.k.Dup? && DupTree(d, d.k.d - 1, x.bits) && d.n.bits == x.bits && Elastic(d)
    requires OnSpine(d, h) && h.Node? && h.r.Leaf? && M == Snap(S) && Rep(M, y, d, Up(root, c))
    requires LooselyMarked(S, m, Passed(d, h) + {h.n}, scope) && d.n in m && scope <= m[d.n]
    ensures NodeMasks(S) == WalkMasks(d, m, scope) && st == Deepest(d, h, d)
    ensures h.n in S && h.k.Dup? && Plug(hc, h) == Plug(c, d)
    ensures st.Node? && st.k.Dup? && Plug(sc, st) == Plug(c, d)
    ensures Plug(c, InsertDup(d, x)) == if h.k.d < -1 then Plug(hc, Append(h, x)) else Plug(sc, WrapTop(st, x))
    ensures var last := h.n.right.to; var room := h.n.bit < -1;
      && last != null && st.n in S && last in S && st.n in LeafSet(d)
      && NewMask(d, x.bits, WalkMasks(d, m, scope), LeafMasks(S), scope) ==
        (if room then last.leaf_s else st.n.node_s) + scope
  {
    WalkDone(c, d, h, x);
    WalkMasksAre(d, S, m, scope);
    st := WrapPoint(d);
    hc, sc := SpineCtx(c, d, h), SpineCtx(c, d, st);
    SpineRep(M, y, d, h, Up(root, c));
    SpineRep(M, y, d, st, Up(root, c));
    assert M[h.n] == CellOf(h.n);
    RoomMask(d, x, S, WalkMasks(d, m, scope), scope);
  }

  /** The first half of eb32sc_insert_dup: the walk, and what it tells of the place for x. */
  method FindRoom(top: EbNode, scope: Scope, ghost x: EbNode, ghost M: Mem, ghost y: Layer, ghost root: EbNode,
      ghost c: Ctx, ghost d: Tree, ghost S: set<EbNode>, ghost m: Masks)
    returns (head: EbNode, sub: EbNode, room: bool, last: EbNode, ghost hc: Ctx, ghost ht: Tree, ghost sc: Ctx,
      ghost st: Tree)
    requires d.Node? && d.n == top && d.k.Dup? && DupTree(d, d.k.d - 1, x.bits) && d.n.bits == x.bits && Elastic(d)
    requires M == Snap(S) && Rep(M, y, d, Up(root, c)) && m == NodeMasks(S) && scope <= top.node_s
    modifies S`node_s
    ensures Snap(S) == M && NodeMasks(S) == WalkMasks(d, m, scope)
    ensures ht.Node? && ht.n == head && ht.k.Dup? && ht.r.Leaf? && Plug(hc, ht) == Plug(c, d)
    ensures st.Node? && st.n == sub && st.k.Dup? && Plug(sc, st) == Plug(c, d)
    ensures Plug(c, InsertDup(d, x)) == if ht.k.d < -1 then Plug(hc, Append(ht, x)) else Plug(sc, WrapTop(st, x))
    ensures sub in S && last in S && sub in LeafSet(d)
    ensures NewMask(d, x.bits, WalkMasks(d, m, scope), LeafMasks(S), scope) ==
      (if room then last.leaf_s else sub.node_s) + scope
  {
    assert M[top] == CellOf(top);
    head, sub, ht := MarkToHole(top, scope, M, y, Up(root, c), d, S, m);
    hc, sc, st := RoomFound(M, y, root, c, d, ht, x, S, m, scope);
    room, last := head.bit < -1, head.right.to;
  }

  /** The second half: links x in its place and gives it its mask. */
  method LinkMarked(head: EbNode, sub: EbNode, x: EbNode, mask: Scope, ghost root: EbNode, ghost y: Layer,
                    ghost hc: Ctx, ghost ht: Tree, ghost sc: Ctx, ghost st: Tree, ghost S: set<EbNode>)
    requires ht.Node? && ht.n == head && ht.k.Dup? && ht.r.Leaf? && st.Node? && st.n == sub && st.k.Dup?
    requires Plug(hc, ht) == Plug(sc, st) && Elastic(Plug(hc, ht)) && LeafSet(Plug(hc, ht)) <= S && root in S && x in S
    requires root !in LeafSet(Plug(hc, ht)) && x !in LeafSet(Plug(hc, ht)) && x != root
    requires Linked(Snap(S), y, root, Plug(hc, ht))
    modifies S`left, S`right, S`node_p, S`leaf_p, S`bit, x`node_s
    ensures Linked(Snap(S), y, root, if ht.k.d < -1 then Plug(hc, Append(ht, x)) else Plug(sc, WrapTop(st, x)))
    ensures Snap(S)[root].right == old(Snap(S))[root].right
    ensures NodeMasks(S) == old(NodeMasks(S))[x := mask] && LeafMasks(S) == old(LeafMasks(S))
  {
    LinkDuplicate(head, sub, x, root, y, hc, ht, sc, st, S);
    assert NodeMasks(S) == old(NodeMasks(S)) && LeafMasks(S) == old(LeafMasks(S));
    SetMask(x, mask, S);
  }

  /** eb32sc_insert_dup. */
  method InsertDuplicateScoped(top: EbNode, x: EbNode, scope: Scope, ghost root: EbNode, ghost y: Layer,
      ghost c: Ctx, ghost d: Tree, ghost S: set<EbNode>)
    requires d.Node? && d.n == top && d.k.Dup? && DupTree(d, d.k.d - 1, x.bits) && d.n.bits == x.bits
    requires Elastic(Plug(c, d)) && LeafSet(Plug(c, d)) <= S && root in S && x in S
    requires root !in LeafSet(Plug(c, d)) && x !in LeafSet(Plug(c, d)) && x != root
    requires Linked(Snap(S), y, root, Plug(c, d)) && scope <= top.node_s
    modifies S`left, S`right, S`node_p, S`leaf_p, S`bit, S`node_s
    ensures Linked(Snap(S), y, root, Plug(c, InsertDup(d, x)))
    ensures Snap(S)[root].right == old(Snap(S))[root].right
    ensures var m := WalkMasks(d, old(NodeMasks(S)), scope);
      NodeMasks(S) == m[x := NewMask(d, x.bits, m, LeafMasks(S), scope)]
  {
    ghost var M, m, ls := Snap(S), NodeMasks(S), LeafMasks(S);
    InTree(M, y, root, c, d);
    var head, sub, room, last;
    ghost var hc, ht, sc, st;
    head, sub, room, last, hc, ht, sc, st := FindRoom(top, scope, x, M, y, root, c, d, S, m);
    LinkMarked(head, sub, x, (if room then last.leaf_s else sub.node_s) + scope, root, y, hc, ht, sc, st, S);
  }

  method SetMask(x: EbNode, mask: Scope, ghost S: set<EbNode>)
    requires x in S
    modifies x`node_s
    ensures Snap(S) == old(Snap(S)) && NodeMasks(S) == old(NodeMasks(S))[x := mask] && LeafMasks(S) == old(LeafMasks(S))
  {
    x.node_s := mask;
  }

  // ---- Insertion ----

  ghost function VisitMasks(m: Masks, V: set<EbNode>, scope: Scope): Masks
  {
    map n | n in m :: if n in V then m[n] + scope else m[n]
  }

  method MarkVisited(n: EbNode, scope: Scope, ghost m: Masks, ghost V: set<EbNode>, ghost S: set<EbNode>)
    requires n in S && NodeMasks(S) == VisitMasks(m, V, scope)
    modifies n`node_s
    ensures Snap(S) == old(Snap(S)) && LeafMasks(S) == old(LeafMasks(S))
      && NodeMasks(S) == VisitMasks(m, V + {n}, scope)
  {
    // the new entry will be below this node
    if n.node_s + scope != n.node_s {
      n.node_s := n.node_s + scope;
    }
  }

  lemma VisitsOn(t: Tree, w: Bits, V: set<EbNode>, G: set<EbNode>)
    requires t.Node? && V + Visited(t, w) == G
    ensures Stops(t, w) ==> V + {t.n} == G
    ensures !Stops(t, w) ==> forall right :: right == GoesRight(t.k, w) ==> V + {t.n} + Visited(Below(t, right), w) == G
  {
  }

  /** One round of the descent: marks the node and tells whether it goes on, and where. */
  method VisitRound(old_: EbNode, x: EbNode, scope: Scope, ghost w: nat, ghost T: Tree, ghost unique: bool,
      ghost c: Ctx, ghost t: Tree, ghost M: Mem, ghost up: Troot, ghost S: set<EbNode>, ghost m: Masks,
      ghost V: set<EbNode>, ghost G: set<EbNode>) returns (stop: bool, side: bool, ghost V': set<EbNode>)
    requires Reached(T, unique, x.bits, c, t) && t.Node? && t.n == old_ && AllKeyed(LeafSet(T), w, false)
      && Keyed(x, w, false)
    requires M == Snap(S) && Rep(M, Scalar(w), t, up)
    requires NodeMasks(S) == VisitMasks(m, V, scope) && V + Visited(t, x.bits) == G
    modifies old_`node_s
    ensures Snap(S) == M && LeafMasks(S) == old(LeafMasks(S)) && NodeMasks(S) == VisitMasks(m, V', scope)
    ensures stop ==> Stops(t, x.bits) && V' == G
    ensures !stop ==>
      && Reached(T, unique, x.bits, Deeper(c, t, side), Below(t, side))
      && V' + Visited(Below(t, side), x.bits) == G
    ensures !stop ==> Plug(c, Insert(t, x)) == Plug(Deeper(c, t, side), Insert(Below(t, side), x))
  {
    assert M[old_] == CellOf(old_);
    IntRound(t, x, w, false);
    var old_node_bit := old_.bit;
    MarkVisited(old_, scope, m, V, S);
    V' := V + {old_};
    VisitsOn(t, x.bits, V, G);
    // the key belongs above this node
    stop := old_node_bit < 0 || Shr(Xor(x.key, old_.key), old_node_bit) >= 2;
    side := !stop && Shr(x.key, old_node_bit) % 2 == 1;
    if !stop { Descends(T, unique, x.bits, c, t); }
  }

  function BranchOf(node: EbNode, side: bool): Troot
    reads node
  {
    if side == EB_LEFT then node.left else node.right
  }

  /** The mask seen through a branch. */
  function ScopeBelow(b: Troot): Scope
    requires b.to != null
    reads b.to
  {
    if b.tag == EB_LEAF then b.to.leaf_s else b.to.node_s
  }

  lemma ScopeBelowIs(t: Tree, S: set<EbNode>)
    requires t.n in S
    ensures ScopeBelow(At(t)) == BranchMask(NodeMasks(S), LeafMasks(S), t)
  {
    assert NodeMasks(S)[t.n] == t.n.node_s && LeafMasks(S)[t.n] == t.n.leaf_s;
  }

  lemma GoesOn(y: Layer, root: EbNode, M: Mem, c: Ctx, t: Tree, side: bool, S: set<EbNode>)
    requires t.Node? && M == Snap(S) && Rep(M, y, t, Up(root, c))
    ensures Up(root, Deeper(c, t, side)) == Troot(t.n, side)
    ensures BranchOf(t.n, side) == At(Below(t, side)) && Rep(M, y, Below(t, side), Troot(t.n, side))
  {
    assert M[t.n] == CellOf(t.n);
  }

  /** The descent of eb32sc_insert, which marks each node that the new entry will be found through. */
  method DescendMarking(root: EbNode, x: EbNode, scope: Scope, ghost w: nat, ghost T: Tree, ghost unique: bool,
      ghost S: set<EbNode>)
    returns (up: Troot, troot: Troot, old_scope: Scope, ghost c: Ctx, ghost t: Tree)
    requires Sound(T, unique) && AllKeyed(LeafSet(T), w, false) && Keyed(x, w, false)
    requires root in S && root.left == At(T) && Rep(Snap(S), Scalar(w), T, Troot(root, EB_LEFT)) && LeafSet(T) <= S
    modifies S`node_s
    ensures Reached(T, unique, x.bits, c, t) && Stops(t, x.bits)
    ensures up == Up(root, c) && troot == At(t) && Insert(T, x) == Plug(c, Join(t, x))
    ensures Snap(S) == old(Snap(S)) && LeafMasks(S) == old(LeafMasks(S))
    ensures NodeMasks(S) == VisitMasks(old(NodeMasks(S)), Visited(T, x.bits), scope)
    ensures old_scope == BranchMask(NodeMasks(S), LeafMasks(S), t)
  {
    ghost var M, m, ls := Snap(S), NodeMasks(S), LeafMasks(S);
    c, t := Top, T;
    up, troot := Troot(root, EB_LEFT), root.left;
    ghost var V, G := {}, Visited(T, x.bits);
    while troot.tag != EB_LEAF
      invariant Reached(T, unique, x.bits, c, t) && Insert(T, x) == Plug(c, Insert(t, x))
      invariant up == Up(root, c) && troot == At(t) && Rep(M, Scalar(w), t, up)
      invariant Snap(S) == M && LeafMasks(S) == ls && NodeMasks(S) == VisitMasks(m, V, scope)
        && V + Visited(t, x.bits) == G
      decreases t
    {
      var stop, side;
      stop, side, V := VisitRound(troot.to, x, scope, w, T, unique, c, t, M, up, S, m, V, G);
      if stop { break; }
      GoesOn(Scalar(w), root, M, c, t, side, S);
      up, troot := Troot(troot.to, side), BranchOf(troot.to, side);
      c, t := Deeper(c, t, side), Below(t, side);
    }
    assert V == G;
    LeavesDistinct(t);
    ScopeBelowIs(t, S);
    old_scope := ScopeBelow(troot);
  }

  /** What eb32sc_insert_dup makes of the masks if the descent for x has ended at its duplicates t. */
  ghost function DupMasks(t: Tree, x: EbNode, m: Masks, ls: Masks, scope: Scope): Masks
  {
    if t.Node? && t.n.bits == x.bits then
      var m1 := WalkMasks(t, m, scope);
      m1[x := NewMask(t, x.bits, m1, ls, scope)]
    else m
  }

  /** All the masks after the insertion of x. */
  ghost function InsertMasks(T: Tree, x: EbNode, m: Masks, ls: Masks, scope: Scope): Masks
  {
    var t := StopAt(T, x.bits);
    var m1 := VisitMasks(m, Visited(T, x.bits), scope);
    DupMasks(t, x, m1[x := BranchMask(m1, ls, t) + scope], ls, scope)
  }

  lemma {:induction false} VisitedApart(t: Tree, w: Bits)
    requires Elastic(t)
    ensures Visited(t, w) !! Spine(StopAt(t, w))
  {
    if Stops(t, w) {
      SpineInside(t);
    } else {
      var u := Below(t, GoesRight(t.k, w));
      VisitedApart(u, w);
      VisitedInside(u, w);
      SpineInside(StopAt(u, w));
    }
  }

  /** The masks on the way have the scope, those in the tree of duplicates have it if they had none
      of it, and the new entry's includes it. */
  ghost predicate InsertMarked(T: Tree, x: EbNode, m: Masks, m': Masks, ls: Masks, scope: Scope)
  {
    && (forall n :: n in NodeSet(T) ==> Get(m', n) == Marked(Get(m, n), n, T, x.bits, scope))
    && Get(m', x) == NewMask(StopAt(T, x.bits), x.bits, m', ls, scope)
  }

  lemma WayMarked(T: Tree, x: EbNode, m: Masks, ls: Masks, scope: Scope, n: EbNode)
    requires Elastic(T) && x !in NodeSet(T) && n in NodeSet(T) && n in m
    ensures Get(InsertMasks(T, x, m, ls, scope), n) == Marked(Get(m, n), n, T, x.bits, scope)
  {
    VisitedApart(T, x.bits);
    SpineInside(StopAt(T, x.bits));
  }

  lemma OwnMarked(T: Tree, x: EbNode, m: Masks, ls: Masks, scope: Scope)
    requires Elastic(T) && x !in LeafSet(T) && x !in NodeSet(T)
    ensures var m' := InsertMasks(T, x, m, ls, scope);
      Get(m', x) == NewMask(StopAt(T, x.bits), x.bits, m', ls, scope)
  {
    var t := StopAt(T, x.bits);
    VisitedInside(T, x.bits);
    var m1 := VisitMasks(m, Visited(T, x.bits), scope);
    DupMasksOwn(t, x, m1[x := BranchMask(m1, ls, t) + scope], m1, ls, scope);
  }

  lemma DupMasksOwn(t: Tree, x: EbNode, m: Masks, m1: Masks, ls: Masks, scope: Scope)
    requires x !in LeafSet(t) && x !in NodeSet(t) && m == m1[x := BranchMask(m1, ls, t) + scope]
    ensures var m' := DupMasks(t, x, m, ls, scope);
      Get(m', x) == NewMask(t, x.bits, m', ls, scope)
  {
    TopIn(t);
    if t.Node? && t.n.bits == x.bits {
      WrapInside(t);
    } else {
      assert BranchMask(m, ls, t) == BranchMask(m1, ls, t);
      assert BranchMask(m, ls, t) + scope == scope + BranchMask(m, ls, t);
    }
  }

  lemma InsertMasksMark(T: Tree, x: EbNode, m: Masks, ls: Masks, scope: Scope)
    requires Elastic(T) && x !in LeafSet(T) && LeafSet(T) <= m.Keys
    ensures InsertMarked(T, x, m, InsertMasks(T, x, m, ls, scope), ls, scope)
  {
    OneSpareNode(T);
    OwnMarked(T, x, m, ls, scope);
    forall n | n in NodeSet(T)
      ensures Get(InsertMasks(T, x, m, ls, scope), n) == Marked(Get(m, n), n, T, x.bits, scope)
    {
      WayMarked(T, x, m, ls, scope, n);
    }
  }

  lemma {:induction false} WrapInside(t: Tree)
    requires t.Node?
    ensures WrapPoint(t).n in NodeSet(t)
  {
    if HoleBelow(t) { WrapInside(t.r); }
  }

  /** After an insertion every mask is wide enough if and only if those in the tree of duplicates fitted. */
  lemma InsertKeepsCover(T: Tree, x: EbNode, m: Masks, ls: Masks, ls': Masks, scope: Scope)
    requires Radix(T) && Elastic(T) && x !in LeafSet(T) && LeafSet(T) <= m.Keys && Covers(m, ls, T)
    requires Same(LeafSet(T), ls, ls') && Get(ls', x) == scope
    ensures Covers(InsertMasks(T, x, m, ls', scope), ls', Insert(T, x)) <==>
      InsertFits(StopAt(T, x.bits), x.bits, m, scope)
  {
    OneSpareNode(T);
    InsertMasksMark(T, x, m, ls', scope);
    MarkedCovers(T, x, m, ls, InsertMasks(T, x, m, ls', scope), ls', scope);
  }

  lemma MarkedCovers(T: Tree, x: EbNode, m: Masks, ls: Masks, m': Masks, ls': Masks, scope: Scope)
    requires Radix(T) && Elastic(T) && x !in LeafSet(T) && x !in NodeSet(T) && Covers(m, ls, T)
    requires Same(LeafSet(T), ls, ls') && Get(ls', x) == scope && InsertMarked(T, x, m, m', ls', scope)
    ensures Covers(m', ls', Insert(T, x)) <==> InsertFits(StopAt(T, x.bits), x.bits, m, scope)
  {
    VisitedInside(T, x.bits);
    NewMaskSame(StopAt(T, x.bits), x.bits, m', ls, ls', scope);
    InsertCovers(T, x, m, ls, m', ls', scope);
  }

  lemma NewMaskSame(t: Tree, w: Bits, m: Masks, ls: Masks, ls': Masks, scope: Scope)
    requires Same(LeafSet(t), ls, ls')
    ensures NewMask(t, w, m, ls, scope) == NewMask(t, w, m, ls', scope)
  {
    LastIsLast(t);
    TopIn(t);
  }

  /** The links of a new entry in a scoped tree. */
  method PlaceLinksScoped(tree: EbTree, x: EbNode, scope: Scope, up: Troot, troot: Troot, equal: bool, right: bool,
      bit: int, ghost c: Ctx, ghost t: Tree, ghost k: Kind, ghost S: set<EbNode>)
    requires Linked(Snap(S), tree.layer, tree.root, Plug(c, t)) && Elastic(Plug(c, t))
    requires LeafSet(Plug(c, t)) <= S && tree.root in S && x in S
    requires tree.root !in LeafSet(Plug(c, t)) && x !in LeafSet(Plug(c, t)) && x != tree.root
    requires up == Up(tree.root, c) && troot == At(t)
    requires equal <==> x.bits == t.n.bits
    requires equal && t.Node? ==> t.k.Dup? && DupTree(t, t.k.d - 1, x.bits) && scope <= t.n.node_s
    requires !equal || t.Leaf? ==> Join(t, x) == Above(t, x, k, right) && bit == BitField(tree.layer, k)
    modifies S`left, S`right, S`node_p, S`leaf_p, S`bit, S`node_s
    ensures Linked(Snap(S), tree.layer, tree.root, Plug(c, Join(t, x)))
    ensures tree.root.right == old(tree.root.right)
    ensures NodeMasks(S) == DupMasks(t, x, old(NodeMasks(S)), LeafMasks(S), scope) && LeafMasks(S) == old(LeafMasks(S))
  {
    ghost var M, ls := Snap(S), LeafMasks(S);
    if equal && troot.tag == EB_NODE {
      InsertDuplicateScoped(troot.to, x, scope, tree.root, tree.layer, c, t, S);
      assert LeafMasks(S) == ls;
    } else {
      Attach(up, troot, x, right, bit, tree.root, tree.layer, c, t, k, S);
      assert NodeMasks(S) == old(NodeMasks(S)) && LeafMasks(S) == ls;
    }
    assert M[tree.root].right == Snap(S)[tree.root].right;
  }

  method MarkAndLink(tree: EbTree, x: EbNode, scope: Scope, old_scope: Scope, up: Troot, troot: Troot, equal: bool,
      right: bool, bit: int, ghost c: Ctx, ghost t: Tree, ghost k: Kind, ghost S: set<EbNode>)
    requires Linked(Snap(S), tree.layer, tree.root, Plug(c, t)) && Elastic(Plug(c, t))
    requires LeafSet(Plug(c, t)) <= S && tree.root in S && x in S
    requires tree.root !in LeafSet(Plug(c, t)) && x !in LeafSet(Plug(c, t)) && x != tree.root
    requires up == Up(tree.root, c) && troot == At(t)
    requires equal <==> x.bits == t.n.bits
    requires equal && t.Node? ==> t.k.Dup? && DupTree(t, t.k.d - 1, x.bits) && scope <= t.n.node_s && t.n != x
    requires !equal || t.Leaf? ==> Join(t, x) == Above(t, x, k, right) && bit == BitField(tree.layer, k)
    modifies S`left, S`right, S`node_p, S`leaf_p, S`bit, S`node_s, x`leaf_s
    ensures Linked(Snap(S), tree.layer, tree.root, Plug(c, Join(t, x)))
    ensures tree.root.right == old(tree.root.right)
    ensures NodeMasks(S) == DupMasks(t, x, old(NodeMasks(S))[x := old_scope + scope], LeafMasks(S), scope)
    ensures LeafMasks(S) == old(LeafMasks(S))[x := scope]
  {
    SetMasks(x, old_scope + scope, scope, S);
    PlaceLinksScoped(tree, x, scope, up, troot, equal, right, bit, c, t, k, S);
  }

  /** The links and masks being set, the abstract tree follows. */
  ghost method RegrowScoped(tree: EbTree, x: EbNode, t': Tree, S: set<EbNode>)
    requires tree.shape.Some? && tree.root !in tree.Entries() && x != tree.root && tree.root.right == NULL
    requires S == tree.Foot() + {x} && Sound(t', false) && LeafSet(t') == tree.Entries() + {x}
    requires Linked(Snap(S), tree.layer, tree.root, t')
    requires tree.layer.Scalar? ==>
      && |x.bits| == tree.layer.w
      && forall n :: n in tree.Entries() ==> |n.bits| == tree.layer.w
    modifies tree`shape
    ensures tree.Valid() && tree.shape == Some(t') && tree.Foot() == S && !tree.Unique()
    ensures NodeMasks(S) == old(NodeMasks(S)) && LeafMasks(S) == old(LeafMasks(S))
  {
    tree.Regrow(x, t');
  }

  /** The end of eb32sc_insert: x gets its masks and goes above t, or among its duplicates. */
  method PlaceScoped(tree: EbTree, x: EbNode, scope: Scope, old_scope: Scope, up: Troot, troot: Troot, equal: bool,
      right: bool, bit: int, ghost c: Ctx, ghost t: Tree, ghost k: Kind, ghost S: set<EbNode>)
    requires tree.Valid() && x !in tree.Foot() && S == tree.Foot() + {x}
      && (tree.layer.Scalar? ==> |x.bits| == tree.layer.w)
    requires tree.shape == Some(Plug(c, t)) && Insert(tree.shape.value, x) == Plug(c, Join(t, x)) && !tree.Unique()
    requires up == Up(tree.root, c) && troot == At(t)
    requires equal <==> x.bits == t.n.bits
    requires equal && t.Node? ==> t.k.Dup? && DupTree(t, t.k.d - 1, x.bits) && scope <= t.n.node_s && t.n != x
    requires !equal || t.Leaf? ==> Join(t, x) == Above(t, x, k, right) && bit == BitField(tree.layer, k)
    modifies tree`shape, S`left, S`right, S`node_p, S`leaf_p, S`bit, S`node_s, x`leaf_s
    ensures tree.Valid() && !tree.Unique() && tree.Foot() == S
    ensures tree.shape == Some(Insert(old(tree.shape).value, x))
    ensures NodeMasks(S) == DupMasks(t, x, old(NodeMasks(S))[x := old_scope + scope], LeafMasks(S), scope)
    ensures LeafMasks(S) == old(LeafMasks(S))[x := scope]
  {
    ghost var T := tree.shape.value;
    InsertSound(T, x, false);
    tree.WithRoom(x);
    MarkAndLink(tree, x, scope, old_scope, up, troot, equal, right, bit, c, t, k, S);
    RegrowScoped(tree, x, Insert(T, x), S);
  }

  method SetMasks(x: EbNode, node_s: Scope, leaf_s: Scope, ghost S: set<EbNode>)
    requires x in S
    modifies x`node_s, x`leaf_s
    ensures Snap(S) == old(Snap(S))
    ensures NodeMasks(S) == old(NodeMasks(S))[x := node_s] && LeafMasks(S) == old(LeafMasks(S))[x := leaf_s]
  {
    x.leaf_s := leaf_s;
    x.node_s := node_s;
  }

  /** The comparison of the keys at the end of the descent. */
  method FinishScoped(tree: EbTree, x: EbNode, scope: Scope, old_scope: Scope, up: Troot, troot: Troot,
                      ghost w: nat, ghost c: Ctx, ghost t: Tree, ghost S: set<EbNode>)
    requires tree.Valid() && tree.layer == Scalar(w) && tree.shape.Some? && !tree.Unique() && x !in tree.Foot()
      && S == tree.Foot() + {x}
    requires Keyed(x, w, false) && Keyed(t.n, w, false) && t.n != x
    requires Reached(tree.shape.value, false, x.bits, c, t) && Stops(t, x.bits)
    requires up == Up(tree.root, c) && troot == At(t) && Insert(tree.shape.value, x) == Plug(c, Join(t, x))
    requires t.Node? ==> scope <= t.n.node_s
    modifies tree`shape, S`left, S`right, S`node_p, S`leaf_p, S`bit, S`node_s, x`leaf_s
    ensures tree.Valid() && !tree.Unique() && tree.Foot() == S
    ensures tree.shape == Some(Insert(old(tree.shape).value, x))
    ensures NodeMasks(S) == DupMasks(t, x, old(NodeMasks(S))[x := old_scope + scope], LeafMasks(S), scope)
    ensures LeafMasks(S) == old(LeafMasks(S))[x := scope]
  {
    var old_ := troot.to;
    var right := x.key >= old_.key;
    Decides(tree.shape.value, false, x.bits, c, t);
    ghost var k := IntEnd(t, x, w, false);
    var equal := x.key == old_.key;
    var bit := if equal then -1 else Fls(Xor(x.key, old_.key)) - 1;
    PlaceScoped(tree, x, scope, old_scope, up, troot, equal, right, bit, c, t, k, S);
  }

  ghost predicate ScopedTree(tree: EbTree, w: nat)
    reads tree, tree.Foot()
  {
    IntTree(tree, w, false) && !tree.Unique()
  }

  /** The first entry of an empty tree. */
  method InsertFirstScoped(tree: EbTree, x: EbNode, scope: Scope, ghost w: nat)
    requires ScopedTree(tree, w) && tree.shape == None && x !in tree.Foot() && Keyed(x, w, false)
    modifies tree`shape, tree.root`left, x`leaf_p, x`node_p, x`node_s, x`leaf_s
    ensures ScopedTree(tree, w) && tree.Entries() == {x} && tree.Contents() == [x]
    ensures x.leaf_s == x.node_s == scope
  {
    tree.InsertOnly(x);
    ghost var S := tree.Foot();
    SetMasks(x, scope, scope, S);
    assert tree.Foot() == S;
  }

  method DescendScoped(tree: EbTree, x: EbNode, scope: Scope, ghost w: nat, ghost T: Tree, ghost S: set<EbNode>)
    returns (up: Troot, troot: Troot, old_scope: Scope, ghost c: Ctx, ghost t: Tree)
    requires ScopedTree(tree, w) && tree.shape == Some(T) && x !in tree.Foot() && Keyed(x, w, false)
      && S == tree.Foot() + {x}
    modifies S`node_s
    ensures tree.Valid() && !tree.Unique() && LeafMasks(S) == old(LeafMasks(S))
    ensures Reached(T, false, x.bits, c, t) && Stops(t, x.bits) && Keyed(t.n, w, false) && t.n != x
      && t == StopAt(T, x.bits)
    ensures up == Up(tree.root, c) && troot == At(t) && Insert(T, x) == Plug(c, Join(t, x))
    ensures t.Node? ==> scope <= t.n.node_s
    ensures NodeMasks(S) == VisitMasks(old(NodeMasks(S)), Visited(T, x.bits), scope)
    ensures old_scope == BranchMask(NodeMasks(S), LeafMasks(S), t)
  {
    ghost var M := Snap(tree.Foot());
    RoomToDescend(tree, x, w, T, S);
    up, troot, old_scope, c, t := DescendMarking(tree.root, x, scope, w, T, false, S);
    DescentMarks(T, x, w, c, t, S, old(NodeMasks(S)), scope);
    SnapWithin(S, old(Snap(S)), tree.Foot(), M);
  }

  lemma SnapWithin(S: set<EbNode>, M: Mem, F: set<EbNode>, N: Mem)
    requires F <= S && Snap(S) == M && N.Keys == F && forall n :: n in F ==> n in M && N[n] == M[n]
    ensures Snap(F) == N
  {
    forall n | n in F ensures Snap(F)[n] == N[n] { assert M[n] == CellOf(n); }
  }

  /** The same in a tree that has entries. */
  method InsertMoreScoped(tree: EbTree, x: EbNode, scope: Scope, ghost w: nat, ghost T: Tree, ghost S: set<EbNode>)
    requires ScopedTree(tree, w) && tree.shape == Some(T) && x !in tree.Foot() && Keyed(x, w, false)
      && S == tree.Foot() + {x}
    modifies tree`shape, S`left, S`right, S`node_p, S`leaf_p, S`bit, S`node_s, x`leaf_s
    ensures tree.Valid() && !tree.Unique() && tree.Foot() == S && tree.shape == Some(Insert(T, x))
    ensures LeafMasks(S) == old(LeafMasks(S))[x := scope]
    ensures NodeMasks(S) == InsertMasks(T, x, old(NodeMasks(S)), LeafMasks(S), scope)
  {
    var up, troot, old_scope;
    ghost var c, t;
    up, troot, old_scope, c, t := DescendScoped(tree, x, scope, w, T, S);
    FinishScoped(tree, x, scope, old_scope, up, troot, w, c, t, S);
    OldScopeSame(T, x, t, old(NodeMasks(S)), old(LeafMasks(S)), scope);
  }

  lemma OldScopeSame(T: Tree, x: EbNode, t: Tree, m: Masks, ls: Masks, scope: Scope)
    requires t.n != x && t == StopAt(T, x.bits)
    ensures var m1 := VisitMasks(m, Visited(T, x.bits), scope);
      InsertMasks(T, x, m, ls[x := scope], scope) ==
        DupMasks(t, x, m1[x := BranchMask(m1, ls, t) + scope], ls[x := scope], scope)
  {
    var m1 := VisitMasks(m, Visited(T, x.bits), scope);
    assert BranchMask(m1, ls, t) == BranchMask(m1, ls[x := scope], t);
  }

  lemma RoomToDescend(tree: EbTree, x: EbNode, w: nat, T: Tree, S: set<EbNode>)
    requires tree.Valid() && tree.layer == Scalar(w) && tree.shape == Some(T) && x !in tree.Foot()
      && S == tree.Foot() + {x}
    ensures tree.root.left == At(T) && Rep(Snap(S), Scalar(w), T, Troot(tree.root, EB_LEFT)) && LeafSet(T) <= S
      && tree.root in S
  {
    EmptyOrNot(tree);
    tree.WithRoom(x);
  }

  lemma DescentMarks(T: Tree, x: EbNode, w: nat, c: Ctx, t: Tree, S: set<EbNode>, m: Masks, scope: Scope)
    requires Reached(T, false, x.bits, c, t) && Stops(t, x.bits) && LeafSet(T) <= S && m.Keys == S && x !in LeafSet(T)
    requires AllKeyed(LeafSet(T), w, false)
    requires NodeMasks(S) == VisitMasks(m, Visited(T, x.bits), scope)
    ensures t == StopAt(T, x.bits) && t.n in LeafSet(T) && t.n != x && Keyed(t.n, w, false)
    ensures t.Node? ==> scope <= t.n.node_s
  {
    LeavesDistinct(t);
    StopVisited(T, x.bits);
    assert NodeMasks(S)[t.n] == t.n.node_s;
  }

  lemma {:induction false} StopVisited(t: Tree, w: Bits)
    ensures StopAt(t, w).Node? ==> StopAt(t, w).n in Visited(t, w)
  {
    if !Stops(t, w) { StopVisited(Below(t, GoesRight(t.k, w)), w); }
  }

  /** What insertion makes of the walking order and of the masks. */
  ghost predicate ScopedInserted(t0: Option<Tree>, ns: Masks, ls: Masks, t: Option<Tree>, ns': Masks, ls': Masks,
      x: EbNode, scope: Scope)
  {
    && ls' == ls[x := scope] && t.Some?
    && if t0.None? then Leaves(t.value) == [x]
       else
         && Leaves(t.value) == Splice(Leaves(t0.value), x)
         && (Covers(ns, ls, t0.value) ==>
              (Covers(ns', ls', t.value) <==> InsertFits(StopAt(t0.value, x.bits), x.bits, ns, scope)))
  }

  method InsertIntoScoped(tree: EbTree, x: EbNode, scope: Scope, ghost w: nat, ghost T: Tree, ghost S: set<EbNode>)
    requires ScopedTree(tree, w) && tree.shape == Some(T) && x !in tree.Foot() && Keyed(x, w, false)
      && S == tree.Foot() + {x}
    modifies tree`shape, S`left, S`right, S`node_p, S`leaf_p, S`bit, S`node_s, x`leaf_s
    ensures ScopedTree(tree, w) && tree.Foot() == S
    ensures ScopedInserted(Some(T), old(NodeMasks(tree.Foot())), old(LeafMasks(tree.Foot())), tree.shape,
      NodeMasks(S), LeafMasks(S), x, scope)
  {
    ghost var m, ls, m' := NodeMasks(tree.Foot()), LeafMasks(tree.Foot()), NodeMasks(S);
    assert LeafMasks(S)[x := scope] == ls[x := scope];
    InsertMoreScoped(tree, x, scope, w, T, S);
    assert tree.Entries() <= S - {tree.root} <= LeafSet(T) + {x};
    InsertedScoped(T, x, m, ls, m', scope);
  }

  lemma InsertedScoped(T: Tree, x: EbNode, m: Masks, ls: Masks, m': Masks, scope: Scope)
    requires Sound(T, false) && x !in LeafSet(T) && LeafSet(T) <= m.Keys && LeafSet(T) <= m'.Keys
      && Same(LeafSet(T), m, m')
    requires LeafSet(T) <= ls.Keys
    ensures var ls' := ls[x := scope];
      ScopedInserted(Some(T), m, ls, Some(Insert(T, x)), InsertMasks(T, x, m', ls', scope), ls', x, scope)
  {
    InsertLeaves(T, x);
    if Covers(m, ls, T) { CoverAfter(T, x, m, ls, m', ls[x := scope], scope); }
  }

  /** eb32sc_insert. The entries are as for integer keys. The masks, if wide enough before, are so after if
      and only if those in the tree of duplicates met have either nothing of the scope or all of it. */
  method InsertScoped(tree: EbTree, x: EbNode, scope: Scope, ghost w: nat)
    requires ScopedTree(tree, w) && x !in tree.Foot() && Keyed(x, w, false)
    modifies tree`shape, x`left, x`right, x`node_p, x`leaf_p, x`bit, x`node_s, x`leaf_s
    modifies tree.Foot()`left, tree.Foot()`right, tree.Foot()`node_p, tree.Foot()`leaf_p, tree.Foot()`bit,
      tree.Foot()`node_s
    ensures ScopedTree(tree, w) && tree.Foot() == old(tree.Foot()) + {x}
    ensures ScopedInserted(old(tree.shape), old(NodeMasks(tree.Foot())), old(LeafMasks(tree.Foot())),
                           tree.shape, NodeMasks(tree.Foot()), LeafMasks(tree.Foot()), x, scope)
    ensures old(tree.shape).None? ==> Covered(tree)
  {
    EmptyOrNot(tree);
    if tree.root.left == NULL {
      InsertFirstScoped(tree, x, scope, w);
    } else {
      InsertIntoScoped(tree, x, scope, w, tree.shape.value, tree.Foot() + {x});
    }
  }

  lemma CoverAfter(T: Tree, x: EbNode, m: Masks, ls: Masks, m': Masks, ls': Masks, scope: Scope)
    requires Radix(T) && Elastic(T) && x !in LeafSet(T) && LeafSet(T) <= m.Keys && Covers(m, ls, T)
    requires Same(LeafSet(T), ls, ls') && Get(ls', x) == scope && LeafSet(T) <= m'.Keys && Same(LeafSet(T), m, m')
    ensures Covers(InsertMasks(T, x, m', ls', scope), ls', Insert(T, x)) <==>
      InsertFits(StopAt(T, x.bits), x.bits, m, scope)
  {
    OneSpareNode(T);
    CoversFrame(m, ls, m', ls, T);
    InsertKeepsCover(T, x, m', ls, ls', scope);
    VisitedInside(T, x.bits);
    if StopAt(T, x.bits).Node? { FitsFrame(StopAt(T, x.bits), m, m', scope); }
  }

  lemma {:induction false} FitsFrame(t: Tree, m: Masks, m': Masks, scope: Scope)
    requires t.Node? && Same(NodeSet(t), m, m')
    ensures AppendFits(t, m, scope) <==> AppendFits(t, m', scope)
    ensures WrapFits(t, m, scope) <==> WrapFits(t, m', scope)
  {
    if t.r.Node? { FitsFrame(t.r, m, m', scope); }
  }
}