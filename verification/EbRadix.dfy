/**
  What the keys of a tree must satisfy at every node, and insertion as a function on trees.
 */
module EbRadix {
  import opened BitStrings
  import opened EbNodes
  import opened EbShapes

  // ---- The list the tree stands for ----

  /** The first entry with the key w, or null. */
  ghost function FirstWith(s: seq<EbNode>, w: Bits): EbNode?
  {
    if s == [] then null else if s[0].bits == w then s[0] else FirstWith(s[1..], w)
  }

  /** x just after the last entry of a key that is not above its own. */
  ghost function Splice(s: seq<EbNode>, x: EbNode): (r: seq<EbNode>)
    ensures |r| == |s| + 1
  {
    if s == [] then [x]
    else if Before(x.bits, s[0].bits) then [x] + s
    else [s[0]] + Splice(s[1..], x)
  }

  lemma {:induction false} SplicePast(a: seq<EbNode>, b: seq<EbNode>, x: EbNode)
    requires forall e :: e in a ==> !Before(x.bits, e.bits)
    ensures Splice(a + b, x) == a + Splice(b, x)
  {
    if a == [] {
      assert a + b == b;
    } else {
      assert (a + b)[1..] == a[1..] + b;
      assert a[0] in a;
      SplicePast(a[1..], b, x);
    }
  }

  lemma {:induction false} SpliceWithin(a: seq<EbNode>, b: seq<EbNode>, x: EbNode)
    requires b != [] && Before(x.bits, b[0].bits)
    ensures Splice(a + b, x) == Splice(a, x) + b
  {
    if a == [] {
      assert a + b == b;
    } else {
      assert (a + b)[1..] == a[1..] + b;
      SpliceWithin(a[1..], b, x);
    }
  }

  lemma {:induction false} FirstWithAppend(a: seq<EbNode>, b: seq<EbNode>, w: Bits)
    ensures FirstWith(a + b, w) == if FirstWith(a, w) != null then FirstWith(a, w) else FirstWith(b, w)
  {
    if a == [] {
      assert a + b == b;
    } else {
      assert (a + b)[1..] == a[1..] + b;
      FirstWithAppend(a[1..], b, w);
    }
  }

  lemma {:induction false} FirstWithFound(s: seq<EbNode>, w: Bits)
    ensures FirstWith(s, w) == null <==> forall e :: e in s ==> e.bits != w
    ensures FirstWith(s, w) != null ==> FirstWith(s, w) in s && FirstWith(s, w).bits == w
  {
    if s != [] {
      FirstWithFound(s[1..], w);
      assert forall e :: e in s <==> e == s[0] || e in s[1..];
    }
  }

  // ---- The invariant ----

  ghost predicate Agree(s: set<EbNode>, n: EbNode, p: nat)
  {
    p <= |n.bits| && forall e :: e in s ==> p <= |e.bits| && e.bits[..p] == n.bits[..p]
  }

  /** Below a normal node at p bits the branches differ by the next bit; below a cover node at
      p bits the left branch holds the keys of exactly p bits and the right branch longer ones. */
  ghost predicate Splits(n: EbNode, k: Kind, left: set<EbNode>, right: set<EbNode>)
    requires !k.Dup?
  {
    && Agree(left, n, k.p) && Agree(right, n, k.p)
    && (forall e :: e in right ==> |e.bits| > k.p && (k.Normal? ==> e.bits[k.p]))
    && (forall e :: e in left ==> if k.Normal? then |e.bits| > k.p && !e.bits[k.p] else |e.bits| == k.p)
  }

  ghost function First(t: Tree): EbNode
  {
    match t
    case Leaf(n) => n
    case Node(_, _, l, _) => First(l)
  }

  ghost function Last(t: Tree): EbNode
  {
    match t
    case Leaf(n) => n
    case Node(_, _, _, r) => Last(r)
  }

  /** A tree of entries that all have the key w. The levels increase towards the leaves, from
      above a, and stay negative; each node's own leaf is the first one on its right. */
  ghost predicate DupTree(t: Tree, a: int, w: Bits)
  {
    match t
    case Leaf(n) => n.bits == w
    case Node(n, k, l, r) =>
      && k.Dup? && a < k.d < 0
      && DupTree(l, k.d, w) && DupTree(r, k.d, w)
      && n == First(r)
  }

  ghost predicate Radix(t: Tree)
  {
    match t
    case Leaf(_) => true
    case Node(n, k, l, r) =>
      if k.Dup? then DupTree(t, k.d - 1, n.bits)
      else Radix(l) && Radix(r) && Splits(n, k, LeafSet(l), LeafSet(r))
  }

  /** The own leaf of a node outside duplicate trees is the first one of its key. */
  ghost predicate OwnFirst(t: Tree)
  {
    match t
    case Leaf(_) => true
    case Node(n, k, l, r) =>
      k.Dup? || (OwnFirst(l) && OwnFirst(r) && FirstWith(Leaves(t), n.bits) == n)
  }

  /** A tree without duplicates, as those with unique keys are. */
  ghost predicate NoDups(t: Tree)
  {
    t.Node? ==> !t.k.Dup? && NoDups(t.l) && NoDups(t.r)
  }

  lemma {:induction false} FirstIsFirst(t: Tree)
    ensures First(t) == Leaves(t)[0] && First(t) in LeafSet(t)
  {
    match t
    case Leaf(_) =>
    case Node(_, _, l, _) => FirstIsFirst(l);
  }

  lemma {:induction false} LastIsLast(t: Tree)
    ensures Last(t) == Leaves(t)[|Leaves(t)| - 1] && Last(t) in LeafSet(t)
  {
    match t
    case Leaf(_) =>
    case Node(_, _, _, r) => LastIsLast(r);
  }

  lemma {:induction false} DupTreeKeys(t: Tree, a: int, w: Bits)
    requires DupTree(t, a, w)
    ensures forall e :: e in LeafSet(t) ==> e.bits == w
    ensures t.n.bits == w && t.n in LeafSet(t)
    ensures Radix(t)
  {
    match t
    case Leaf(_) =>
    case Node(n, k, l, r) =>
      DupTreeKeys(l, k.d, w);
      DupTreeKeys(r, k.d, w);
      FirstIsFirst(r);
  }

  // ---- Insertion into a tree of duplicates ----

  ghost function Level(t: Tree): int
  {
    if t.Node? && t.k.Dup? then t.k.d else 0
  }

  /** Level of the last node when walking down right. */
  ghost function Bottom(t: Tree): int
    requires t.Node?
  {
    if t.r.Leaf? then Level(t) else Bottom(t.r)
  }

  /** Some node further down right is more than one level below its parent. */
  ghost predicate HoleBelow(t: Tree)
    requires t.Node?
  {
    t.r.Node? && (Level(t.r) > Level(t) + 1 || HoleBelow(t.r))
  }

  ghost function Append(t: Tree, x: EbNode): Tree
    requires t.Node?
  {
    if t.r.Leaf? then t.(r := Node(x, Dup(-1), t.r, Leaf(x))) else t.(r := Append(t.r, x))
  }

  /** x above the right-hand node below the deepest hole, or above the whole of t. */
  ghost function Wrap(t: Tree, x: EbNode): Tree
    requires t.Node?
  {
    if HoleBelow(t) then t.(r := Wrap(t.r, x)) else Node(x, Dup(Level(t) - 1), t, Leaf(x))
  }

  ghost function InsertDup(t: Tree, x: EbNode): Tree
    requires t.Node?
  {
    if Bottom(t) < -1 then Append(t, x) else Wrap(t, x)
  }

  lemma {:induction false} AppendOk(t: Tree, x: EbNode, a: int)
    requires t.Node? && DupTree(t, a, x.bits) && Bottom(t) < -1
    ensures DupTree(Append(t, x), a, x.bits)
    ensures Leaves(Append(t, x)) == Leaves(t) + [x]
    ensures First(Append(t, x)) == First(t)
  {
    if t.r.Node? {
      AppendOk(t.r, x, t.k.d);
    } else {
      assert Leaves(Node(x, Dup(-1), t.r, Leaf(x))) == Leaves(t.r) + [x];
    }
  }

  lemma {:induction false} WrapOk(t: Tree, x: EbNode, a: int)
    requires t.Node? && DupTree(t, a, x.bits) && (HoleBelow(t) || a < Level(t) - 1)
    ensures DupTree(Wrap(t, x), a, x.bits)
    ensures Leaves(Wrap(t, x)) == Leaves(t) + [x]
    ensures First(Wrap(t, x)) == First(t)
  {
    if HoleBelow(t) { WrapOk(t.r, x, t.k.d); }
  }

  /** A duplicate comes last, and the invariant of the tree of duplicates is kept. */
  lemma InsertDupOk(t: Tree, x: EbNode)
    requires t.Node? && t.k.Dup? && DupTree(t, t.k.d - 1, x.bits)
    ensures var t' := InsertDup(t, x);
      && t'.Node? && t'.k.Dup? && DupTree(t', t'.k.d - 1, x.bits) && t'.n.bits == x.bits
      && Leaves(t') == Leaves(t) + [x] && First(t') == First(t)
  {
    if Bottom(t) < -1 {
      AppendOk(t, x, t.k.d - 1);
    } else if HoleBelow(t) {
      WrapOk(t, x, t.k.d - 1);
    } else {
      DupTreeRaise(t, t.k.d - 1, t.k.d - 2, x.bits);
      WrapOk(t, x, t.k.d - 2);
    }
    DupTreeKeys(InsertDup(t, x), InsertDup(t, x).k.d - 1, x.bits);
  }

  lemma DupTreeRaise(t: Tree, a: int, b: int, w: Bits)
    requires DupTree(t, a, w) && b <= a
    ensures DupTree(t, b, w)
  {
  }

  lemma PairSets(t: Tree, x: EbNode, k: Kind)
    ensures LeafSet(Node(x, k, t, Leaf(x))) == LeafSet(Node(x, k, Leaf(x), t)) == LeafSet(t) + {x}
    ensures NodeSet(Node(x, k, t, Leaf(x))) == NodeSet(Node(x, k, Leaf(x), t)) == NodeSet(t) + {x}
    ensures Elastic(t) && x !in LeafSet(t) && x !in NodeSet(t) ==>
      Elastic(Node(x, k, t, Leaf(x))) && Elastic(Node(x, k, Leaf(x), t))
  {
    assert LeafSet(Leaf(x)) == {x} && NodeSet(Leaf(x)) == {};
  }

  lemma {:induction false} AppendSets(t: Tree, x: EbNode)
    requires t.Node?
    ensures LeafSet(Append(t, x)) == LeafSet(t) + {x} && NodeSet(Append(t, x)) == NodeSet(t) + {x}
    ensures Elastic(t) && x !in LeafSet(t) && x !in NodeSet(t) ==> Elastic(Append(t, x))
  {
    if t.r.Node? { AppendSets(t.r, x); } else { PairSets(t.r, x, Dup(-1)); }
  }

  lemma {:induction false} WrapSets(t: Tree, x: EbNode)
    requires t.Node?
    ensures LeafSet(Wrap(t, x)) == LeafSet(t) + {x} && NodeSet(Wrap(t, x)) == NodeSet(t) + {x}
    ensures Elastic(t) && x !in LeafSet(t) && x !in NodeSet(t) ==> Elastic(Wrap(t, x))
  {
    if HoleBelow(t) { WrapSets(t.r, x); }
  }

  // ---- Insertion ----

  /** x next to the whole of t: as a further duplicate, as or under a cover node, or at the first
      bit where it differs from t's key. */
  ghost function Join(t: Tree, x: EbNode): Tree
  {
    var c := Common(x.bits, t.n.bits);
    if x.bits == t.n.bits then
      if t.Leaf? then Node(x, Dup(-1), t, Leaf(x)) else InsertDup(t, x)
    else if c == |x.bits| then Node(x, Cover(c), Leaf(x), t)
    else if c == |t.n.bits| then Node(x, Cover(c), t, Leaf(x))
    else if x.bits[c] then Node(x, Normal(c), t, Leaf(x))
    else Node(x, Normal(c), Leaf(x), t)
  }

  /** The descent for the key w ends at t. */
  ghost predicate Stops(t: Tree, w: Bits)
  {
    t.Leaf? || t.k.Dup? || Common(w, t.n.bits) < t.k.p || (t.k.Normal? && |w| == t.k.p)
  }

  /** The side on which a descent for the key w leaves a node. */
  ghost predicate GoesRight(k: Kind, w: Bits)
    requires !k.Dup?
  {
    if k.Cover? then |w| != k.p else k.p < |w| && w[k.p]
  }

  ghost function Insert(t: Tree, x: EbNode): Tree
  {
    if Stops(t, x.bits) then Join(t, x)
    else if GoesRight(t.k, x.bits) then t.(r := Insert(t.r, x))
    else t.(l := Insert(t.l, x))
  }

  /** Where the descent for w ends. */
  ghost function StopAt(t: Tree, w: Bits): Tree
  {
    if Stops(t, w) then t else StopAt(if GoesRight(t.k, w) then t.r else t.l, w)
  }

  /** Where the descent ends, w relates to every entry as it does to the node's own key. */
  lemma JoinUniform(t: Tree, w: Bits)
    requires Radix(t) && Elastic(t) && Stops(t, w)
    ensures var c := Common(w, t.n.bits);
      forall e :: e in LeafSet(t) ==>
        && c <= |e.bits| && e.bits[..c] == w[..c]
        && (w == t.n.bits ==> e.bits == w)
        && (w != t.n.bits && c < |t.n.bits| ==> c < |e.bits| && (c < |w| ==> e.bits[c] != w[c]))
        && (w != t.n.bits && c == |t.n.bits| ==> e.bits == t.n.bits)
    ensures w == t.n.bits ==> t.Leaf? || t.k.Dup?
    ensures Common(w, t.n.bits) == |t.n.bits| && w != t.n.bits ==> |t.n.bits| < |w|
  {
    var c := Common(w, t.n.bits);
    LeavesDistinct(t);
    CommonSelf(w);
    if c == |t.n.bits| == |w| {
      assert w == w[..c] && t.n.bits == t.n.bits[..c];
    }
    if t.Node? && t.k.Dup? {
      DupTreeKeys(t, t.k.d - 1, t.n.bits);
    } else if t.Node? {
      forall e | e in LeafSet(t)
        ensures c < |e.bits| && e.bits[..c] == w[..c] && (c < |w| ==> e.bits[c] != w[c])
      {
        Weaken(e.bits, t.n.bits, t.k.p, c);
      }
      assert c < |t.n.bits|;
    }
  }

  lemma JoinSets(t: Tree, x: EbNode)
    requires Radix(t) && Elastic(t) && Stops(t, x.bits)
    ensures LeafSet(Join(t, x)) == LeafSet(t) + {x} && NodeSet(Join(t, x)) == NodeSet(t) + {x}
    ensures x !in LeafSet(t) && x !in NodeSet(t) ==> Elastic(Join(t, x))
  {
    if x.bits == t.n.bits && t.Node? {
      AppendSets(t, x);
      WrapSets(t, x);
    } else {
      PairSets(t, x, Join(t, x).k);
    }
  }

  lemma {:induction false} InsertSets(t: Tree, x: EbNode)
    requires Radix(t) && Elastic(t)
    ensures LeafSet(Insert(t, x)) == LeafSet(t) + {x} && NodeSet(Insert(t, x)) == NodeSet(t) + {x}
    ensures x !in LeafSet(t) && x !in NodeSet(t) ==> Elastic(Insert(t, x))
  {
    if Stops(t, x.bits) {
      JoinSets(t, x);
    } else if GoesRight(t.k, x.bits) {
      InsertSets(t.r, x);
    } else {
      InsertSets(t.l, x);
    }
  }

  /** The side not taken holds only keys on the right side of x in the order. */
  lemma SideOrder(t: Tree, w: Bits)
    requires Radix(t) && Elastic(t) && !Stops(t, w)
    ensures GoesRight(t.k, w) ==> forall e :: e in LeafSet(t.l) ==> Before(e.bits, w)
    ensures !GoesRight(t.k, w) ==> forall e :: e in LeafSet(t.r) ==> Before(w, e.bits)
  {
    var p := t.k.p;
    Weaken(w, t.n.bits, Common(w, t.n.bits), p);
    if GoesRight(t.k, w) {
      forall e | e in LeafSet(t.l) ensures Before(e.bits, w) {
        BeforeAt(e.bits, w, p);
      }
    } else {
      forall e | e in LeafSet(t.r) ensures Before(w, e.bits) {
        BeforeAt(w, e.bits, p);
      }
    }
  }

  lemma JoinLeaves(t: Tree, x: EbNode)
    requires Radix(t) && Elastic(t) && Stops(t, x.bits)
    ensures Leaves(Join(t, x)) == Splice(Leaves(t), x)
  {
    JoinUniform(t, x.bits);
    LeafSetIsLeaves(t);
    var c := Common(x.bits, t.n.bits);
    if x.bits != t.n.bits && (c == |x.bits| || (c < |t.n.bits| && !x.bits[c])) {
      BeforeAt(x.bits, Leaves(t)[0].bits, c);
    } else {
      forall e | e in Leaves(t) ensures !Before(x.bits, e.bits) {
        if x.bits == t.n.bits { NotBeforeSelf(x.bits); } else { BeforeAt(e.bits, x.bits, c); }
      }
      SplicePast(Leaves(t), [], x);
      assert Leaves(t) + [] == Leaves(t);
      if x.bits == t.n.bits && t.Node? { InsertDupOk(t, x); }
    }
  }

  /** Insertion puts x just after the last entry whose key is not above its own, and changes
      nothing else in the walking order. */
  lemma {:induction false} InsertLeaves(t: Tree, x: EbNode)
    requires Radix(t) && Elastic(t)
    ensures Leaves(Insert(t, x)) == Splice(Leaves(t), x)
  {
    if Stops(t, x.bits) {
      JoinLeaves(t, x);
    } else {
      SideOrder(t, x.bits);
      LeafSetIsLeaves(t.l);
      LeafSetIsLeaves(t.r);
      if GoesRight(t.k, x.bits) {
        forall e | e in Leaves(t.l) ensures !Before(x.bits, e.bits) {
          BeforeTotal(x.bits, e.bits);
        }
        InsertLeaves(t.r, x);
        SplicePast(Leaves(t.l), Leaves(t.r), x);
      } else {
        InsertLeaves(t.l, x);
        SpliceWithin(Leaves(t.l), Leaves(t.r), x);
      }
    }
  }

  lemma JoinRadix(t: Tree, x: EbNode)
    requires Radix(t) && Elastic(t) && Stops(t, x.bits)
    ensures Radix(Join(t, x))
  {
    JoinUniform(t, x.bits);
    if x.bits == t.n.bits {
      if t.Node? { InsertDupOk(t, x); }
    } else {
      assert LeafSet(Leaf(x)) == {x};
    }
  }

  lemma {:induction false} InsertRadix(t: Tree, x: EbNode)
    requires Radix(t) && Elastic(t)
    ensures Radix(Insert(t, x))
  {
    if Stops(t, x.bits) {
      JoinRadix(t, x);
    } else {
      Weaken(x.bits, t.n.bits, Common(x.bits, t.n.bits), t.k.p);
      if GoesRight(t.k, x.bits) {
        InsertRadix(t.r, x);
        InsertSets(t.r, x);
      } else {
        InsertRadix(t.l, x);
        InsertSets(t.l, x);
      }
    }
  }

  /** After an insertion the first entry of any key is the one it was, or x if there was none. */
  lemma {:induction false} InsertFirst(t: Tree, x: EbNode, w: Bits)
    requires Radix(t) && Elastic(t)
    ensures FirstWith(Leaves(Insert(t, x)), w) ==
      if FirstWith(Leaves(t), w) != null then FirstWith(Leaves(t), w) else if x.bits == w then x else null
  {
    if Stops(t, x.bits) {
      JoinFirst(t, x, w);
    } else {
      SideOrder(t, x.bits);
      FirstWithAppend(Leaves(t.l), Leaves(t.r), w);
      var other := if GoesRight(t.k, x.bits) then t.l else t.r;
      LeafSetIsLeaves(other);
      FirstWithFound(Leaves(other), x.bits);
      NotBeforeSelf(x.bits);
      if GoesRight(t.k, x.bits) {
        InsertFirst(t.r, x, w);
        FirstWithAppend(Leaves(t.l), Leaves(Insert(t.r, x)), w);
      } else {
        InsertFirst(t.l, x, w);
        FirstWithAppend(Leaves(Insert(t.l, x)), Leaves(t.r), w);
      }
    }
  }

  lemma JoinFirst(t: Tree, x: EbNode, w: Bits)
    requires Radix(t) && Elastic(t) && Stops(t, x.bits)
    ensures FirstWith(Leaves(Join(t, x)), w) ==
      if FirstWith(Leaves(t), w) != null then FirstWith(Leaves(t), w) else if x.bits == w then x else null
  {
    JoinUniform(t, x.bits);
    LeafSetIsLeaves(t);
    FirstWithFound(Leaves(t), w);
    FirstWithAppend(Leaves(t), [x], w);
    FirstWithAppend([x], Leaves(t), w);
    if x.bits == t.n.bits && t.Node? { InsertDupOk(t, x); }
  }

  lemma {:induction false} InsertOwnFirst(t: Tree, x: EbNode)
    requires Radix(t) && Elastic(t) && OwnFirst(t)
    ensures OwnFirst(Insert(t, x))
  {
    if Stops(t, x.bits) {
      JoinFirst(t, x, x.bits);
      JoinUniform(t, x.bits);
      LeafSetIsLeaves(t);
      FirstWithFound(Leaves(t), x.bits);
      if x.bits == t.n.bits && t.Node? { InsertDupOk(t, x); }
    } else {
      InsertFirst(t, x, t.n.bits);
      if GoesRight(t.k, x.bits) { InsertOwnFirst(t.r, x); } else { InsertOwnFirst(t.l, x); }
    }
  }

  lemma {:induction false} InsertNoDups(t: Tree, x: EbNode)
    requires Radix(t) && Elastic(t) && NoDups(t) && FirstWith(Leaves(t), x.bits) == null
    ensures NoDups(Insert(t, x))
  {
    if Stops(t, x.bits) {
      LeavesDistinct(t);
      LeafSetIsLeaves(t);
      FirstWithFound(Leaves(t), x.bits);
    } else {
      FirstWithAppend(Leaves(t.l), Leaves(t.r), x.bits);
      if GoesRight(t.k, x.bits) { InsertNoDups(t.r, x); } else { InsertNoDups(t.l, x); }
    }
  }

  /** The descent finds the first entry of a key if there is one. */
  lemma {:induction false} StopAtFinds(t: Tree, w: Bits)
    requires Radix(t) && Elastic(t)
    ensures var s := StopAt(t, w);
      FirstWith(Leaves(t), w) == if s.n.bits == w then First(s) else null
  {
    LeafSetIsLeaves(t);
    if Stops(t, w) {
      JoinUniform(t, w);
      LeavesDistinct(t);
      FirstIsFirst(t);
      FirstWithFound(Leaves(t), w);
    } else {
      SideOrder(t, w);
      NotBeforeSelf(w);
      LeafSetIsLeaves(t.l);
      LeafSetIsLeaves(t.r);
      FirstWithAppend(Leaves(t.l), Leaves(t.r), w);
      FirstWithFound(Leaves(t.l), w);
      FirstWithFound(Leaves(t.r), w);
      if GoesRight(t.k, w) { StopAtFinds(t.r, w); } else { StopAtFinds(t.l, w); }
    }
  }
}
