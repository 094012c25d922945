/**
  How deep trees of duplicates get: a tree that only sees insertions counts in binary, and the
  level of the top node bounds the depth after any history.
 */
module DupCounter {
  import opened BitStrings
  import opened Integers
  import opened EbNodes
  import opened EbShapes
  import opened EbRadix
  import opened Histories

  ghost function Depth(t: Tree): nat
  {
    match t
    case Leaf(_) => 0
    case Node(_, _, l, r) => 1 + if Depth(l) > Depth(r) then Depth(l) else Depth(r)
  }

  /** After any history no leaf is deeper below the top than the top's level says. */
  lemma {:induction false} LevelBoundsDepth(t: Tree, a: int, w: Bits)
    requires DupTree(t, a, w) && a < 0
    ensures t.Node? ==> Depth(t) <= -t.k.d
    ensures Depth(t) < -a
  {
    match t
    case Leaf(_) =>
    case Node(_, k, l, r) => LevelBoundsDepth(l, k.d, w); LevelBoundsDepth(r, k.d, w);
  }

  /** A complete tree of k levels. */
  ghost predicate Full(t: Tree, k: nat)
  {
    match t
    case Leaf(_) => k == 0
    case Node(_, kind, l, r) => k > 0 && kind.Dup? && kind.d + k == 0 && Full(l, k - 1) && Full(r, k - 1)
  }

  /** Complete trees of ever fewer levels on the left, one for each binary digit of the count. */
  ghost predicate Counter(t: Tree)
  {
    match t
    case Leaf(_) => true
    case Node(_, kind, l, r) =>
      && kind.Dup? && kind.d < 0 && Full(l, -kind.d - 1) && Counter(r)
      && (r.Node? ==> r.k.d > kind.d)
  }

  lemma {:induction false} FullSize(t: Tree, k: nat)
    requires Full(t, k)
    ensures |Leaves(t)| == Pow2(k) && Depth(t) == k && Counter(t)
  {
    if t.Node? { FullSize(t.l, k - 1); FullSize(t.r, k - 1); }
  }

  /** With k the level of the top, n is above 2^(k-1) and at most 2^k, and no leaf is deeper than k. */
  ghost predicate Logarithmic(t: Tree, n: nat)
  {
    t.Node? && t.k.Dup? && t.k.d < 0 && Pow2(-t.k.d - 1) < n <= Pow2(-t.k.d) && Depth(t) <= -t.k.d
  }

  lemma {:induction false} CounterSize(t: Tree)
    requires Counter(t) && t.Node?
    ensures Logarithmic(t, |Leaves(t)|)
  {
    var k := -t.k.d;
    FullSize(t.l, k - 1);
    if t.r.Node? {
      CounterSize(t.r);
      Pow2Monotone(-t.r.k.d, k - 1);
    }
  }

  /** Without a hole down to the last level the count is at its maximum. */
  lemma {:induction false} NoHoleIsFull(t: Tree)
    requires Counter(t) && t.Node? && !HoleBelow(t) && Bottom(t) == -1
    ensures Full(t, -t.k.d)
  {
    if t.r.Node? { NoHoleIsFull(t.r); }
  }

  lemma {:induction false} BottomNegative(t: Tree)
    requires Counter(t) && t.Node?
    ensures Bottom(t) < 0
  {
    if t.r.Node? { BottomNegative(t.r); }
  }

  lemma {:induction false} AppendCounts(t: Tree, x: EbNode)
    requires Counter(t) && t.Node? && Bottom(t) < -1
    ensures Counter(Append(t, x)) && Append(t, x).k == t.k
  {
    if t.r.Node? { AppendCounts(t.r, x); }
  }

  lemma {:induction false} WrapCounts(t: Tree, x: EbNode)
    requires Counter(t) && t.Node? && Bottom(t) == -1
    ensures Counter(Wrap(t, x)) && Wrap(t, x).k == if HoleBelow(t) then t.k else Dup(t.k.d - 1)
  {
    if HoleBelow(t) { WrapCounts(t.r, x); } else { NoHoleIsFull(t); }
  }

  // ---- Every tree of duplicates in a tree of any keys ----

  /** Each tree of duplicates is a counter. */
  ghost predicate Counters(t: Tree)
  {
    match t
    case Leaf(_) => true
    case Node(_, k, l, r) => if k.Dup? then Counter(t) else Counters(l) && Counters(r)
  }

  lemma JoinCounts(t: Tree, x: EbNode)
    requires Radix(t) && Elastic(t) && Counters(t) && Stops(t, x.bits)
    ensures Counters(Join(t, x))
  {
    JoinUniform(t, x.bits);
    if x.bits == t.n.bits && t.Node? {
      BottomNegative(t);
      InsertDupOk(t, x);
      if Bottom(t) < -1 { AppendCounts(t, x); } else { WrapCounts(t, x); }
    }
  }

  /** Insertion keeps all trees of duplicates counters: those of other keys, and the one of its own. */
  lemma {:induction false} InsertCounters(t: Tree, x: EbNode)
    requires Radix(t) && Elastic(t) && Counters(t)
    ensures Counters(Insert(t, x))
  {
    if Stops(t, x.bits) {
      JoinCounts(t, x);
    } else if GoesRight(t.k, x.bits) {
      InsertCounters(t.r, x);
    } else {
      InsertCounters(t.l, x);
    }
  }

  lemma {:induction false} StopAtCounts(t: Tree, w: Bits)
    requires Radix(t) && Elastic(t) && Counters(t)
    ensures var s := StopAt(t, w); Stops(s, w) && Radix(s) && Elastic(s) && Counters(s)
  {
    if !Stops(t, w) { StopAtCounts(if GoesRight(t.k, w) then t.r else t.l, w); }
  }

  /** The duplicates of a key, found where a descent for it ends. */
  lemma CounterAt(t: Tree, w: Bits)
    requires Radix(t) && Elastic(t) && Counters(t) && StopAt(t, w).n.bits == w && StopAt(t, w).Node?
    ensures Logarithmic(StopAt(t, w), |Leaves(StopAt(t, w))|)
  {
    var s := StopAt(t, w);
    StopAtCounts(t, w);
    JoinUniform(s, w);
    CounterSize(s);
  }

  /** The entries with the key w. */
  ghost function WithKey(s: seq<EbNode>, w: Bits): seq<EbNode>
  {
    if s == [] then [] else (if s[0].bits == w then [s[0]] else []) + WithKey(s[1..], w)
  }

  lemma {:induction false} WithKeyAppend(a: seq<EbNode>, b: seq<EbNode>, w: Bits)
    ensures WithKey(a + b, w) == WithKey(a, w) + WithKey(b, w)
  {
    if a == [] {
      assert a + b == b;
    } else {
      var head, x, y := if a[0].bits == w then [a[0]] else [], WithKey(a[1..], w), WithKey(b, w);
      WithKeyAppend(a[1..], b, w);
      assert (a + b)[0] == a[0] && (a + b)[1..] == a[1..] + b;
      assert head + (x + y) == (head + x) + y;
    }
  }

  lemma {:induction false} WithKeyAll(s: seq<EbNode>, w: Bits)
    ensures (forall e :: e in s ==> e.bits == w) ==> WithKey(s, w) == s
    ensures (forall e :: e in s ==> e.bits != w) ==> WithKey(s, w) == []
  {
    if s != [] { WithKeyAll(s[1..], w); }
  }

  /** Where the descent for a key ends, all entries of the key are, and no others if there are any. */
  lemma {:induction false} StopAtHolds(t: Tree, w: Bits)
    requires Radix(t) && Elastic(t)
    ensures var s := StopAt(t, w); WithKey(Leaves(t), w) == if s.n.bits == w then Leaves(s) else []
  {
    LeafSetIsLeaves(t);
    if Stops(t, w) {
      JoinUniform(t, w);
      WithKeyAll(Leaves(t), w);
    } else {
      SideOrder(t, w);
      NotBeforeSelf(w);
      LeafSetIsLeaves(t.l);
      LeafSetIsLeaves(t.r);
      WithKeyAppend(Leaves(t.l), Leaves(t.r), w);
      if GoesRight(t.k, w) {
        WithKeyAll(Leaves(t.l), w);
        StopAtHolds(t.r, w);
      } else {
        WithKeyAll(Leaves(t.r), w);
        StopAtHolds(t.l, w);
      }
    }
  }

  // ---- Runs of insertions ----

  ghost predicate OnlyInsertions(ops: seq<Op>)
  {
    forall i :: 0 <= i < |ops| ==> ops[i].Ins?
  }

  lemma {:induction false} RunCounters(ops: seq<Op>, unique: bool)
    requires OnlyInsertions(ops)
    ensures var t := RunTree(ops, unique); t.Some? ==> Radix(t.value) && Elastic(t.value) && Counters(t.value)
  {
    RunRefines(ops, unique);
    if ops != [] {
      var before := ops[..|ops| - 1];
      RunRefines(before, unique);
      RunCounters(before, unique);
      var t := RunTree(before, unique);
      if t.Some? { InsertCounters(t.value, ops[|ops| - 1].x); }
    }
  }

  /** After any run of insertions of any keys, the tree of duplicates of a key with D entries, D at least 2,
      holds just these, and its top level is minus the logarithm of D, rounded up; no leaf is further below
      the top than that. */
  lemma Counts(ops: seq<Op>, w: Bits)
    requires OnlyInsertions(ops) && RunTree(ops, false).Some?
    ensures var s, e := StopAt(RunTree(ops, false).value, w), WithKey(RunList(ops, false), w);
      && (e == [] <==> s.n.bits != w)
      && (e != [] ==> Leaves(s) == e)
      && (|e| >= 2 ==> Logarithmic(s, |e|))
  {
    var t := RunTree(ops, false).value;
    RunRefines(ops, false);
    RunCounters(ops, false);
    StopAtHolds(t, w);
    if StopAt(t, w).Node? && StopAt(t, w).n.bits == w { CounterAt(t, w); }
  }
}
