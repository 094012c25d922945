/**
  Whole runs of insertions and deletions: the tree stands for the list that a naive sorted list
  would hold, and lookups answer with the entry inserted first among those still there.
 */
module Histories {
  import opened Basics
  import opened BitStrings
  import opened EbNodes
  import opened EbShapes
  import opened EbRadix
  import opened EbDeletion
  import opened EbRoots
  import opened EbmbLookup

  datatype Op = Ins(x: EbNode) | Del(x: EbNode)

  // ---- What a tree without duplicates refused becomes, op by op, and what a list becomes ----

  /** The tree, under the operations of EbTree. Linking an entry twice is left out. */
  ghost function TreeStep(s: Option<Tree>, unique: bool, op: Op): Option<Tree>
  {
    match (s, op)
    case (None, Ins(x)) => Some(Leaf(x))
    case (Some(t), Ins(x)) =>
      if x in LeafSet(t) || (unique && FirstWith(Leaves(t), x.bits) != null) then s else Some(Insert(t, x))
    case (None, Del(_)) => None
    case (Some(t), Del(x)) =>
      if x !in LeafSet(t) then s else if t.Leaf? then None else Some(Delete(t, x))
  }

  ghost function ListStep(s: seq<EbNode>, unique: bool, op: Op): seq<EbNode>
  {
    match op
    case Ins(x) => if x in s || (unique && FirstWith(s, x.bits) != null) then s else Splice(s, x)
    case Del(x) => Remove(s, x)
  }

  ghost function RunTree(ops: seq<Op>, unique: bool): Option<Tree>
  {
    if ops == [] then None else TreeStep(RunTree(ops[..|ops| - 1], unique), unique, ops[|ops| - 1])
  }

  ghost function RunList(ops: seq<Op>, unique: bool): seq<EbNode>
  {
    if ops == [] then [] else ListStep(RunList(ops[..|ops| - 1], unique), unique, ops[|ops| - 1])
  }

  ghost function Entries(s: Option<Tree>): seq<EbNode>
  {
    if s.None? then [] else Leaves(s.value)
  }

  lemma {:induction false} RemoveAbsent(s: seq<EbNode>, x: EbNode)
    requires x !in s
    ensures Remove(s, x) == s
  {
    if s != [] { RemoveAbsent(s[1..], x); }
  }

  /** Every run keeps the tree sound and makes it hold just the list. */
  lemma {:induction false} RunRefines(ops: seq<Op>, unique: bool)
    ensures Entries(RunTree(ops, unique)) == RunList(ops, unique)
    ensures RunTree(ops, unique).Some? ==> Sound(RunTree(ops, unique).value, unique)
  {
    if ops != [] {
      var before, op := ops[..|ops| - 1], ops[|ops| - 1];
      RunRefines(before, unique);
      var s := RunTree(before, unique);
      if s.Some? {
        LeafSetIsLeaves(s.value);
        if op.Ins? {
          if op.x !in LeafSet(s.value) && !(unique && FirstWith(Leaves(s.value), op.x.bits) != null) {
            InsertSound(s.value, op.x, unique);
          }
        } else if op.x !in LeafSet(s.value) {
          RemoveAbsent(Leaves(s.value), op.x);
        } else if s.value.Node? {
          DeleteSound(s.value, op.x, unique);
          DeleteLeaves(s.value, op.x);
        }
      }
    }
  }

  // ---- The order of the list ----

  /** Keys never decrease along the list. */
  ghost predicate Sorted(s: seq<EbNode>)
  {
    forall i, j :: 0 <= i < j < |s| ==> !Before(s[j].bits, s[i].bits)
  }

  /** Every tree that is sound in its keys is walked in the order of the keys. */
  lemma {:induction false} WalkIsSorted(t: Tree)
    requires Radix(t) && Elastic(t)
    ensures Sorted(Leaves(t))
  {
    LeafSetIsLeaves(t);
    if t.Node? && t.k.Dup? {
      DupTreeKeys(t, t.k.d - 1, t.n.bits);
      NotBeforeSelf(t.n.bits);
    } else if t.Node? {
      var a, b := Leaves(t.l), Leaves(t.r);
      WalkIsSorted(t.l);
      WalkIsSorted(t.r);
      LeafSetIsLeaves(t.l);
      LeafSetIsLeaves(t.r);
      var s := a + b;
      forall i, j | 0 <= i < j < |s| ensures !Before(s[j].bits, s[i].bits) {
        if i < |a| <= j {
          assert a[i] in LeafSet(t.l) && b[j - |a|] in LeafSet(t.r);
          BeforeAt(a[i].bits, b[j - |a|].bits, t.k.p);
        }
      }
    }
  }

  lemma RunIsSorted(ops: seq<Op>, unique: bool)
    ensures Sorted(RunList(ops, unique))
  {
    RunRefines(ops, unique);
    var s := RunTree(ops, unique);
    if s.Some? { WalkIsSorted(s.value); }
  }

  // ---- Who is there, and since when ----

  /** The entries that have been inserted and not deleted since. */
  ghost function Left(ops: seq<Op>): set<EbNode>
  {
    if ops == [] then {}
    else
      match ops[|ops| - 1]
      case Ins(x) => Left(ops[..|ops| - 1]) + {x}
      case Del(x) => Left(ops[..|ops| - 1]) - {x}
  }

  lemma {:induction false} SpliceHas(s: seq<EbNode>, x: EbNode, e: EbNode)
    ensures e in Splice(s, x) <==> e == x || e in s
  {
    if s != [] {
      SpliceHas(s[1..], x, e);
      assert e in s <==> e == s[0] || e in s[1..];
    }
  }

  lemma {:induction false} RemoveHas(s: seq<EbNode>, x: EbNode, e: EbNode)
    requires forall i, j :: 0 <= i < j < |s| ==> s[i] != s[j]
    ensures e in Remove(s, x) <==> e != x && e in s
  {
    if s != [] {
      assert e in s <==> e == s[0] || e in s[1..];
      if s[0] != x { RemoveHas(s[1..], x, e); }
    }
  }

  lemma {:induction false} ListHas(ops: seq<Op>, e: EbNode)
    ensures e in RunList(ops, false) <==> e in Left(ops)
  {
    if ops != [] {
      var before, op := ops[..|ops| - 1], ops[|ops| - 1];
      ListHas(before, e);
      var s := RunList(before, false);
      SpliceHas(s, op.x, e);
      RunRefines(before, false);
      var t := RunTree(before, false);
      if t.Some? { LeavesDistinct(t.value); }
      RemoveHas(s, op.x, e);
    }
  }

  lemma ListIsLeft(ops: seq<Op>)
    ensures forall e :: e in RunList(ops, false) ==> e in Left(ops)
    ensures forall e :: e in Left(ops) ==> e in RunList(ops, false)
  {
    forall e | e in RunList(ops, false) ensures e in Left(ops) { ListHas(ops, e); }
    forall e | e in Left(ops) ensures e in RunList(ops, false) { ListHas(ops, e); }
  }

  /** The time of the insertion, for entries that are there. */
  ghost function Since(ops: seq<Op>, e: EbNode): (n: nat)
    ensures e in Left(ops) ==> n < |ops|
  {
    if e !in Left(ops) then 0
    else if ops[|ops| - 1].x == e && e !in Left(ops[..|ops| - 1]) then |ops| - 1
    else Since(ops[..|ops| - 1], e)
  }

  /** Entries with the same key stand in the order in which they were inserted. */
  ghost predicate Stable(s: seq<EbNode>, ops: seq<Op>)
  {
    s == [] ||
    ((forall e :: e in s[1..] && e.bits == s[0].bits ==> Since(ops, s[0]) < Since(ops, e)) && Stable(s[1..], ops))
  }

  lemma {:induction false} StableLater(s: seq<EbNode>, ops: seq<Op>, op: Op)
    requires Stable(s, ops) && op.x !in s && forall e :: e in s ==> e in Left(ops)
    ensures Stable(s, ops + [op])
  {
    if s != [] {
      assert (ops + [op])[..|ops|] == ops;
      assert forall e :: e in s ==> Since(ops + [op], e) == Since(ops, e);
      StableLater(s[1..], ops, op);
    }
  }

  lemma {:induction false} StableSplice(s: seq<EbNode>, ops: seq<Op>, x: EbNode)
    requires Stable(s, ops + [Ins(x)]) && Sorted(s) && x !in s && x !in Left(ops)
    requires forall e :: e in s ==> e in Left(ops)
    ensures Stable(Splice(s, x), ops + [Ins(x)])
  {
    var now := ops + [Ins(x)];
    assert now[..|ops|] == ops;
    if s != [] && Before(x.bits, s[0].bits) {
      forall e | e in s ensures e.bits != x.bits { LaterIsNot(s, x, e); }
      assert ([x] + s)[1..] == s;
    } else if s != [] {
      assert forall e :: e in s ==> Since(now, e) < |ops|;
      StableSplice(s[1..], ops, x);
      forall e | e in Splice(s[1..], x) && e.bits == s[0].bits ensures Since(now, s[0]) < Since(now, e) {
        SpliceHas(s[1..], x, e);
      }
    }
  }

  lemma LaterIsNot(s: seq<EbNode>, x: EbNode, e: EbNode)
    requires Sorted(s) && s != [] && Before(x.bits, s[0].bits) && e in s
    ensures e.bits != x.bits
  {
    BeforeTotal(x.bits, s[0].bits);
  }

  lemma {:induction false} StableRemove(s: seq<EbNode>, ops: seq<Op>, x: EbNode)
    requires Stable(s, ops)
    ensures Stable(Remove(s, x), ops)
    ensures forall e :: e in Remove(s, x) ==> e in s
  {
    if s != [] && s[0] != x { StableRemove(s[1..], ops, x); }
  }

  lemma {:induction false} StableAgain(s: seq<EbNode>, ops: seq<Op>, x: EbNode)
    requires Stable(s, ops) && x in Left(ops) && forall e :: e in s ==> e in Left(ops)
    ensures Stable(s, ops + [Ins(x)])
  {
    if s != [] {
      assert (ops + [Ins(x)])[..|ops|] == ops;
      assert forall e :: e in s ==> Since(ops + [Ins(x)], e) == Since(ops, e);
      StableAgain(s[1..], ops, x);
    }
  }

  lemma {:induction false} RunIsStable(ops: seq<Op>)
    ensures Stable(RunList(ops, false), ops)
  {
    if ops != [] {
      var before, op := ops[..|ops| - 1], ops[|ops| - 1];
      var s := RunList(before, false);
      assert ops == before + [op];
      RunIsStable(before);
      forall e | e in s ensures e in Left(before) { ListHas(before, e); }
      ListHas(before, op.x);
      RunIsSorted(before, false);
      if op.Ins? && op.x in s {
        StableAgain(s, before, op.x);
      } else if op.Ins? {
        StableLater(s, before, op);
        StableSplice(s, before, op.x);
      } else {
        StableRemove(s, before, op.x);
        ListHas(ops, op.x);
        StableLater(Remove(s, op.x), before, op);
      }
    }
  }

  lemma {:induction false} FirstIsEarliest(s: seq<EbNode>, ops: seq<Op>, w: Bits)
    requires Stable(s, ops)
    ensures var r := FirstWith(s, w); r != null ==> forall e :: e in s && e.bits == w ==> Since(ops, r) <= Since(ops, e)
  {
    if s != [] && s[0].bits != w {
      FirstIsEarliest(s[1..], ops, w);
      assert forall e :: e in s <==> e == s[0] || e in s[1..];
    }
  }

  /** r is the entry inserted first among those with the key w that are there, or null if there is none. */
  ghost predicate FirstLeft(ops: seq<Op>, w: Bits, r: EbNode?)
  {
    if r == null then forall e :: e in Left(ops) ==> e.bits != w
    else
      && r in Left(ops) && r.bits == w
      && forall e :: e in Left(ops) && e.bits == w ==> Since(ops, r) <= Since(ops, e)
  }

  /** r is the entry inserted first among those of the longest prefix that is there and matches k, or null if
      none matches. */
  ghost predicate LongestLeft(ops: seq<Op>, k: Bits, r: EbNode?)
  {
    if r == null then forall e :: e in Left(ops) ==> !Matches(e, k)
    else
      && r in Left(ops) && Matches(r, k)
      && (forall e :: e in Left(ops) && Matches(e, k) ==> |e.bits| <= |r.bits|)
      && (forall e :: e in Left(ops) && e.bits == r.bits ==> Since(ops, r) <= Since(ops, e))
  }

  lemma FirstSurvivor(ops: seq<Op>, w: Bits)
    ensures FirstLeft(ops, w, FirstWith(RunList(ops, false), w))
  {
    var s := RunList(ops, false);
    RunIsStable(ops);
    FirstWithFound(s, w);
    FirstIsEarliest(s, ops, w);
    ListIsLeft(ops);
  }

  lemma LongestSurvivor(ops: seq<Op>, k: Bits, r: EbNode?)
    requires IsLongest(RunList(ops, false), k, r)
    ensures LongestLeft(ops, k, r)
  {
    ListIsLeft(ops);
    if r != null { FirstSurvivor(ops, r.bits); }
  }

  // ---- Runs on trees with unique keys ----

  /** The entry that has the key w: the first one inserted since it was last free. */
  ghost function Holder(ops: seq<Op>, w: Bits): EbNode?
  {
    if ops == [] then null
    else
      var h := Holder(ops[..|ops| - 1], w);
      match ops[|ops| - 1]
      case Ins(x) => if h == null && x.bits == w then x else h
      case Del(x) => if h == x then null else h
  }

  lemma {:induction false} SpliceFirst(s: seq<EbNode>, x: EbNode, w: Bits)
    requires Sorted(s)
    ensures FirstWith(Splice(s, x), w) ==
      if FirstWith(s, w) != null then FirstWith(s, w) else if x.bits == w then x else null
  {
    if s != [] && Before(x.bits, s[0].bits) {
      FirstWithFound(s, w);
      forall e | e in s ensures e.bits != x.bits { LaterIsNot(s, x, e); }
      assert ([x] + s)[1..] == s;
    } else if s != [] {
      SpliceFirst(s[1..], x, w);
      assert ([s[0]] + Splice(s[1..], x))[1..] == Splice(s[1..], x);
    }
  }

  /** Keys are unique in the list of a run on a tree with unique keys. */
  ghost predicate Unique(s: seq<EbNode>)
  {
    forall i, j :: 0 <= i < j < |s| ==> s[i].bits != s[j].bits
  }

  lemma {:induction false} UniqueRemove(s: seq<EbNode>, x: EbNode, w: Bits)
    requires Unique(s)
    ensures Unique(Remove(s, x)) && forall e :: e in Remove(s, x) ==> e in s
    ensures FirstWith(Remove(s, x), w) == if FirstWith(s, w) == x then null else FirstWith(s, w)
  {
    if s != [] {
      var t := s[1..];
      FirstWithFound(t, w);
      FirstWithFound(t, s[0].bits);
      if s[0] != x {
        UniqueRemove(t, x, w);
        var u := Remove(t, x);
        assert Remove(s, x) == [s[0]] + u && ([s[0]] + u)[1..] == u;
        assert forall e :: e in u ==> e.bits != s[0].bits;
      }
    }
  }

  lemma {:induction false} UniqueSplice(s: seq<EbNode>, x: EbNode)
    requires Unique(s) && forall e :: e in s ==> e.bits != x.bits
    ensures Unique(Splice(s, x))
  {
    if s != [] && !Before(x.bits, s[0].bits) {
      UniqueSplice(s[1..], x);
      var t := Splice(s[1..], x);
      forall e | e in t ensures e.bits != s[0].bits {
        SpliceHas(s[1..], x, e);
        assert e != x ==> e in s[1..];
      }
    }
  }

  /** After any run on a tree with unique keys, a lookup by key finds the entry that has it. */
  lemma {:induction false} UniqueHolder(ops: seq<Op>, w: Bits)
    ensures Unique(RunList(ops, true))
    ensures FirstWith(RunList(ops, true), w) == Holder(ops, w)
  {
    if ops != [] {
      var before, op := ops[..|ops| - 1], ops[|ops| - 1];
      var s := RunList(before, true);
      UniqueHolder(before, w);
      if op.Ins? {
        FirstWithFound(s, op.x.bits);
        RunIsSorted(before, true);
        if op.x !in s && FirstWith(s, op.x.bits) == null {
          UniqueSplice(s, op.x);
          SpliceFirst(s, op.x, w);
        }
      } else {
        UniqueRemove(s, op.x, w);
      }
    }
  }
}
