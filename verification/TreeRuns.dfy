/**
  Runs on trees in memory: whatever is inserted and deleted, the tree is the one that the functions
  on trees and lists describe, and so the lookups answer with the entries that are to be found.
 */
module TreeRuns {
  import opened Basics
  import opened ByteKeys
  import opened EbNodes
  import opened EbShapes
  import opened EbRadix
  import opened EbMemory
  import opened EbRoots
  import opened Eb32Lookup
  import opened EbmbLookup
  import opened Histories
  import opened Integers
  import Ebis

  /** The kinds of trees: of unsigned and signed integers of w bits, of prefixes of blocks of len bytes, of strings. */
  datatype Family = Unsigned(w: nat) | Signed(w: nat) | Prefix(len: nat) | Str

  ghost function LayerOf(f: Family): Layer
  {
    match f
    case Unsigned(w) => Scalar(w)
    case Signed(w) => Scalar(w)
    case Prefix(_) => Prefixes
    case Str => Strings
  }

  ghost predicate HasKey(x: EbNode, f: Family)
  {
    match f
    case Unsigned(w) => Eb32.Keyed(x, w, false)
    case Signed(w) => Eb32.Keyed(x, w, true)
    case Prefix(len) => Ebmb.Keyed(x, len)
    case Str => Ebis.StrKeyed(x)
  }

  ghost predicate TreeOf(tree: EbTree, f: Family)
    reads tree, tree.Foot()
  {
    match f
    case Unsigned(w) => Eb32.IntTree(tree, w, false)
    case Signed(w) => Eb32.IntTree(tree, w, true)
    case Prefix(len) => Ebmb.PrefixTree(tree, len)
    case Str => Ebis.StringTree(tree)
  }

  /** Of the entries in U just those in the tree are linked. */
  ghost predicate Ready(tree: EbTree, f: Family, U: set<EbNode>)
    reads tree, tree.Foot(), U
  {
    && TreeOf(tree, f) && tree.Entries() <= U && tree.root !in U
    && (forall x :: x in U ==> HasKey(x, f))
    && forall x :: x in U && x !in tree.Entries() ==> x.leaf_p == NULL
  }

  /** The insertion of each kind of tree. */
  method InsertInto(tree: EbTree, x: EbNode, f: Family) returns (r: EbNode)
    requires TreeOf(tree, f) && x !in tree.Foot() && HasKey(x, f)
    modifies tree`shape, x`left, x`right, x`node_p, x`leaf_p, x`bit
    modifies tree.Foot()`left, tree.Foot()`right, tree.Foot()`node_p, tree.Foot()`leaf_p, tree.Foot()`bit
    ensures TreeOf(tree, f) && tree.Unique() == old(tree.Unique())
    ensures Inserted(old(tree.Unique()), old(tree.Contents()), x, r, tree.Contents())
    ensures tree.Entries() == old(tree.Entries()) + if r == x then {x} else {}
    ensures tree.shape == ShapeAfter(old(tree.shape), x, r) && (r != x ==> x.leaf_p == old(x.leaf_p))
  {
    match f
    case Unsigned(w) => r := Eb32.Insert32(tree, x, w);
    case Signed(w) => r := Eb32.InsertSigned(tree, x, w);
    case Prefix(len) => r := Ebmb.InsertPrefix(tree, x, len);
    case Str => r := Ebis.InsertString(tree, x);
  }

  /** A linked entry has a parent. */
  lemma LinkedHasParent(tree: EbTree, x: EbNode)
    requires tree.Valid() && x in tree.Entries()
    ensures x.leaf_p.to != null
  {
    LeafParent(Snap(tree.Foot()), tree.layer, tree.root, tree.shape.value, x);
  }

  lemma StepIs(before: Option<Tree>, unique: bool, x: EbNode, r: EbNode, after: seq<EbNode>)
    requires Inserted(unique, Entries(before), x, r, after) && (before.Some? ==> x !in LeafSet(before.value))
    ensures ShapeAfter(before, x, r) == TreeStep(before, unique, Ins(x))
  {
    if before.Some? {
      FirstWithFound(Leaves(before.value), x.bits);
      LeafSetIsLeaves(before.value);
    }
  }

  /** An insertion, unless the entry is linked. */
  method InsertOnce(tree: EbTree, x: EbNode, f: Family, ghost U: set<EbNode>)
    requires Ready(tree, f, U) && x in U
    modifies tree`shape
    modifies (U + {tree.root})`left, (U + {tree.root})`right, (U + {tree.root})`node_p, (U + {tree.root})`leaf_p,
      (U + {tree.root})`bit
    ensures Ready(tree, f, U) && tree.Unique() == old(tree.Unique())
    ensures tree.shape == TreeStep(old(tree.shape), old(tree.Unique()), Ins(x))
  {
    if x in tree.Entries() { LinkedHasParent(tree, x); }
    if x.leaf_p.to == null {
      ghost var before := tree.shape;
      var r := InsertInto(tree, x, f);
      StepIs(before, old(tree.Unique()), x, r, tree.Contents());
    }
  }

  method DeleteOnce(tree: EbTree, x: EbNode, f: Family, ghost U: set<EbNode>)
    requires Ready(tree, f, U) && x in U
    modifies tree`shape
    modifies (U + {tree.root})`left, (U + {tree.root})`right, (U + {tree.root})`node_p, (U + {tree.root})`leaf_p,
      (U + {tree.root})`bit
    ensures Ready(tree, f, U) && tree.Unique() == old(tree.Unique())
    ensures tree.shape == TreeStep(old(tree.shape), old(tree.Unique()), Del(x))
  {
    ghost var entries := tree.Entries();
    var moved;
    ghost var c, u;
    moved, c, u := tree.Delete(x);
    assert tree.Entries() == entries - {x};
  }

  method Step(tree: EbTree, op: Op, f: Family, ghost U: set<EbNode>)
    requires Ready(tree, f, U) && op.x in U
    modifies tree`shape
    modifies (U + {tree.root})`left, (U + {tree.root})`right, (U + {tree.root})`node_p, (U + {tree.root})`leaf_p,
      (U + {tree.root})`bit
    ensures Ready(tree, f, U) && tree.Unique() == old(tree.Unique())
    ensures tree.shape == TreeStep(old(tree.shape), old(tree.Unique()), op)
  {
    match op
    case Ins(x) => InsertOnce(tree, x, f, U);
    case Del(x) => DeleteOnce(tree, x, f, U);
  }

  /** Any run, from an empty tree on. */
  method Run(tree: EbTree, ops: seq<Op>, f: Family, ghost U: set<EbNode>)
    requires Ready(tree, f, U) && tree.shape == None && forall i :: 0 <= i < |ops| ==> ops[i].x in U
    modifies tree`shape
    modifies (U + {tree.root})`left, (U + {tree.root})`right, (U + {tree.root})`node_p, (U + {tree.root})`leaf_p,
      (U + {tree.root})`bit
    ensures TreeOf(tree, f) && tree.Unique() == old(tree.Unique())
    ensures tree.shape == RunTree(ops, tree.Unique())
    ensures tree.Contents() == RunList(ops, tree.Unique())
  {
    for i := 0 to |ops|
      invariant Ready(tree, f, U) && tree.Unique() == old(tree.Unique())
      invariant tree.shape == RunTree(ops[..i], tree.Unique())
    {
      assert ops[..i + 1][..i] == ops[..i];
      Step(tree, ops[i], f, U);
    }
    assert ops[..|ops|] == ops;
    RunRefines(ops, tree.Unique());
  }

  // ---- What lookups find after a run ----

  /** The entries of a run, none of them linked yet. */
  ghost predicate Unlinked(ops: seq<Op>, f: Family, U: set<EbNode>)
    reads U
  {
    && (forall i :: 0 <= i < |ops| ==> ops[i].x in U)
    && forall x :: x in U ==> HasKey(x, f) && x.leaf_p == NULL
  }

  method NewTree(ops: seq<Op>, unique: bool, f: Family, ghost U: set<EbNode>) returns (tree: EbTree)
    requires Unlinked(ops, f, U)
    modifies U`left, U`right, U`node_p, U`leaf_p, U`bit
    ensures fresh(tree) && fresh(tree.root) && TreeOf(tree, f) && tree.Unique() == unique
    ensures tree.shape == RunTree(ops, unique) && tree.Contents() == RunList(ops, unique)
  {
    tree := new EbTree(unique, LayerOf(f));
    Run(tree, ops, f, U);
  }

  lemma {:induction false} LeftInOps(ops: seq<Op>, U: set<EbNode>)
    requires forall i :: 0 <= i < |ops| ==> ops[i].x in U
    ensures Left(ops) <= U
  {
    if ops != [] { LeftInOps(ops[..|ops| - 1], U); }
  }

  /** r is the entry with the integer key x that was inserted first among those that are there, or null if there
      is none. */
  ghost predicate FirstIntegerLeft(ops: seq<Op>, x: nat, r: EbNode?)
  {
    if r == null then forall e :: e in Left(ops) ==> e.key != x
    else r in Left(ops) && r.key == x && forall e :: e in Left(ops) && e.key == x ==> Since(ops, r) <= Since(ops, e)
  }

  lemma IntegerLeft(ops: seq<Op>, x: nat, w: nat, signed: bool, U: set<EbNode>)
    requires w > 0 && x < Pow2(w) && Unlinked(ops, if signed then Signed(w) else Unsigned(w), U)
    ensures FirstIntegerLeft(ops, x, FirstKey(RunList(ops, false), x))
  {
    var k := IntBits(Eb32.Rank(x, w, signed), w);
    LeftInOps(ops, U);
    ListIsLeft(ops);
    FirstKeyIsFirstWith(RunList(ops, false), x, w, signed);
    FirstSurvivor(ops, k);
    forall e | e in Left(ops) ensures e.key == x <==> e.bits == k { SameKey(e, x, w, signed); }
  }

  /** __eb32_lookup after any run. */
  method IntegerAfter(ops: seq<Op>, x: nat, w: nat, ghost U: set<EbNode>) returns (r: EbNode?)
    requires w > 0 && x < Pow2(w) && Unlinked(ops, Unsigned(w), U)
    modifies U`left, U`right, U`node_p, U`leaf_p, U`bit
    ensures FirstIntegerLeft(ops, x, r)
  {
    IntegerLeft(ops, x, w, false, U);
    var tree := NewTree(ops, false, Unsigned(w), U);
    r := Lookup32(tree, x, w);
  }

  /** __eb32i_lookup after any run. */
  method SignedAfter(ops: seq<Op>, x: nat, w: nat, ghost U: set<EbNode>) returns (r: EbNode?)
    requires w > 0 && x < Pow2(w) && Unlinked(ops, Signed(w), U)
    modifies U`left, U`right, U`node_p, U`leaf_p, U`bit
    ensures FirstIntegerLeft(ops, x, r)
  {
    IntegerLeft(ops, x, w, true, U);
    var tree := NewTree(ops, false, Signed(w), U);
    r := LookupSigned(tree, x, w);
  }

  /** __ebmb_lookup_longest after any run. */
  method LongestAfter(ops: seq<Op>, x: seq<byte>, len: nat, ghost U: set<EbNode>) returns (r: EbNode?)
    requires |x| >= len && Unlinked(ops, Prefix(len), U)
    modifies U`left, U`right, U`node_p, U`leaf_p, U`bit
    ensures LongestLeft(ops, BytesBits(x), r)
  {
    var tree := NewTree(ops, false, Prefix(len), U);
    r := LookupLongest(tree, x, len);
    LongestSurvivor(ops, BytesBits(x), r);
  }

  /** __ebmb_lookup_prefix after any run. */
  method PrefixAfter(ops: seq<Op>, x: seq<byte>, pfx: nat, len: nat, ghost U: set<EbNode>) returns (r: EbNode?)
    requires |x| >= len && pfx <= 8 * |x| && Unlinked(ops, Prefix(len), U)
    modifies U`left, U`right, U`node_p, U`leaf_p, U`bit
    ensures FirstLeft(ops, BytesBits(x)[..pfx], r)
  {
    var tree := NewTree(ops, false, Prefix(len), U);
    r := LookupPrefix(tree, x, pfx, len);
    FirstSurvivor(ops, BytesBits(x)[..pfx]);
  }

  /** r is the entry with the string x that was inserted first among those that are there, or null. */
  ghost predicate FirstStringLeft(ops: seq<Op>, x: seq<byte>, r: EbNode?)
  {
    if r == null then forall e :: e in Left(ops) ==> e.bytes != x
    else r in Left(ops) && r.bytes == x && forall e :: e in Left(ops) && e.bytes == x ==> Since(ops, r) <= Since(ops, e)
  }

  /** __ebis_lookup after any run. */
  method StringAfter(ops: seq<Op>, x: seq<byte>, ghost U: set<EbNode>) returns (r: EbNode?)
    requires CString(x) && Unlinked(ops, Str, U)
    modifies U`left, U`right, U`node_p, U`leaf_p, U`bit
    ensures FirstStringLeft(ops, x, r)
  {
    LeftInOps(ops, U);
    FirstSurvivor(ops, BytesBits(x));
    forall e | e in Left(ops) ensures e.bytes == x <==> e.bits == BytesBits(x) {
      if e.bits == BytesBits(x) { BytesInjective(e.bytes, x); }
    }
    var tree := NewTree(ops, false, Str, U);
    r := Ebis.LookupString(tree, x);
  }

  /** __ebis_lookup after any run on a tree with unique keys: the entry that has taken the string. */
  method UniqueStringAfter(ops: seq<Op>, x: seq<byte>, ghost U: set<EbNode>) returns (r: EbNode?)
    requires CString(x) && Unlinked(ops, Str, U)
    modifies U`left, U`right, U`node_p, U`leaf_p, U`bit
    ensures r == Holder(ops, BytesBits(x))
  {
    UniqueHolder(ops, BytesBits(x));
    var tree := NewTree(ops, true, Str, U);
    r := Ebis.LookupString(tree, x);
  }
}
