/**
  Lookups in trees of prefixes: the longest one that matches a block of bytes, and an exact one.
 */
module EbmbLookup {
  import opened Basics
  import opened BitStrings
  import opened Integers
  import opened ByteKeys
  import opened EbNodes
  import opened EbShapes
  import opened EbRadix
  import opened EbMemory
  import opened EbRoots
  import opened EbWalks
  import opened Ebmb

  // ---- The specification of the longest match, on the list of entries ----

  /** The prefix e matches the key k. */
  ghost predicate Matches(e: EbNode, k: Bits)
  {
    |e.bits| <= |k| && e.bits == k[..|e.bits|]
  }

  /** r is the first entry of the longest prefix in s that matches k, or null if none does. */
  ghost predicate IsLongest(s: seq<EbNode>, k: Bits, r: EbNode?)
  {
    if r == null then forall e :: e in s ==> !Matches(e, k)
    else
      && r in s && Matches(r, k) && FirstWith(s, r.bits) == r
      && forall e :: e in s && Matches(e, k) ==> |e.bits| <= |r.bits|
  }

  /** Which entry this is. */
  lemma LongestUnique(s: seq<EbNode>, k: Bits, a: EbNode?, b: EbNode?)
    requires IsLongest(s, k, a) && IsLongest(s, k, b)
    ensures a == b
  {
  }

  // ---- The search as a function of the tree ----

  ghost predicate AgreesAt(t: Tree, k: Bits)
    requires t.Node? && !t.k.Dup?
  {
    t.k.p < |k| && t.k.p <= |t.n.bits| && t.n.bits[..t.k.p] == k[..t.k.p]
  }

  ghost function Longest(t: Tree, k: Bits): EbNode?
  {
    match t
    case Leaf(n) => if Matches(n, k) then n else null
    case Node(n, kind, l, r) =>
      if kind.Dup? then (if Matches(n, k) then First(t) else null)
      else if !AgreesAt(t, k) then null
      else if kind.Normal? then Longest(if k[kind.p] then r else l, k)
      else if Longest(r, k) != null then Longest(r, k) else First(l)
  }

  /** Every entry of the tree is shorter than k: the caller's part of the bargain. */
  ghost predicate AllShorter(t: Tree, k: Bits)
  {
    forall e :: e in LeafSet(t) ==> |e.bits| <= |k|
  }

  lemma MatchPrefix(e: EbNode, k: Bits, p: nat)
    requires Matches(e, k) && p <= |e.bits|
    ensures e.bits[..p] == k[..p]
    ensures p < |e.bits| ==> e.bits[p] == k[p]
  {
    assert k[..|e.bits|][..p] == k[..p];
  }

  lemma NoneMatches(t: Tree, k: Bits)
    requires t.Node? && !t.k.Dup? && Radix(t) && Elastic(t) && AllShorter(t, k) && !AgreesAt(t, k)
    ensures forall e :: e in LeafSet(t) ==> !Matches(e, k)
  {
    LeavesDistinct(t);
    FirstIsFirst(t.r);
    assert First(t.r) in LeafSet(t);
    forall e | e in LeafSet(t) ensures !Matches(e, k) {
      if Matches(e, k) { MatchPrefix(e, k, t.k.p); }
    }
  }

  lemma {:induction false} LongestIsLongest(t: Tree, k: Bits)
    requires Radix(t) && Elastic(t) && AllShorter(t, k)
    ensures IsLongest(Leaves(t), k, Longest(t, k))
    decreases t, 1
  {
    LeafSetIsLeaves(t);
    FirstIsFirst(t);
    match t
    case Leaf(_) =>
    case Node(n, kind, l, r) =>
      if kind.Dup? {
        DupTreeKeys(t, kind.d - 1, n.bits);
      } else if !AgreesAt(t, k) {
        NoneMatches(t, k);
      } else if kind.Normal? {
        LongestNormal(t, k);
      } else {
        LongestCover(t, k);
      }
  }

  lemma LongestNormal(t: Tree, k: Bits)
    requires t.Node? && t.k.Normal? && Radix(t) && Elastic(t) && AllShorter(t, k) && AgreesAt(t, k)
    ensures IsLongest(Leaves(t), k, Longest(t, k))
    decreases t, 0
  {
    var u, o := if k[t.k.p] then t.r else t.l, if k[t.k.p] then t.l else t.r;
    LongestIsLongest(u, k);
    LeafSetIsLeaves(t);
    LeafSetIsLeaves(u);
    LeafSetIsLeaves(o);
    var r := Longest(u, k);
    forall e | e in Leaves(o) ensures !Matches(e, k) && (r != null ==> e.bits != r.bits) {
      if Matches(e, k) { MatchPrefix(e, k, t.k.p); }
    }
    if r != null {
      FirstWithAppend(Leaves(t.l), Leaves(t.r), r.bits);
      FirstWithFound(Leaves(o), r.bits);
    }
  }

  lemma LongestCover(t: Tree, k: Bits)
    requires t.Node? && t.k.Cover? && Radix(t) && Elastic(t) && AllShorter(t, k) && AgreesAt(t, k)
    ensures IsLongest(Leaves(t), k, Longest(t, k))
    decreases t, 0
  {
    LongestIsLongest(t.r, k);
    LeafSetIsLeaves(t);
    LeafSetIsLeaves(t.l);
    LeafSetIsLeaves(t.r);
    FirstIsFirst(t.l);
    var p := t.k.p;
    var w := k[..p];
    forall e | e in Leaves(t.l) ensures e.bits == w { assert e.bits == e.bits[..p]; }
    var r := Longest(t.r, k);
    if r != null {
      FirstWithAppend(Leaves(t.l), Leaves(t.r), r.bits);
      FirstWithFound(Leaves(t.l), r.bits);
    }
  }

  // ---- The comparison with a node ----

  lemma LastByte(key: seq<byte>, x: seq<byte>, pos: nat, n: nat)
    requires pos < |key| && pos < |x| && n < 8 && Common(BytesBits(key), BytesBits(x)) >= 8 * pos
    ensures Xor(Shr(key[pos], n), Shr(x[pos], n)) > 1 <==> Common(BytesBits(key), BytesBits(x)) < 8 * pos + 7 - n
    ensures Shr(x[pos], n) % 2 == 1 <==> BytesBits(x)[8 * pos + 7 - n]
  {
    HighBitsOfByte(key, x, pos, n + 1);
    MoreThanOne(key[pos], x[pos], n);
    OneBit(x, pos, n);
  }

  lemma MoreThanOne(a: nat, b: nat, n: nat)
    ensures Xor(Shr(a, n), Shr(b, n)) > 1 <==> Shr(Xor(a, b), n + 1) != 0
  {
    ShrStep(Xor(a, b), n + 1);
    XorShr(a, b, n);
  }

  lemma OneBit(x: seq<byte>, pos: nat, n: nat)
    requires pos < |x| && n < 8
    ensures Shr(x[pos], n) % 2 == 1 <==> BytesBits(x)[8 * pos + 7 - n]
  {
    BitInByte(x, pos, 7 - n);
    BitAt(x[pos], 8, n);
  }

  /** The part of both lookups that compares x with the key of a node at n bits: the whole bytes
      from the first one not yet compared, and then the bits before bit n. */
  method MatchNode(key: seq<byte>, x: seq<byte>, pos0: nat, n: nat) returns (ok: bool, pos: nat, side: bool)
    requires 8 * pos0 <= n < 8 * |key| && n < 8 * |x|
    requires Common(BytesBits(key), BytesBits(x)) >= 8 * pos0
    ensures ok <==> Common(BytesBits(key), BytesBits(x)) >= n
    ensures ok ==> pos == n / 8 && side == BytesBits(x)[n]
  {
    ok, pos, side := false, pos0, false;
    var node_bit: int := 8 * pos + 7 - n;
    while node_bit < 0
      invariant node_bit == 8 * pos + 7 - n <= 7 && pos < |key| && pos < |x|
      invariant Common(BytesBits(key), BytesBits(x)) >= 8 * pos
      decreases -node_bit
    {
      CommonInByte(key, x, pos);
      if key[pos] != x[pos] { return; }
      pos := pos + 1;
      node_bit := node_bit + 8;
    }
    // the byte with the bit of the node, without the bits after it
    LastByte(key, x, pos, node_bit);
    var high := Shr(x[pos], node_bit);
    if Xor(Shr(key[pos], node_bit), high) > 1 { return; }
    ok, side := true, high % 2 == 1;
  }

  // ---- __ebmb_lookup_longest ----

  /** What a lookup needs to know to compare x with the node at the top of t. */
  lemma NodeReady(t: Tree, x: seq<byte>, pos: nat, len: nat)
    requires t.Node? && !t.k.Dup? && Radix(t) && Elastic(t) && AllKeyed(LeafSet(t), len) && |x| >= len
    requires Agreed(t, BytesBits(x), 8 * pos)
    ensures 8 * pos <= t.k.p < 8 * len && Keyed(t.n, len)
    ensures Common(Full(t.n), BytesBits(x)) >= 8 * pos
    ensures AgreesAt(t, BytesBits(x)) <==> Common(Full(t.n), BytesBits(x)) >= t.k.p
  {
    var k, p := BytesBits(x), t.k.p;
    LeavesDistinct(t);
    AgreedPosition(t, k, 8 * pos);
    FirstIsFirst(t.r);
    assert First(t.r) in LeafSet(t) && Keyed(First(t.r), len);
    assert p <= |t.n.bits|;
    assert Full(t.n)[..p] == t.n.bits[..p] && Full(t.n)[..8 * pos] == t.n.bits[..8 * pos];
    CommonAtLeast(Full(t.n), k, p);
    CommonAtLeast(Full(t.n), k, 8 * pos);
  }

  /** The bytes compared at a node are equal in everything below it that can still match. */
  lemma BelowNode(t: Tree, k: Bits, right: bool)
    requires t.Node? && !t.k.Dup? && Radix(t) && Elastic(t) && AgreesAt(t, k)
    ensures Agreed(Below(t, right), k, 8 * (t.k.p / 8))
  {
    var m := 8 * (t.k.p / 8);
    forall e | e in LeafSet(Below(t, right)) ensures m <= |e.bits| && e.bits[..m] == k[..m] {
      Weaken(e.bits, k, t.k.p, m);
    }
  }

  /** check_bits on a whole key tells whether it matches. */
  lemma MatchesInFull(n: EbNode, x: seq<byte>, len: nat)
    requires Keyed(n, len) && |x| >= len
    ensures Matches(n, BytesBits(x)) <==> Common(BytesBits(x), Full(n)) >= n.pfx
  {
    CommonAtLeast(BytesBits(x), Full(n), n.pfx);
  }

  /** What the search for the longest match has left to do: find it in t, or else answer with the
      first entry of the last cover ct. */
  ghost predicate Searching(T: Tree, t: Tree, k: Bits, pos: nat, ct: Option<Tree>)
  {
    && Radix(t) && Elastic(t) && LeafSet(t) <= LeafSet(T) && Agreed(t, k, 8 * pos)
    && Longest(T, k) == if Longest(t, k) != null then Longest(t, k) else if ct.Some? then First(ct.value) else null
  }

  lemma SearchStep(T: Tree, t: Tree, k: Bits, pos: nat, ct: Option<Tree>, right: bool)
    requires Searching(T, t, k, pos, ct) && t.Node? && !t.k.Dup? && AgreesAt(t, k)
    requires right == (t.k.Cover? || k[t.k.p])
    ensures Searching(T, Below(t, right), k, t.k.p / 8, NextCover(t, ct))
  {
    BelowNode(t, k, right);
  }

  ghost function NextCover(t: Tree, ct: Option<Tree>): Option<Tree>
    requires t.Node?
  {
    if t.k.Cover? then Some(t.l) else ct
  }

  /** The comparison of x with the node at the top of t. */
  method MatchTop(node: EbNode, n: nat, x: seq<byte>, pos0: nat, ghost k: Bits, ghost len: nat, ghost t: Tree)
    returns (ok: bool, pos: nat, side: bool)
    requires t.Node? && !t.k.Dup? && Radix(t) && Elastic(t) && AllKeyed(LeafSet(t), len) && |x| >= len
    requires k == BytesBits(x) && Agreed(t, k, 8 * pos0) && t.n == node && n == t.k.p
    ensures ok <==> AgreesAt(t, k)
    ensures ok ==> pos == n / 8 < len && n < |k| && side == k[n]
  {
    NodeReady(t, x, pos0, len);
    ok, pos, side := MatchNode(node.bytes, x, pos0, n);
  }

  /** One round of the descent: whether x goes on matching at the node, and where it goes. */
  method LongestRound(node: EbNode, node_bit: nat, x: seq<byte>, pos0: nat, ghost k: Bits, ghost len: nat,
      ghost T: Tree, ghost t: Tree, ghost ct: Option<Tree>)
    returns (ok: bool, pos: nat, side: bool)
    requires k == BytesBits(x) && Searching(T, t, k, pos0, ct) && AllKeyed(LeafSet(T), len) && |x| >= len
    requires t.Node? && !t.k.Dup? && t.n == node && node_bit == BitField(Prefixes, t.k)
    ensures node_bit % 2 == 0 <==> t.k.Cover?
    ensures !ok ==> Longest(t, k) == null
    ensures ok ==> pos < len && (t.k.Cover? ==> side)
    ensures ok ==> Searching(T, Below(t, side), k, pos, NextCover(t, ct))
  {
    ok, pos, side := MatchTop(node, node_bit / 2, x, pos0, k, len, t);
    if ok {
      if node_bit % 2 == 0 { side := EB_RGHT; }
      SearchStep(T, t, k, pos0, ct, side);
    }
  }

  ghost predicate CoverAt(M: Mem, cover: Troot, ct: Option<Tree>, up: Troot)
  {
    if ct.None? then cover == NULL else cover == At(ct.value) && Rep(M, Prefixes, ct.value, up)
  }

  /** The descent of the longest match, to a leaf, a tree of duplicates or a node that differs. */
  method DescendLongest(root: EbNode, x: seq<byte>, ghost k: Bits, ghost len: nat, ghost T: Tree, ghost S: set<EbNode>)
    returns (troot: Troot, cover: Troot, pos: nat, missed: bool, ghost t: Tree, ghost up: Troot,
      ghost ct: Option<Tree>, ghost cup: Troot)
    requires k == BytesBits(x) && Radix(T) && Elastic(T) && AllKeyed(LeafSet(T), len) && |x| >= len
    requires root in S && root.left == At(T) && Rep(Snap(S), Prefixes, T, Troot(root, EB_LEFT))
    ensures Searching(T, t, k, pos, ct) && troot == At(t) && Rep(Snap(S), Prefixes, t, up)
    ensures CoverAt(Snap(S), cover, ct, cup)
    ensures if missed then Longest(t, k) == null else (t.Leaf? || t.k.Dup?) && pos < len
  {
    ghost var M := Snap(S);
    t, up, ct, cup := T, Troot(root, EB_LEFT), None, NULL;
    troot, cover, pos, missed := root.left, NULL, 0, false;
    while true
      invariant Snap(S) == M && pos < len
      invariant Searching(T, t, k, pos, ct) && troot == At(t) && Rep(M, Prefixes, t, up)
      invariant CoverAt(M, cover, ct, cup)
      decreases t
    {
      if troot.tag == EB_LEAF { break; }
      var node := troot.to;
      assert M[node] == CellOf(node);
      if node.bit < 0 { break; }
      var ok, next, side;
      ok, next, side := LongestRound(node, node.bit, x, pos, k, len, T, t, ct);
      assert Snap(S) == M;
      if !ok { missed := true; break; }
      assert Searching(T, Below(t, side), k, next, NextCover(t, ct));
      if node.bit % 2 == 0 {
        // the covering prefixes are the answer if no longer one matches
        cover, cup := node.left, Troot(node, EB_LEFT);
      }
      troot := if side == EB_LEFT then node.left else node.right;
      pos, ct, up, t := next, NextCover(t, ct), Troot(node, side), Below(t, side);
    }
  }

  /** The end of the longest match: the entry reached if it matches, or the last cover's first. */
  method EndLongest(x: seq<byte>, troot: Troot, cover: Troot, pos: nat, missed: bool, ghost k: Bits, ghost len: nat,
      ghost t: Tree, ghost up: Troot, ghost ct: Option<Tree>, ghost cup: Troot, ghost S: set<EbNode>)
    returns (r: EbNode?)
    requires k == BytesBits(x) && |x| >= len && Elastic(t) && AllKeyed(LeafSet(t), len) && Agreed(t, k, 8 * pos)
    requires troot == At(t) && Rep(Snap(S), Prefixes, t, up) && CoverAt(Snap(S), cover, ct, cup)
    requires if missed then Longest(t, k) == null else (t.Leaf? || t.k.Dup?) && pos < len
    ensures r == if Longest(t, k) != null then Longest(t, k) else if ct.Some? then First(ct.value) else null
  {
    if !missed {
      var node := troot.to;
      EndReady(t, x, pos, len);
      MatchesInFull(node, x, len);
      var differs := CheckBits(x, node.bytes, pos, node.pfx);
      assert Snap(S) == old(Snap(S));
      if differs == 0 {
        r := WalkDown(troot, EB_LEFT, Prefixes, Some(t), up, S);
        return r;
      }
    }
    r := WalkDown(cover, EB_LEFT, Prefixes, ct, cup, S);
  }

  /** __ebmb_lookup_longest: the first entry of the longest prefix that matches x. */
  method LookupLongest(tree: EbTree, x: seq<byte>, ghost len: nat) returns (r: EbNode?)
    requires PrefixTree(tree, len) && |x| >= len
    ensures IsLongest(tree.Contents(), BytesBits(x), r)
  {
    EmptyOrNot(tree);
    if tree.root.left == NULL { return null; }
    ghost var T, S, k := tree.shape.value, tree.Foot(), BytesBits(x);
    ghost var t, up, ct, cup;
    var troot, cover, pos, missed;
    assert AllShorter(T, k);
    LongestIsLongest(T, k);
    troot, cover, pos, missed, t, up, ct, cup := DescendLongest(tree.root, x, k, len, T, S);
    r := EndLongest(x, troot, cover, pos, missed, k, len, t, up, ct, cup, S);
  }

  lemma EndReady(t: Tree, x: seq<byte>, pos: nat, len: nat)
    requires Elastic(t) && AllKeyed(LeafSet(t), len) && |x| >= len && Agreed(t, BytesBits(x), 8 * pos)
    ensures Keyed(t.n, len) && Common(BytesBits(x), Full(t.n)) >= 8 * pos
  {
    LeavesDistinct(t);
    assert Full(t.n)[..8 * pos] == t.n.bits[..8 * pos];
    CommonAtLeast(BytesBits(x), Full(t.n), 8 * pos);
  }

  // ---- __ebmb_lookup_prefix ----

  /** The search for the key w, the first pfx bits of k, can go on in t. */
  ghost predicate Within(T: Tree, t: Tree, k: Bits, pos: nat, w: Bits)
  {
    && Radix(t) && Elastic(t) && LeafSet(t) <= LeafSet(T) && Agreed(t, k, 8 * pos)
    && FirstWith(Leaves(t), w) == FirstWith(Leaves(T), w)
  }

  lemma PrefixMisses(t: Tree, k: Bits, w: Bits)
    requires t.Node? && !t.k.Dup? && Radix(t) && Elastic(t) && AllShorter(t, k) && !AgreesAt(t, k) && w <= k
    ensures FirstWith(Leaves(t), w) == null
  {
    NoneMatches(t, k);
    LeafSetIsLeaves(t);
    FirstWithFound(Leaves(t), w);
  }

  lemma PrefixStep(T: Tree, t: Tree, k: Bits, pos: nat, w: Bits, right: bool)
    requires Within(T, t, k, pos, w) && t.Node? && !t.k.Dup? && AgreesAt(t, k) && w <= k
    requires right == if t.k.Cover? then |w| != t.k.p else k[t.k.p]
    ensures Within(T, Below(t, right), k, t.k.p / 8, w)
  {
    BelowNode(t, k, right);
    var o := if right then t.l else t.r;
    LeafSetIsLeaves(o);
    assert forall e :: e in Leaves(o) ==> e.bits != w;
    FirstWithFound(Leaves(o), w);
    FirstWithAppend(Leaves(t.l), Leaves(t.r), w);
  }

  method PrefixRound(node: EbNode, node_bit: nat, x: seq<byte>, pos0: nat, pfx: nat, ghost k: Bits, ghost w: Bits,
      ghost len: nat, ghost T: Tree, ghost t: Tree)
    returns (ok: bool, pos: nat, side: bool)
    requires k == BytesBits(x) && w <= k && |w| == pfx && Within(T, t, k, pos0, w) && AllKeyed(LeafSet(T), len)
      && |x| >= len
    requires t.Node? && !t.k.Dup? && t.n == node && node_bit == BitField(Prefixes, t.k)
    ensures !ok ==> FirstWith(Leaves(t), w) == null
    ensures ok ==> pos < len && Within(T, Below(t, side), k, pos, w)
  {
    ok, pos, side := MatchTop(node, node_bit / 2, x, pos0, k, len, t);
    if ok {
      if node_bit % 2 == 0 {
        // the prefix looked for is that of the cover node, or longer
        side := if node_bit / 2 == pfx then EB_LEFT else EB_RGHT;
      }
      PrefixStep(T, t, k, pos0, w, side);
    } else {
      PrefixMisses(t, k, w);
    }
  }

  /** __ebmb_lookup_prefix: the first entry of exactly the prefix of pfx bits of x. */
  method LookupPrefix(tree: EbTree, x: seq<byte>, pfx: nat, ghost len: nat) returns (r: EbNode?)
    requires PrefixTree(tree, len) && |x| >= len && pfx <= 8 * |x|
    ensures r == FirstWith(tree.Contents(), BytesBits(x)[..pfx])
  {
    EmptyOrNot(tree);
    if tree.root.left == NULL { return null; }
    r := FindPrefix(tree.root, x, pfx, BytesBits(x), len, tree.shape.value, tree.Foot());
  }

  method FindPrefix(root: EbNode, x: seq<byte>, pfx: nat, ghost k: Bits, ghost len: nat, ghost T: Tree,
      ghost S: set<EbNode>)
    returns (r: EbNode?)
    requires k == BytesBits(x) && pfx <= |k| && Radix(T) && Elastic(T) && AllKeyed(LeafSet(T), len) && |x| >= len
    requires root in S && root.left == At(T) && Rep(Snap(S), Prefixes, T, Troot(root, EB_LEFT))
    ensures r == FirstWith(Leaves(T), k[..pfx])
  {
    ghost var M, t, up, w := Snap(S), T, Troot(root, EB_LEFT), k[..pfx];
    var troot := root.left;
    var pos: nat := 0;
    LeavesDistinct(T);
    while true
      invariant Snap(S) == M && pos < len
      invariant Within(T, t, k, pos, w) && troot == At(t) && Rep(M, Prefixes, t, up)
      decreases t
    {
      var node := troot.to;
      assert M[node] == CellOf(node);
      if t.Node? { DupBit(t); }
      if troot.tag == EB_LEAF || node.bit < 0 {
        r := EndPrefix(x, pfx, troot, pos, k, len, t, up, S);
        return r;
      }
      var ok, next, side;
      ok, next, side := PrefixRound(node, node.bit, x, pos, pfx, k, w, len, T, t);
      assert Snap(S) == M;
      if !ok { return null; }
      troot := if side == EB_LEFT then node.left else node.right;
      pos, up, t := next, Troot(node, side), Below(t, side);
    }
  }

  method EndPrefix(x: seq<byte>, pfx: nat, troot: Troot, pos: nat, ghost k: Bits, ghost len: nat,
                   ghost t: Tree, ghost up: Troot, ghost S: set<EbNode>) returns (r: EbNode?)
    requires k == BytesBits(x) && pfx <= |k| && |x| >= len && Radix(t) && Elastic(t)
    requires AllKeyed(LeafSet(t), len) && Agreed(t, k, 8 * pos)
    requires troot == At(t) && Rep(Snap(S), Prefixes, t, up) && (t.Leaf? || t.k.Dup?) && pos < len
    ensures r == FirstWith(Leaves(t), k[..pfx])
  {
    var node := troot.to;
    StopAtFinds(t, k[..pfx]);
    EndReady(t, x, pos, len);
    if node.pfx != pfx { return null; }
    MatchesInFull(node, x, len);
    var differs := CheckBits(x, node.bytes, pos, node.pfx);
    assert Snap(S) == old(Snap(S));
    if differs != 0 { return null; }
    r := WalkDown(troot, EB_LEFT, Prefixes, Some(t), up, S);
  }
}
