/**
  What the order of the walk is in terms of the keys themselves.
 */
module Orders {
  import opened Basics
  import opened BitStrings
  import opened Integers
  import opened ByteKeys
  import opened EbShapes
  import opened EbRadix
  import opened Eb32
  import opened Eb32Lookup
  import opened Ebis
  import opened Histories

  /** Bytes compared from the first on. */
  predicate BytesBefore(a: seq<byte>, b: seq<byte>)
  {
    b != [] && (a == [] || a[0] < b[0] || (a[0] == b[0] && BytesBefore(a[1..], b[1..])))
  }

  lemma BeforePrefix(p: Bits, a: Bits, b: Bits)
    ensures Before(p + a, p + b) <==> Before(a, b)
  {
    var c := Common(a, b);
    assert (p + a)[..|p| + c] == p + a[..c] && (p + b)[..|p| + c] == p + b[..c];
    CommonIs(p + a, p + b, |p| + c);
  }

  lemma ByteDecides(x: byte, y: byte, a: Bits, b: Bits)
    requires x < y
    ensures Before(IntBits(x, 8) + a, IntBits(y, 8) + b) && !Before(IntBits(y, 8) + b, IntBits(x, 8) + a)
  {
    ByteBound(x);
    ByteBound(y);
    FirstDifference(x, y, 8);
    var u, v := IntBits(x, 8), IntBits(y, 8);
    var c := Common(u, v);
    assert (u + a)[..c] == u[..c] && (v + b)[..c] == v[..c];
    BeforeAt(u + a, v + b, c);
  }

  /** The order of the bits is that of the bytes. */
  lemma {:induction false} BytesInOrder(a: seq<byte>, b: seq<byte>)
    ensures Before(BytesBits(a), BytesBits(b)) <==> BytesBefore(a, b)
  {
    if a != [] && b != [] {
      if a[0] == b[0] {
        BytesInOrder(a[1..], b[1..]);
        BeforePrefix(IntBits(a[0], 8), BytesBits(a[1..]), BytesBits(b[1..]));
      } else if a[0] < b[0] {
        ByteDecides(a[0], b[0], BytesBits(a[1..]), BytesBits(b[1..]));
      } else {
        ByteDecides(b[0], a[0], BytesBits(b[1..]), BytesBits(a[1..]));
      }
    }
  }

  /** A tree of strings is walked in the order of the strings. */
  lemma StringsInOrder(t: Tree, i: nat, j: nat)
    requires Radix(t) && Elastic(t) && AllStr(LeafSet(t)) && i < j < |Leaves(t)|
    ensures !BytesBefore(Leaves(t)[j].bytes, Leaves(t)[i].bytes)
  {
    WalkIsSorted(t);
    LeafSetIsLeaves(t);
    BytesInOrder(Leaves(t)[j].bytes, Leaves(t)[i].bytes);
  }

  /** A tree of integers is walked in the unsigned or signed order of the keys. */
  lemma KeysInOrder(t: Tree, w: nat, signed: bool, i: nat, j: nat)
    requires Radix(t) && Elastic(t) && AllKeyed(LeafSet(t), w, signed) && i < j < |Leaves(t)|
    ensures var a, b := Leaves(t)[i].key, Leaves(t)[j].key;
      && w > 0 && a < Pow2(w) && b < Pow2(w)
      && if signed then Signed(a, w) <= Signed(b, w) else a <= b
  {
    WalkIsSorted(t);
    LeafSetIsLeaves(t);
    var m, n := Leaves(t)[i], Leaves(t)[j];
    assert Keyed(m, w, signed) && Keyed(n, w, signed);
    KeyOrder(Rank(n.key, w, signed), Rank(m.key, w, signed), w);
    if signed { FlipOrder(n.key, m.key, w); FlipOrder(m.key, n.key, w); }
  }
}
