/**
  Keys as the trees order them: strings of bits, most significant bit first.
  The integer, string and prefix layers each turn their own keys into such a string,
  so that one theory of the radix tree serves all of them.
 */
module BitStrings {

  type Bits = seq<bool>

  /** Length of the longest common prefix. */
  function Common(a: Bits, b: Bits): (c: nat)
    ensures c <= |a| && c <= |b| && a[..c] == b[..c]
    ensures c < |a| && c < |b| ==> a[c] != b[c]
  {
    if a != [] && b != [] && a[0] == b[0] then
      var c := 1 + Common(a[1..], b[1..]);
      assert a[..c] == [a[0]] + a[1..][..c - 1];
      assert b[..c] == [b[0]] + b[1..][..c - 1];
      c
    else 0
  }

  /** Agreement on p bits carries over to fewer bits and to each bit. */
  lemma Weaken(a: Bits, b: Bits, p: nat, q: nat)
    requires q <= p <= |a| && p <= |b| && a[..p] == b[..p]
    ensures a[..q] == b[..q]
    ensures q < p ==> a[q] == b[q]
  {
    assert a[..q] == a[..p][..q];
    assert b[..q] == b[..p][..q];
    assert q < p ==> a[q] == a[..p][q] && b[q] == b[..p][q];
  }

  /** The three ways a common prefix of length c can end determine it. */
  lemma CommonIs(a: Bits, b: Bits, c: nat)
    requires c <= |a| && c <= |b| && a[..c] == b[..c]
    requires c == |a| || c == |b| || a[c] != b[c]
    ensures Common(a, b) == c
  {
    var d := Common(a, b);
    if d < c { Weaken(a, b, c, d); }
    if c < d { Weaken(a, b, d, c); }
  }

  lemma CommonSym(a: Bits, b: Bits)
    ensures Common(a, b) == Common(b, a)
  {
    CommonIs(b, a, Common(a, b));
  }

  lemma CommonSelf(a: Bits)
    ensures Common(a, a) == |a|
  {
    CommonIs(a, a, |a|);
  }

  /** Agreement on p bits is the same as a common prefix of at least p bits. */
  lemma CommonAtLeast(a: Bits, b: Bits, p: nat)
    requires p <= |a| && p <= |b|
    ensures Common(a, b) >= p <==> a[..p] == b[..p]
  {
    var c := Common(a, b);
    if c >= p { Weaken(a, b, c, p); }
    if a[..p] == b[..p] && c < p { Weaken(a, b, p, c); }
  }

  /** Lexicographic order; a proper prefix comes before what it is a prefix of. */
  predicate Before(a: Bits, b: Bits)
  {
    var c := Common(a, b);
    c < |b| && (c == |a| || !a[c])
  }

  lemma BeforeAt(a: Bits, b: Bits, c: nat)
    requires c <= |a| && c < |b| && a[..c] == b[..c]
    requires c == |a| || (!a[c] && b[c])
    ensures Before(a, b) && !Before(b, a) && a != b
  {
    CommonIs(a, b, c);
    CommonIs(b, a, c);
  }

  lemma NotBeforeSelf(a: Bits)
    ensures !Before(a, a)
  {
    CommonSelf(a);
  }

  /** Before is a strict total order. */
  lemma BeforeTotal(a: Bits, b: Bits)
    ensures Before(a, b) || Before(b, a) || a == b
    ensures !(Before(a, b) && Before(b, a))
  {
    CommonSym(a, b);
    var c := Common(a, b);
    if c == |a| && c == |b| {
      assert a == a[..c] && b == b[..c];
    }
  }
}
