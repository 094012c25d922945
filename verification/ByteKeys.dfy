/**
  Keys held in bytes, and the functions that compare them: whole bytes first, then the bit.
 */
module ByteKeys {
  import opened Basics
  import opened BitStrings
  import opened Integers

  /** The bits of a block of bytes: low bit numbers are the high positions in a byte. */
  function BytesBits(b: seq<byte>): (r: Bits)
    ensures |r| == 8 * |b|
  {
    if b == [] then [] else IntBits(b[0], 8) + BytesBits(b[1..])
  }

  lemma {:induction false} ByteAt(b: seq<byte>, i: nat)
    requires i < |b|
    ensures BytesBits(b)[8 * i..8 * i + 8] == IntBits(b[i], 8)
    ensures BytesBits(b)[..8 * i] == BytesBits(b[..i])
  {
    if i > 0 {
      ByteAt(b[1..], i - 1);
      assert b[..i][1..] == b[1..][..i - 1];
      assert BytesBits(b)[8 * i..8 * i + 8] == BytesBits(b[1..])[8 * (i - 1)..8 * (i - 1) + 8];
      assert BytesBits(b)[..8 * i] == IntBits(b[0], 8) + BytesBits(b[1..])[..8 * (i - 1)];
    }
  }

  lemma BitInByte(b: seq<byte>, i: nat, j: nat)
    requires i < |b| && j < 8
    ensures BytesBits(b)[8 * i + j] == IntBits(b[i], 8)[j]
  {
    ByteAt(b, i);
    assert BytesBits(b)[8 * i..8 * i + 8][j] == BytesBits(b)[8 * i + j];
  }

  lemma ByteBound(v: byte)
    ensures v < Pow2(8)
  {
    assert Pow2(2) == 4 && Pow2(4) == 16;
    assert Pow2(8) == 256 by { assert Pow2(6) == 64; }
  }

  /** How far two strings of bits agree, seen from n on. */
  lemma CommonFrom(a: Bits, b: Bits, n: nat, u: Bits, v: Bits)
    requires n + |u| <= |a| && n + |v| <= |b| && |u| == |v|
    requires a[..n] == b[..n] && a[n..n + |u|] == u && b[n..n + |v|] == v
    ensures if u == v then Common(a, b) >= n + |u| else Common(a, b) == n + Common(u, v) < n + |u|
  {
    var c := Common(u, v);
    Glue(a, b, n, u, v, c);
    if u == v {
      CommonSelf(u);
      CommonAtLeast(a, b, n + c);
    } else {
      if c == |u| { assert u == u[..c] && v == v[..c]; }
      CommonIs(a, b, n + c);
    }
  }

  lemma Glue(a: Bits, b: Bits, n: nat, u: Bits, v: Bits, c: nat)
    requires n + |u| <= |a| && n + |v| <= |b| && |u| == |v|
    requires a[..n] == b[..n] && a[n..n + |u|] == u && b[n..n + |v|] == v
    requires c <= |u| && u[..c] == v[..c]
    ensures a[..n + c] == b[..n + c]
    ensures c < |u| ==> a[n + c] == u[c] && b[n + c] == v[c]
  {
    assert a[..n + c] == a[..n] + a[n..n + |u|][..c];
    assert b[..n + c] == b[..n] + b[n..n + |v|][..c];
  }

  /** Two blocks that agree on whole bytes: how far they agree in the next byte. */
  lemma CommonInByte(a: seq<byte>, b: seq<byte>, i: nat)
    requires i < |a| && i < |b| && Common(BytesBits(a), BytesBits(b)) >= 8 * i
    ensures a[i] == b[i] ==> Common(BytesBits(a), BytesBits(b)) >= 8 * i + 8
    ensures a[i] != b[i] ==> Xor(a[i], b[i]) > 0 && 1 <= Fls(Xor(a[i], b[i])) <= 8
    ensures a[i] != b[i] ==> Common(BytesBits(a), BytesBits(b)) == 8 * i + 8 - Fls(Xor(a[i], b[i]))
  {
    CommonAtLeast(BytesBits(a), BytesBits(b), 8 * i);
    ByteAt(a, i);
    ByteAt(b, i);
    ByteBound(a[i]);
    ByteBound(b[i]);
    CommonFrom(BytesBits(a), BytesBits(b), 8 * i, IntBits(a[i], 8), IntBits(b[i], 8));
    if a[i] != b[i] {
      FirstDifference(a[i], b[i], 8);
      if IntBits(a[i], 8) == IntBits(b[i], 8) { BitsInjective(a[i], b[i], 8); }
    }
  }

  /** equal_bits: the number of equal bits if it is below len, and len or a little more otherwise.
      The bits of the whole bytes before ignore are not looked at. */
  method EqualBits(a: seq<byte>, b: seq<byte>, ignore_: nat, len: nat) returns (ignore: nat)
    requires len <= 8 * |a| && len <= 8 * |b|
    requires 8 * (ignore_ / 8) < len ==> Common(BytesBits(a), BytesBits(b)) >= 8 * (ignore_ / 8)
    ensures var c := Common(BytesBits(a), BytesBits(b)); var start := 8 * (ignore_ / 8);
      if start >= len then ignore == start
      else if c < len then ignore == c
      else len <= ignore <= c
  {
    var pos := ignore_ / 8;
    ignore := 8 * pos;
    while ignore < len
      invariant ignore == 8 * pos
      invariant ignore < len || pos > ignore_ / 8 ==> Common(BytesBits(a), BytesBits(b)) >= ignore
      invariant 8 * (ignore_ / 8) < len ==> Common(BytesBits(a), BytesBits(b)) >= ignore
      invariant 8 * (ignore_ / 8) >= len ==> ignore == 8 * (ignore_ / 8)
      decreases len - ignore
    {
      CommonInByte(a, b, pos);
      XorZero(b[pos], a[pos]);
      XorSym(a[pos], b[pos]);
      var c := Xor(b[pos], a[pos]);
      pos := pos + 1;
      ignore := ignore + 8;
      if c != 0 {
        ignore := ignore - Fls(c);
        break;
      }
    }
  }

  lemma {:induction false} XorSym(a: nat, b: nat)
    ensures Xor(a, b) == Xor(b, a)
  {
    if a != 0 || b != 0 { XorSym(a / 2, b / 2); }
  }

  /** What is left of two bytes after dropping n bits differs when the bits before do. */
  lemma HighBitsOfByte(a: seq<byte>, b: seq<byte>, i: nat, n: nat)
    requires i < |a| && i < |b| && n <= 8 && Common(BytesBits(a), BytesBits(b)) >= 8 * i
    ensures Shr(Xor(a[i], b[i]), n) != 0 <==> Common(BytesBits(a), BytesBits(b)) < 8 * i + 8 - n
  {
    ByteBound(a[i]);
    ByteBound(b[i]);
    XorShr(a[i], b[i], n);
    XorZero(Shr(a[i], n), Shr(b[i], n));
    AgreeHigh(a[i], b[i], 8, n);
    CommonInByte(a, b, i);
    if a[i] != b[i] {
      FirstDifference(a[i], b[i], 8);
    } else {
      CommonSelf(IntBits(a[i], 8));
    }
  }

  lemma {:induction false} ShrGone(v: byte, n: nat)
    requires n >= 8
    ensures Shr(v, n) == 0
    decreases n
  {
    ByteBound(v);
    if n == 8 {
      ShrBound(v, 8, 8);
    } else {
      ShrStep(v, n);
      ShrGone(v, n - 1);
    }
  }

  /** check_bits: non-zero if and only if the blocks differ in their first len bits, of which those
      of skip whole bytes are known to be equal. */
  method CheckBits(a: seq<byte>, b: seq<byte>, skip_: nat, len: nat) returns (r: nat)
    requires len <= 8 * |a| && len <= 8 * |b| && skip_ < |a| && skip_ < |b|
    requires Common(BytesBits(a), BytesBits(b)) >= 8 * skip_
    ensures r != 0 <==> Common(BytesBits(a), BytesBits(b)) < len
  {
    var skip := skip_;
    var bit: int := 8 * skip + 8 - len;
    var ret := Xor(a[skip], b[skip]);
    if bit >= 0 {
      HighByteOrNone(a, b, skip, bit);
      return Shr(ret, bit);
    }
    while true
      invariant skip < |a| && skip < |b| && bit == 8 * skip + 8 - len < 0 && ret == Xor(a[skip], b[skip])
      invariant Common(BytesBits(a), BytesBits(b)) >= 8 * skip
      decreases len - 8 * skip
    {
      CommonInByte(a, b, skip);
      XorZero(a[skip], b[skip]);
      skip := skip + 1;
      if ret != 0 { return ret; }
      ret := Xor(a[skip], b[skip]);
      bit := bit + 8;
      if bit >= 0 {
        HighByteOrNone(a, b, skip, bit);
        return Shr(ret, bit);
      }
    }
  }

  lemma HighByteOrNone(a: seq<byte>, b: seq<byte>, i: nat, n: nat)
    requires i < |a| && i < |b| && Common(BytesBits(a), BytesBits(b)) >= 8 * i
    ensures Shr(Xor(a[i], b[i]), n) != 0 <==> Common(BytesBits(a), BytesBits(b)) < 8 * i + 8 - n
  {
    if n <= 8 {
      HighBitsOfByte(a, b, i, n);
    } else {
      ByteBound(a[i]);
      ByteBound(b[i]);
      XorBelow(a[i], b[i], 8);
      assert Pow2(8) == 256 by { assert Pow2(6) == 64; }
      ShrGone(Xor(a[i], b[i]), n);
    }
  }

  /** get_bit: bit pos of a block. */
  function GetBit(a: seq<byte>, pos: nat): (r: bool)
    requires pos / 8 < |a|
    ensures r == BytesBits(a)[pos]
  {
    BitInByte(a, pos / 8, pos % 8);
    BitAt(a[pos / 8], 8, 7 - pos % 8);
    Shr(a[pos / 8], 7 - pos % 8) % 2 == 1
  }

  /** cmp_bits: -1, 0 or 1 as bit pos of a is below, equal to or above that of b. */
  function CmpBits(a: seq<byte>, b: seq<byte>, pos: nat): (r: int)
    requires pos / 8 < |a| && pos / 8 < |b|
    ensures r == (if BytesBits(a)[pos] then 1 else 0) - if BytesBits(b)[pos] then 1 else 0
  {
    (if GetBit(a, pos) then 1 else 0) - if GetBit(b, pos) then 1 else 0
  }

  // ---- Zero-terminated strings ----

  ghost predicate CString(b: seq<byte>)
  {
    |b| > 0 && b[|b| - 1] == 0 && forall i :: 0 <= i < |b| - 1 ==> b[i] != 0
  }

  lemma {:induction false} BytesInjective(a: seq<byte>, b: seq<byte>)
    requires BytesBits(a) == BytesBits(b)
    ensures a == b
  {
    if a != [] && b != [] {
      ByteAt(a, 0);
      ByteAt(b, 0);
      ByteBound(a[0]);
      ByteBound(b[0]);
      BitsInjective(a[0], b[0], 8);
      assert BytesBits(a)[8..] == BytesBits(a[1..]) && BytesBits(b)[8..] == BytesBits(b[1..]);
      BytesInjective(a[1..], b[1..]);
    }
  }

  lemma SameBytes(a: seq<byte>, b: seq<byte>, i: nat)
    requires i <= |a| && i <= |b| && Common(BytesBits(a), BytesBits(b)) >= 8 * i
    ensures a[..i] == b[..i]
  {
    CommonAtLeast(BytesBits(a), BytesBits(b), 8 * i);
    if i < |a| { ByteAt(a, i); } else { assert a[..i] == a && BytesBits(a)[..8 * i] == BytesBits(a); }
    if i < |b| { ByteAt(b, i); } else { assert b[..i] == b && BytesBits(b)[..8 * i] == BytesBits(b); }
    BytesInjective(a[..i], b[..i]);
  }

  /** No string is a proper prefix of another one, the final zero included. */
  lemma StringInside(a: seq<byte>, b: seq<byte>)
    requires CString(a) && CString(b) && |a| <= |b| && a == b[..|a|]
    ensures a == b
  {
    assert b[|a| - 1] == a[|a| - 1];
  }

  lemma StringsDiffer(a: seq<byte>, b: seq<byte>)
    requires CString(a) && CString(b) && a != b
    ensures Common(BytesBits(a), BytesBits(b)) < 8 * |a|
    ensures BytesBits(a) != BytesBits(b)
  {
    if Common(BytesBits(a), BytesBits(b)) >= 8 * |a| {
      SameBytes(a, b, |a|);
      assert a[..|a|] == a;
      StringInside(a, b);
    }
    if BytesBits(a) == BytesBits(b) { BytesInjective(a, b); }
  }

  /** string_equal_bits: the number of equal bits, or -1 for equal strings. */
  method StringEqualBits(a: seq<byte>, b: seq<byte>, ignore: nat) returns (r: int)
    requires CString(a) && CString(b) && ignore / 8 < |a| && ignore / 8 < |b|
    requires Common(BytesBits(a), BytesBits(b)) >= 8 * (ignore / 8)
    ensures if a == b then r == -1 else r == Common(BytesBits(a), BytesBits(b))
  {
    var beg := ignore / 8;
    SameBytes(a, b, beg);
    // whole bytes, up to a difference or the end of both
    while true
      invariant beg < |a| && beg < |b| && a[..beg] == b[..beg]
      invariant Common(BytesBits(a), BytesBits(b)) >= 8 * beg
      decreases |a| - beg
    {
      CommonInByte(a, b, beg);
      XorZero(a[beg], b[beg]);
      var c, d := Xor(a[beg], b[beg]), b[beg];
      beg := beg + 1;
      if c != 0 {
        return 8 * beg - Fls(c);
      }
      if d == 0 {
        assert a == a[..beg] && b == b[..beg];
        return -1;
      }
    }
  }
}
