/**
  Unsigned and signed integers of w bits, and their bits from the most significant one down.
 */
module Integers {
  import opened BitStrings

  function Pow2(n: nat): (r: nat)
    ensures r >= 1
  {
    if n == 0 then 1 else 2 * Pow2(n - 1)
  }

  /** The exclusive or. */
  function Xor(a: nat, b: nat): nat
  {
    if a == 0 && b == 0 then 0
    else 2 * Xor(a / 2, b / 2) + (if a % 2 == b % 2 then 0 else 1)
  }

  /** flsnz: the index of the highest bit set, counted from 1. */
  function Fls(x: nat): (r: nat)
    requires x > 0
    ensures r >= 1 && Pow2(r - 1) <= x < Pow2(r)
  {
    if x == 1 then 1 else 1 + Fls(x / 2)
  }

  /** The shift to the right by n, also of a negative value, as compilers do it. */
  function Shr(v: int, n: nat): (r: int)
    ensures v >= 0 ==> r >= 0
    decreases n
  {
    if n == 0 then v else Shr(v / 2, n - 1)
  }

  function IntBits(v: nat, w: nat): (r: Bits)
    ensures |r| == w
  {
    if w == 0 then [] else IntBits(v / 2, w - 1) + [v % 2 == 1]
  }

  lemma {:induction false} ShrStep(v: int, n: nat)
    requires n > 0
    ensures Shr(v, n) == Shr(v, n - 1) / 2
    decreases n
  {
    if n > 1 { ShrStep(v / 2, n - 1); }
  }

  /** Dropping n bits on the right is a shift by n. */
  lemma {:induction false} BitsPrefix(v: nat, w: nat, n: nat)
    requires n <= w
    ensures IntBits(v, w)[..w - n] == IntBits(Shr(v, n), w - n)
  {
    if n > 0 {
      BitsPrefix(v / 2, w - 1, n - 1);
      ShrStep(v, n);
      assert IntBits(v, w)[..w - n] == IntBits(v / 2, w - 1)[..w - n];
    }
  }

  /** Bit n of the value, counted from the right. */
  lemma {:induction false} BitAt(v: nat, w: nat, n: nat)
    requires n < w
    ensures IntBits(v, w)[w - 1 - n] <==> Shr(v, n) % 2 == 1
  {
    if n > 0 {
      BitAt(v / 2, w - 1, n - 1);
      ShrStep(v, n);
    }
  }

  lemma {:induction false} BitsInjective(a: nat, b: nat, w: nat)
    requires a < Pow2(w) && b < Pow2(w) && IntBits(a, w) == IntBits(b, w)
    ensures a == b
  {
    if w > 0 {
      assert IntBits(a, w)[..w - 1] == IntBits(a / 2, w - 1);
      assert IntBits(b, w)[..w - 1] == IntBits(b / 2, w - 1);
      assert IntBits(a, w)[w - 1] == IntBits(b, w)[w - 1];
      BitsInjective(a / 2, b / 2, w - 1);
    }
  }

  lemma {:induction false} ShrBound(v: nat, w: nat, n: nat)
    requires n <= w && v < Pow2(w)
    ensures 0 <= Shr(v, n) < Pow2(w - n)
  {
    if n > 0 {
      ShrStep(v, n);
      ShrBound(v / 2, w - 1, n - 1);
    }
  }

  lemma HighBits(a: nat, b: nat, w: nat, n: nat)
    requires n <= w && a < Pow2(w) && b < Pow2(w)
    ensures IntBits(a, w)[..w - n] == IntBits(b, w)[..w - n] <==> Shr(a, n) == Shr(b, n)
  {
    BitsPrefix(a, w, n);
    BitsPrefix(b, w, n);
    ShrBound(a, w, n);
    ShrBound(b, w, n);
    if IntBits(Shr(a, n), w - n) == IntBits(Shr(b, n), w - n) {
      BitsInjective(Shr(a, n), Shr(b, n), w - n);
    }
  }

  /** Two values agree on their w - n highest bits when they are equal without the other n. */
  lemma AgreeHigh(a: nat, b: nat, w: nat, n: nat)
    requires n <= w && a < Pow2(w) && b < Pow2(w)
    ensures Common(IntBits(a, w), IntBits(b, w)) >= w - n <==> Shr(a, n) == Shr(b, n)
  {
    HighBits(a, b, w, n);
    CommonAtLeast(IntBits(a, w), IntBits(b, w), w - n);
  }

  lemma {:induction false} XorZero(a: nat, b: nat)
    ensures Xor(a, b) == 0 <==> a == b
  {
    if a != 0 || b != 0 { XorZero(a / 2, b / 2); }
  }

  lemma {:induction false} XorShr(a: nat, b: nat, n: nat)
    ensures Shr(Xor(a, b), n) == Xor(Shr(a, n), Shr(b, n))
  {
    if n > 0 {
      ShrStep(a, n);
      ShrStep(b, n);
      ShrStep(Xor(a, b), n);
      XorShr(a / 2, b / 2, n - 1);
      assert Xor(a, b) / 2 == Xor(a / 2, b / 2);
    }
  }

  /** "No more common bits" above bit n of a node's key. */
  lemma NoCommonBits(a: nat, b: nat, w: nat, n: nat)
    requires n < w && a < Pow2(w) && b < Pow2(w)
    ensures Shr(Xor(a, b), n) >= 2 <==> Common(IntBits(a, w), IntBits(b, w)) < w - 1 - n
  {
    XorShr(a, b, n + 1);
    ShrStep(Xor(a, b), n + 1);
    XorZero(Shr(a, n + 1), Shr(b, n + 1));
    AgreeHigh(a, b, w, n + 1);
  }

  /** The highest bit of the exclusive or is where two values first differ, and decides their order. */
  lemma FirstDifference(a: nat, b: nat, w: nat)
    requires a < Pow2(w) && b < Pow2(w) && a != b
    ensures Xor(a, b) > 0
    ensures var n := Fls(Xor(a, b)) - 1;
      && n < w && Common(IntBits(a, w), IntBits(b, w)) == w - 1 - n
      && (IntBits(a, w)[w - 1 - n] <==> a > b)
  {
    XorZero(a, b);
    XorBelow(a, b, w);
    var x := Xor(a, b);
    var n := TopBit(x, w);
    DifferAt(a, b, x, w, n);
  }

  lemma TopBit(x: nat, w: nat) returns (n: nat)
    requires 0 < x < Pow2(w)
    ensures n == Fls(x) - 1 && n < w && Shr(x, n) == 1 && Shr(x, n + 1) == 0
  {
    n := Fls(x) - 1;
    if n >= w { Pow2Monotone(w, n); }
    ShrSmall(x, n);
    ShrStep(x, n + 1);
  }

  lemma DifferAt(a: nat, b: nat, x: nat, w: nat, n: nat)
    requires a < Pow2(w) && b < Pow2(w) && n < w && x == Xor(a, b)
    requires Shr(x, n) == 1 && Shr(x, n + 1) == 0
    ensures Common(IntBits(a, w), IntBits(b, w)) == w - 1 - n
    ensures IntBits(a, w)[w - 1 - n] <==> a > b
  {
    XorShr(a, b, n);
    XorShr(a, b, n + 1);
    XorZero(Shr(a, n + 1), Shr(b, n + 1));
    XorZero(Shr(a, n), Shr(b, n));
    AgreeHigh(a, b, w, n);
    AgreeHigh(a, b, w, n + 1);
    BitAt(a, w, n);
    BitAt(b, w, n);
    ShrStep(a, n + 1);
    ShrStep(b, n + 1);
    if a <= b { ShrMonotone(a, b, n); } else { ShrMonotone(b, a, n); }
  }

  lemma {:induction false} XorBelow(a: nat, b: nat, w: nat)
    requires a < Pow2(w) && b < Pow2(w)
    ensures Xor(a, b) < Pow2(w)
  {
    if w > 0 { XorBelow(a / 2, b / 2, w - 1); }
  }

  lemma {:induction false} Pow2Monotone(a: nat, b: nat)
    requires a <= b
    ensures Pow2(a) <= Pow2(b)
  {
    if a < b { Pow2Monotone(a, b - 1); }
  }

  lemma {:induction false} ShrSmall(x: nat, n: nat)
    requires Pow2(n) <= x < Pow2(n + 1)
    ensures Shr(x, n) == 1
  {
    if n > 0 { ShrSmall(x / 2, n - 1); }
  }

  lemma {:induction false} ShrMonotone(a: nat, b: nat, n: nat)
    requires a <= b
    ensures 0 <= Shr(a, n) <= Shr(b, n)
  {
    if n > 0 {
      ShrStep(a, n);
      ShrStep(b, n);
      ShrMonotone(a / 2, b / 2, n - 1);
    }
  }

  // ---- Signed integers ----

  /** The value with its highest bit inverted: v ^ 0x80000000, or v + 0x80000000 modulo 2^32. */
  function Flip(v: nat, w: nat): (r: nat)
    requires w > 0 && v < Pow2(w)
    ensures r < Pow2(w)
  {
    if v < Pow2(w - 1) then v + Pow2(w - 1) else v - Pow2(w - 1)
  }

  /** What a word of w bits means as a signed integer. */
  function Signed(v: nat, w: nat): int
    requires w > 0 && v < Pow2(w)
  {
    if v < Pow2(w - 1) then v else v - Pow2(w)
  }

  /** Addition of two words, wrapping around. */
  function AddWord(a: nat, b: nat, w: nat): nat
    requires a < Pow2(w) && b < Pow2(w)
  {
    if a + b < Pow2(w) then a + b else a + b - Pow2(w)
  }

  lemma FlipOrder(a: nat, b: nat, w: nat)
    requires w > 0 && a < Pow2(w) && b < Pow2(w)
    ensures Flip(a, w) <= Flip(b, w) <==> Signed(a, w) <= Signed(b, w)
    ensures Flip(a, w) == Flip(b, w) <==> a == b
  {
  }

  lemma {:induction false} FlipHalf(a: nat, w: nat)
    requires w > 1 && a < Pow2(w)
    ensures a / 2 < Pow2(w - 1) && Flip(a, w) / 2 == Flip(a / 2, w - 1) && Flip(a, w) % 2 == a % 2
  {
    assert Pow2(w) == 2 * Pow2(w - 1) && Pow2(w - 1) == 2 * Pow2(w - 2);
  }

  lemma {:induction false} XorFlip(a: nat, b: nat, w: nat)
    requires w > 0 && a < Pow2(w) && b < Pow2(w)
    ensures Xor(Flip(a, w), Flip(b, w)) == Xor(a, b)
  {
    if w > 1 {
      FlipHalf(a, w);
      FlipHalf(b, w);
      XorFlip(a / 2, b / 2, w - 1);
    } else {
      assert Pow2(1) == 2 && Pow2(0) == 1;
      XorZero(0, 0);
    }
  }

  /** v ^ 0x80000000 inverts the highest bit. */
  lemma {:induction false} XorTop(v: nat, w: nat)
    requires w > 0 && v < Pow2(w)
    ensures Xor(v, Pow2(w - 1)) == Flip(v, w)
  {
    if w > 1 {
      FlipHalf(v, w);
      XorTop(v / 2, w - 1);
      assert Pow2(w - 1) == 2 * Pow2(w - 2);
    } else {
      assert Pow2(1) == 2 && Pow2(0) == 1;
      XorZero(0, 0);
    }
  }

  lemma {:induction false} ShrLess(v: int, w: nat, n: nat)
    requires n <= w
    ensures Shr(v - Pow2(w), n) == Shr(v, n) - Pow2(w - n)
    decreases n
  {
    if n > 0 {
      assert Pow2(w) == 2 * Pow2(w - 1);
      assert (v - Pow2(w)) / 2 == v / 2 - Pow2(w - 1);
      ShrLess(v / 2, w - 1, n - 1);
    }
  }

  /** The bits of a word do not depend on whether it is shifted as a signed or unsigned integer. */
  lemma SignedShift(v: nat, w: nat, n: nat)
    requires n < w && v < Pow2(w)
    ensures Shr(Signed(v, w), n) % 2 == Shr(v, n) % 2
  {
    ShrLess(v, w, n);
    assert Pow2(w - n) == 2 * Pow2(w - n - 1);
  }
}
