/** Word-level helpers: right shift, exclusive or and "find last set" on unsigned words.
    Words are naturals, so every law below holds for any key width. */
module Bits {

  /** x >> n */
  function Shr(x: nat, n: nat): nat {
    if n == 0 then x else Shr(x / 2, n - 1)
  }

  /** (x >> n) & 1 */
  function Bit(x: nat, n: nat): (b: nat)
    ensures b < 2
  {
    Shr(x, n) % 2
  }

  /** x ^ y */
  function Xor(x: nat, y: nat): nat {
    if x == 0 && y == 0 then 0 else 2 * Xor(x / 2, y / 2) + (x + y) % 2
  }

  /** Position of the highest set bit, counted from 1; 0 for a null word. */
  function Fls(x: nat): nat {
    if x == 0 then 0 else 1 + Fls(x / 2)
  }

  lemma {:induction false} ShrStep(x: nat, n: nat)
    ensures Shr(x, n + 1) == Shr(x, n) / 2
  {
    if n != 0 {
      ShrStep(x / 2, n - 1);
    }
  }

  lemma {:induction false} ShrShr(x: nat, m: nat, n: nat)
    ensures Shr(Shr(x, m), n) == Shr(x, m + n)
  {
    if m != 0 {
      ShrShr(x / 2, m - 1, n);
    }
  }

  lemma {:induction false} ShrZero(n: nat)
    ensures Shr(0, n) == 0
  {
    if n != 0 {
      ShrZero(n - 1);
    }
  }

  lemma {:induction false} ShrMonotone(x: nat, y: nat, n: nat)
    requires x <= y
    ensures Shr(x, n) <= Shr(y, n)
  {
    if n != 0 {
      ShrMonotone(x / 2, y / 2, n - 1);
    }
  }

  /** A shifted word is one of the two continuations of the word shifted once more. */
  lemma ShrSplit(x: nat, n: nat)
    ensures Shr(x, n) == 2 * Shr(x, n + 1) + Bit(x, n)
  {
    ShrStep(x, n);
  }

  /** Words that agree from bit n up agree from any higher bit up. */
  lemma ShrAgree(x: nat, y: nat, m: nat, n: nat)
    requires m <= n && Shr(x, m) == Shr(y, m)
    ensures Shr(x, n) == Shr(y, n)
  {
    ShrShr(x, m, n - m);
    ShrShr(y, m, n - m);
  }

  lemma {:induction false} XorShr(x: nat, y: nat, n: nat)
    ensures Shr(Xor(x, y), n) == Xor(Shr(x, n), Shr(y, n))
  {
    if n != 0 {
      assert Xor(x, y) / 2 == Xor(x / 2, y / 2);
      XorShr(x / 2, y / 2, n - 1);
    }
  }

  lemma {:induction false} XorZero(x: nat, y: nat)
    ensures Xor(x, y) == 0 <==> x == y
  {
    if x != 0 || y != 0 {
      XorZero(x / 2, y / 2);
    }
  }

  /** The descent test of every tree: at most the last bit of the shifted difference is set
      exactly when the words agree above that bit. */
  lemma {:induction false} XorBelowTwo(x: nat, y: nat, n: nat)
    ensures Shr(Xor(x, y), n) < 2 <==> Shr(x, n + 1) == Shr(y, n + 1)
  {
    XorShr(x, y, n);
    ShrStep(x, n);
    ShrStep(y, n);
    var a, b := Shr(x, n), Shr(y, n);
    if a != 0 || b != 0 {
      XorZero(a / 2, b / 2);
    }
  }

  lemma {:induction false} FlsTop(x: nat)
    requires x > 0
    ensures Fls(x) >= 1 && Shr(x, Fls(x) - 1) == 1 && Shr(x, Fls(x)) == 0
  {
    if x > 1 {
      FlsTop(x / 2);
    }
  }

  /** Fls of a difference locates the highest bit where two words differ, and that bit orders them. */
  lemma {:induction false} FlsXor(x: nat, y: nat)
    requires x != y
    ensures Fls(Xor(x, y)) >= 1
    ensures var b := Fls(Xor(x, y)) - 1;
            && Shr(x, b + 1) == Shr(y, b + 1)
            && Bit(x, b) != Bit(y, b)
            && (x < y <==> Bit(x, b) < Bit(y, b))
  {
    XorZero(x, y);
    FlsTop(Xor(x, y));
    var b := Fls(Xor(x, y)) - 1;
    XorBelowTwo(x, y, b);
    XorShr(x, y, b);
    ShrSplit(x, b);
    ShrSplit(y, b);
    XorZero(Shr(x, b), Shr(y, b));
    if x < y {
      ShrMonotone(x, y, b);
    } else {
      ShrMonotone(y, x, b);
    }
  }

  /** Words of w bits. */
  function Pow2(n: nat): (p: nat)
    ensures p > 0
  {
    if n == 0 then 1 else 2 * Pow2(n - 1)
  }

  /** x ^ (1 << (w - 1)): the word with its sign bit inverted. */
  function Flip(x: nat, w: nat): nat
    requires w > 0
  {
    if w == 1 then (if x % 2 == 0 then x + 1 else x - 1) else 2 * Flip(x / 2, w - 1) + x % 2
  }

  /** The value of a w-bit word read as a two's complement integer. */
  function Signed(x: nat, w: nat): int
    requires w > 0
  {
    if x < Pow2(w - 1) then x else x - Pow2(w)
  }

  /** Inverting the sign bit is adding half the range, modulo the range. */
  lemma {:induction false} FlipAdds(x: nat, w: nat)
    requires w > 0 && x < Pow2(w)
    ensures Flip(x, w) == (if x < Pow2(w - 1) then x + Pow2(w - 1) else x - Pow2(w - 1))
    ensures Flip(x, w) == Signed(x, w) + Pow2(w - 1)
  {
    assert Pow2(w) == 2 * Pow2(w - 1);
    if w > 1 {
      assert Pow2(w - 1) == 2 * Pow2(w - 2);
      FlipAdds(x / 2, w - 1);
    } else {
      assert Pow2(0) == 1;
    }
  }

  /** Inverting the sign bit of two words does not change how they differ. */
  lemma {:induction false} FlipXor(x: nat, y: nat, w: nat)
    requires w > 0
    ensures Xor(Flip(x, w), Flip(y, w)) == Xor(x, y)
  {
    hide Xor, Flip;
    FlipHalves(x, w);
    FlipHalves(y, w);
    XorHalves(Flip(x, w), Flip(y, w));
    XorHalves(x, y);
    if w > 1 {
      FlipXor(x / 2, y / 2, w - 1);
    }
    SameParity(Flip(x, w), Flip(y, w), x, y);
  }

  lemma FlipHalves(x: nat, w: nat)
    requires w > 0
    ensures Flip(x, w) / 2 == if w == 1 then x / 2 else Flip(x / 2, w - 1)
    ensures (Flip(x, w) % 2 == x % 2) <==> w > 1
  {
  }

  lemma SameParity(a: nat, b: nat, x: nat, y: nat)
    requires a % 2 == x % 2 <==> b % 2 == y % 2
    ensures (a + b) % 2 == (x + y) % 2
  {
  }

  lemma XorHalves(x: nat, y: nat)
    ensures Xor(x, y) == 2 * Xor(x / 2, y / 2) + (x + y) % 2
  {
  }

  /** fls64: the upper half if it is not null, else the lower half. */
  function Fls64(x: nat): nat {
    if Shr(x, 32) != 0 then Fls(Shr(x, 32)) + 32 else Fls(x)
  }

  /** Looking at one half only finds the highest set bit of the whole word. */
  lemma {:induction false} FlsShr(x: nat, n: nat)
    requires Shr(x, n) != 0
    ensures Fls(Shr(x, n)) + n == Fls(x)
  {
    if n != 0 {
      if x < 2 {
        ShrZero(n - 1);
      }
      FlsShr(x / 2, n - 1);
    }
  }
}
