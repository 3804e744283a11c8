/** Byte strings read as bit strings, most significant bit of each byte first, and the comparisons
    the byte-keyed trees are built on. */
module Bytes {
  import opened Bits

  /** The i-th bit of a byte, counted from the most significant one. */
  function BitOf(x: nat, i: nat): (b: nat)
    requires i < 8
    ensures b < 2
  {
    Bit(x, 7 - i)
  }

  /** The i-th bit of a byte string (get_bit). */
  function BitAt(a: seq<nat>, i: nat): (b: nat)
    requires i < 8 * |a|
    ensures b < 2
  {
    BitOf(a[i / 8], i % 8)
  }

  /** x and y agree on their first p bits. */
  ghost predicate SameStart(x: nat, y: nat, p: nat)
    requires p <= 8
  {
    forall i | 0 <= i < p :: BitOf(x, i) == BitOf(y, i)
  }

  /** Only bytes. */
  predicate IsBytes(a: seq<nat>) {
    forall i | 0 <= i < |a| :: a[i] < 256
  }

  /** a and b agree on their first n bits. */
  ghost predicate SameBits(a: seq<nat>, b: seq<nat>, n: nat)
    requires n <= 8 * |a| && n <= 8 * |b|
  {
    forall i | 0 <= i < n :: BitAt(a, i) == BitAt(b, i)
  }

  lemma {:induction false} XorBound(x: nat, y: nat, n: nat)
    requires x < Pow2(n) && y < Pow2(n)
    ensures Xor(x, y) < Pow2(n)
  {
    if n > 0 {
      XorBound(x / 2, y / 2, n - 1);
    }
  }

  lemma {:induction false} FlsBound(x: nat, n: nat)
    requires x < Pow2(n)
    ensures Fls(x) <= n
  {
    if n > 0 {
      FlsBound(x / 2, n - 1);
    }
  }

  lemma ByteRange()
    ensures Pow2(8) == 256
  {
    assert Pow2(4) == 16;
  }

  /** Two different bytes agree exactly on the bits before the highest set bit of their difference. */
  lemma FirstDifference(x: nat, y: nat)
    requires x < 256 && y < 256 && x != y
    ensures var p := 8 - Fls(Xor(x, y));
      0 <= p < 8 && BitOf(x, p) != BitOf(y, p) && SameStart(x, y, p) && Shr(x, 8 - p) == Shr(y, 8 - p)
  {
    hide Shr, Fls, Xor;
    ByteRange();
    XorBound(x, y, 8);
    FlsBound(Xor(x, y), 8);
    FlsXor(x, y);
    var b := Fls(Xor(x, y)) - 1;
    forall i | 0 <= i < 7 - b ensures BitOf(x, i) == BitOf(y, i) {
      ShrAgree(x, y, b + 1, 7 - i);
    }
  }

  /** A byte shifted right by k keeps exactly its first 8 - k bits. */
  lemma SameHighBits(x: nat, y: nat, k: nat)
    requires x < 256 && y < 256 && k <= 8
    ensures Shr(x, k) == Shr(y, k) <==> SameStart(x, y, 8 - k)
  {
    hide Shr, Fls, Xor;
    if Shr(x, k) == Shr(y, k) {
      forall i | 0 <= i < 8 - k ensures BitOf(x, i) == BitOf(y, i) {
        ShrAgree(x, y, k, 7 - i);
      }
    } else {
      FirstDifference(x, y);
      var p := 8 - Fls(Xor(x, y));
      if 8 - k <= p {
        ShrAgree(x, y, 8 - p, k);
      }
    }
  }

  /** Agreement up to a byte boundary plus some bits of the next byte. */
  lemma SameBitsStep(a: seq<nat>, b: seq<nat>, i: nat, p: nat)
    requires i < |a| && i < |b| && p <= 8
    ensures SameBits(a, b, 8 * i + p) <==> SameBits(a, b, 8 * i) && SameStart(a[i], b[i], p)
  {
    hide Bit;
    if SameBits(a, b, 8 * i + p) {
      forall k | 0 <= k < p ensures BitOf(a[i], k) == BitOf(b[i], k) {
        assert BitAt(a, 8 * i + k) == BitAt(b, 8 * i + k);
      }
    } else if SameBits(a, b, 8 * i) {
      var j :| 0 <= j < 8 * i + p && BitAt(a, j) != BitAt(b, j);
      assert BitOf(a[i], j - 8 * i) != BitOf(b[i], j - 8 * i);
    }
  }

  /** Agreement over whole bytes. */
  lemma SameBitsByte(a: seq<nat>, b: seq<nat>, i: nat)
    requires IsBytes(a) && IsBytes(b) && i < |a| && i < |b|
    ensures SameBits(a, b, 8 * i + 8) <==> SameBits(a, b, 8 * i) && a[i] == b[i]
  {
    hide SameBits, SameStart;
    SameBitsStep(a, b, i, 8);
    SameHighBits(a[i], b[i], 0);
  }

  /** cmp_bits */
  function CmpBits(a: seq<nat>, b: seq<nat>, pos: nat): int
    requires pos < 8 * |a| && pos < 8 * |b|
  {
    BitAt(a, pos) - BitAt(b, pos)
  }

  /** r tells how far a and b agree, when asked up to len: below len it is the exact place of the
      first difference, otherwise the first len bits are the same. */
  ghost predicate Tells(a: seq<nat>, b: seq<nat>, len: nat, r: nat)
    requires len <= 8 * |a| && len <= 8 * |b|
  {
    if r < len then SameBits(a, b, r) && BitAt(a, r) != BitAt(b, r) else SameBits(a, b, len)
  }

  /** How many leading bits of a and b are the same, up to n. */
  ghost function CommonUpTo(a: seq<nat>, b: seq<nat>, n: nat): (r: nat)
    requires n <= 8 * |a| && n <= 8 * |b|
    ensures r <= n && Tells(a, b, n, r)
  {
    if n == 0 then 0
    else
      var r := CommonUpTo(a, b, n - 1);
      if r < n - 1 || BitAt(a, n - 1) != BitAt(b, n - 1) then r else n
  }

  /** Whatever tells how far two keys agree tells the same. */
  lemma TellsCommon(a: seq<nat>, b: seq<nat>, n: nat, r: nat)
    requires n <= 8 * |a| && n <= 8 * |b| && Tells(a, b, n, r)
    ensures CommonUpTo(a, b, n) == if r < n then r else n
  {
  }

  /** equal_bits: the first `ignore` bits, at least up to their byte, are known to be equal. */
  method EqualBits(a: seq<nat>, b: seq<nat>, ignore: nat, len: nat) returns (r: nat)
    requires IsBytes(a) && IsBytes(b) && len <= 8 * |a| && len <= 8 * |b|
    requires SameBits(a, b, if ignore < len then ignore else len)
    ensures Tells(a, b, len, r)
  {
    hide Xor, Fls, Shr, Bit;
    var i := ignore / 8;
    r := i * 8;
    while r < len
      invariant r == 8 * i && SameBits(a, b, if r < len then r else len)
      decreases len - r
    {
      SameBitsByte(a, b, i);
      i := i + 1;
      r := r + 8;
      var c := Xor(b[i - 1], a[i - 1]);
      XorZero(b[i - 1], a[i - 1]);
      if c != 0 {
        FirstDifference(b[i - 1], a[i - 1]);
        r := r - Fls(c);
        var p := r - 8 * (i - 1);
        SameBitsStep(a, b, i - 1, p);
        assert BitAt(a, r) == BitOf(a[i - 1], p) && BitAt(b, r) == BitOf(b[i - 1], p);
        SameStartSwap(a[i - 1], b[i - 1], p);
        return;
      }
    }
  }

  lemma SameStartSwap(x: nat, y: nat, p: nat)
    requires p <= 8 && SameStart(y, x, p)
    ensures SameStart(x, y, p)
  {
  }

  /** In the last byte, only the bit number n may differ, and shifting brings it last. */
  lemma LastBits(a: seq<nat>, q: seq<nat>, pos: nat, n: nat)
    requires IsBytes(q) && IsBytes(a) && n < 8 * |a| && pos == n / 8 && pos < |q| && SameBits(a, q, 8 * pos)
    ensures var b := 8 * pos + 7 - n;
      && (Xor(Shr(a[pos], b), Shr(q[pos], b)) <= 1 <==> SameBits(a, q, n))
      && Shr(q[pos], b) % 2 == BitAt(q, n)
  {
    var b := 8 * pos + 7 - n;
    XorShr(a[pos], q[pos], b);
    XorBelowTwo(a[pos], q[pos], b);
    SameHighBits(a[pos], q[pos], b + 1);
    SameBitsStep(a, q, pos, n - 8 * pos);
  }

  /** check_bits: null exactly when a and b agree on len bits, the first `skip` bytes being known to. */
  method CheckBits(a: seq<nat>, b: seq<nat>, skip: nat, len: nat) returns (r: nat)
    requires IsBytes(a) && IsBytes(b) && len <= 8 * |a| && len <= 8 * |b| && skip < |a| && skip < |b|
    requires SameBits(a, b, 8 * skip)
    ensures r == 0 <==> SameBits(a, b, len)
  {
    var i := skip;
    var bit := 8 * i + 8 - len;
    var ret := Xor(a[i], b[i]);
    if bit >= 0 {
      LastByte(a, b, i, len);
      return Shr(ret, bit);
    }
    while true
      invariant i < |a| && i < |b| && bit == 8 * i + 8 - len < 0
      invariant ret == Xor(a[i], b[i]) && SameBits(a, b, 8 * i)
      decreases |a| - i
    {
      SameBitsByte(a, b, i);
      XorZero(a[i], b[i]);
      i := i + 1;
      if ret != 0 {
        assert !SameBits(a, b, 8 * i);
        return ret;
      }
      ret := Xor(a[i], b[i]);
      bit := bit + 8;
      if bit >= 0 {
        LastByte(a, b, i, len);
        return Shr(ret, bit);
      }
    }
  }

  lemma LastByte(a: seq<nat>, b: seq<nat>, i: nat, len: nat)
    requires IsBytes(a) && IsBytes(b) && i < |a| && i < |b| && SameBits(a, b, 8 * i)
    requires len <= 8 * |a| && len <= 8 * |b| && len <= 8 * i + 8
    ensures Shr(Xor(a[i], b[i]), 8 * i + 8 - len) == 0 <==> SameBits(a, b, len)
  {
    var k := 8 * i + 8 - len;
    ByteRange();
    XorShr(a[i], b[i], k);
    XorZero(Shr(a[i], k), Shr(b[i], k));
    hide SameBits, SameStart, Shr, Xor;
    if k <= 8 {
      SameHighBits(a[i], b[i], k);
      SameBitsStep(a, b, i, 8 - k);
    } else {
      XorBound(a[i], b[i], 8);
      ShrOut(Xor(a[i], b[i]), 8, k);
    }
  }

  lemma {:induction false} ShrOut(x: nat, n: nat, k: nat)
    requires x < Pow2(n) && n <= k
    ensures Shr(x, k) == 0
  {
    if n > 0 {
      ShrOut(x / 2, n - 1, k - 1);
    } else {
      ShrZero(k);
    }
  }
}
