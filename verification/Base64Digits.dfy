/** An encoding and what it encodes are the same number, in base 64 and in base 256. */
module Base64Digits {
  import opened Base64

  /** The number with these digits, the most significant one first */
  ghost function Number(d: seq<int>, base: int): int {
    if d == [] then 0 else Number(d[..|d| - 1], base) * base + d[|d| - 1]
  }

  lemma NumberOf(d: seq<int>, base: int)
    requires |d| == 4
    ensures Number(d[..1], base) == d[0] && Number(d[..2], base) == d[0] * base + d[1]
    ensures Number(d[..3], base) == (d[0] * base + d[1]) * base + d[2]
    ensures Number(d, base) == ((d[0] * base + d[1]) * base + d[2]) * base + d[3]
  {
    assert d[..3][..2] == d[..2] && d[..2][..1] == d[..1] && d[..1][..0] == [];
    assert Number(d[..1], base) == d[0];
    assert Number(d[..2], base) == Number(d[..1], base) * base + d[1];
    assert Number(d[..3], base) == Number(d[..2], base) * base + d[2];
  }

  /** The four values are the digits in base 64 of the number whose digits in base 256 are the bytes, the most
      significant ones first; zero bits complete the last digit, and '=' stands for the digits that are not needed. */
  lemma ChunkNumber(b: seq<Byte>)
    requires 0 < |b| <= 3
    ensures var q, v := EncodeChunk(b), Values(EncodeChunk(b));
      && (forall k | 0 <= k <= |b| :: 0 <= v[k] < 64) && (forall k | |b| < k < 4 :: q[k] == PAD)
      && Number(v[..|b| + 1], 64) == Number(b, 256) * if |b| == 3 then 1 else if |b| == 2 then 4 else 16
  {
    hide *;
    ValuesOfChunk(b);
    SixDigits(b);
    PadsAfter(b);
    if |b| == 3 {
      ThreeGiven(b);
    } else if |b| == 2 {
      TwoGiven(b);
    } else {
      OneGiven(b);
    }
  }

  lemma SixDigits(b: seq<Byte>)
    requires 0 < |b| <= 3
    ensures |Six(b)| == 4 && forall k | 0 <= k <= |b| :: 0 <= Six(b)[k] < 64
  {
  }

  lemma PadsAfter(b: seq<Byte>)
    requires 0 < |b| <= 3
    ensures forall k | |b| < k < 4 :: EncodeChunk(b)[k] == PAD
  {
    hide Tab;
  }

  lemma ThreeGiven(b: seq<Byte>)
    requires |b| == 3
    ensures Number(Six(b)[..4], 64) == Number(b, 256)
  {
    var d: seq<int> := [b[0], b[1], b[2], 0];
    NumberOf(Six(b), 64);
    NumberOf(d, 256);
    assert Six(b)[..4] == Six(b) && d[..3] == b;
    hide Number;
    Regrouped(b[0], b[1], b[2]);
  }

  lemma TwoGiven(b: seq<Byte>)
    requires |b| == 2
    ensures Number(Six(b)[..3], 64) == Number(b, 256) * 4
  {
    var d: seq<int> := [b[0], b[1], 0, 0];
    NumberOf(Six(b), 64);
    NumberOf(d, 256);
    assert d[..2] == b;
    hide Number;
    Regrouped(b[0], b[1], 0);
  }

  lemma OneGiven(b: seq<Byte>)
    requires |b| == 1
    ensures Number(Six(b)[..2], 64) == Number(b, 256) * 16
  {
    var d: seq<int> := [b[0], 0, 0, 0];
    NumberOf(Six(b), 64);
    NumberOf(d, 256);
    assert d[..1] == b;
    hide Number;
    Regrouped(b[0], 0, 0);
  }

  lemma Regrouped(x: int, y: int, z: int)
    requires 0 <= x < 256 && 0 <= y < 256 && 0 <= z < 256
    ensures x / 4 * 64 + x % 4 * 16 == x * 16
    ensures (x / 4 * 64 + x % 4 * 16 + y / 16) * 64 + y % 16 * 4 == (x * 256 + y) * 4
    ensures ((x / 4 * 64 + x % 4 * 16 + y / 16) * 64 + y % 16 * 4 + z / 64) * 64 + z % 64 == (x * 256 + y) * 256 + z
  {
  }

  lemma SliceShift(s: seq<Byte>, n: nat, a: nat, b: nat)
    requires n <= |s| && a <= b && n + b <= |s|
    ensures s[n..][a..b] == s[n + a..n + b]
  {
  }

  /** The number k of its quads encodes the number k of the groups of three bytes. */
  lemma {:induction false} QuadOfGroup(s: seq<Byte>, k: nat)
    requires 3 * k < |s|
    ensures 4 * k + 4 <= |Encode(s)|
    ensures Encode(s)[4 * k..4 * k + 4] == EncodeChunk(s[3 * k..if 3 * k + 3 <= |s| then 3 * k + 3 else |s|])
  {
    hide EncodeChunk;
    if |s| < 3 {
      assert s[0..|s|] == s;
    } else if k == 0 {
      assert s[0..3] == s[..3];
    } else {
      QuadOfGroup(s[3..], k - 1);
      var e := Encode(s[3..]);
      assert Encode(s)[4 * k..4 * k + 4] == e[4 * (k - 1)..4 * (k - 1) + 4];
      var m := if 3 * k + 3 <= |s| then 3 * k + 3 else |s|;
      SliceShift(s, 3, 3 * (k - 1), m - 3);
    }
  }

  /** What b64tos30 computes is the number with those digits. */
  lemma {:induction false} SameNumber(s: seq<Byte>)
    requires Decode30(s) >= 0
    ensures Decode30(s) == Number(Values(s), 64)
  {
    hide Rev;
    if s != [] {
      var n := |s| - 1;
      SameNumber(s[..n]);
      assert Values(s)[..n] == Values(s[..n]) && Values(s)[n] == Rev(s[n]);
    }
  }
}
