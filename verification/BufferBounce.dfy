/** buffer_bounce_realign on a buffer that is not full and whose contents wrap: exactly when the moves put
    the contents in order. */
module BufferBounce {
  import opened Counting
  import opened RingBuffer
  import opened BufferRotation

  /** The moves put any contents in order: they fill the ring of n bytes, or do not wrap, or the remainder of
      the size by the distance to the end of the data is at most the room left. */
  predicate Bounces(n: nat, first: nat, len: nat)
    requires first < n
  {
    len == n || first + len <= n || n % (n - first) <= n - len
  }

  /** Contents of len bytes that wrap without filling a ring of n bytes. */
  predicate Wraps(n: nat, first: nat, len: nat) {
    first < n && len < n && first + len > n
  }

  lemma NotBetween(a: nat, k: int)
    ensures !(0 < a * k < a)
  {
    if k > 0 {
      assert a * k == a * (k - 1) + a;
      assert a * (k - 1) >= 0;
    } else {
      assert a * k <= 0;
    }
  }

  lemma RemainderIs(x: nat, q: nat, r: nat, a: nat)
    requires 0 < a && x == a * q + r && r < a
    ensures x % a == r
  {
    var k := x / a;
    assert x == a * k + x % a;
    assert a * (k - q) == r - x % a;
    assert a * (q - k) == x % a - r;
    NotBetween(a, k - q);
    NotBetween(a, q - k);
  }

  lemma SameRemainder(x: nat, y: nat, a: nat)
    requires 0 < a && x % a == y % a && y <= x < y + a
    ensures x == y
  {
    var k := x / a - y / a;
    assert x == a * (x / a) + x % a && y == a * (y / a) + y % a;
    assert a * k == a * (x / a) - a * (y / a);
    NotBetween(a, k);
  }

  lemma NextRemainder(x: nat, a: nat)
    requires 0 < a
    ensures (x + a) % a == x % a && x % a <= x
  {
    var q := x / a;
    assert x == a * q + x % a;
    assert a * (q + 1) == a * q + a;
    RemainderIs(x + a, q + 1, x % a, a);
  }

  lemma RemainderAdds(x: nat, j: nat, a: nat)
    requires 0 < a && x % a + j < a
    ensures (x + j) % a == x % a + j
  {
    var q := x / a;
    assert x == a * q + x % a;
    RemainderIs(x + j, q, x % a + j, a);
  }

  // ---------------------------------------------------------------------------
  // When it works: the chain number j moves the bytes whose place is j modulo the distance, and no other

  /** Place x is among those of the first j chains, or among those of the next one that are below y. */
  predicate Passed(x: nat, j: nat, y: nat, a: nat)
    requires 0 < a
  {
    x % a < j || (x % a == j && x < y)
  }

  ghost function PassedBelow(len: nat, j: nat, y: nat, a: nat): (s: set<nat>)
    requires 0 < a
    ensures forall x: nat :: x in s <==> x < len && Passed(x, j, y, a)
  {
    set x: nat | x < len && Passed(x, j, y, a)
  }

  ghost predicate PassedAll(len: nat, j: nat, y: nat, a: nat)
    requires 0 < a
  {
    forall x: nat | x < len :: Passed(x, j, y, a)
  }

  /** The bytes of the places passed are there, and nothing else is written. */
  ghost predicate Placed(d: seq<char>, d0: seq<char>, first: nat, len: nat, j: nat, y: nat)
    requires first < |d0|
  {
    |d| == |d0| && forall x: nat | x < |d0| ::
      d[x] == if x < len && Passed(x, j, y, |d0| - first) then d0[Place(first, x, |d0|)] else d0[x]
  }

  lemma PlaceOne(d: seq<char>, d0: seq<char>, first: nat, len: nat, j: nat, y: nat)
    requires Wraps(|d0|, first, len) && Placed(d, d0, first, len, j, y) && y < len && y % (|d0| - first) == j
    ensures |d| == |d0| && Placed(d[y := d0[Place(first, y, |d0|)]], d0, first, len, j, y + (|d0| - first))
    ensures var a := |d0| - first;
      && y !in PassedBelow(len, j, y, a)
      && PassedBelow(len, j, y + a, a) == PassedBelow(len, j, y, a) + {y}
  {
    var a := |d0| - first;
    forall x: nat ensures Passed(x, j, y + a, a) <==> Passed(x, j, y, a) || x == y {
      if x % a == j && y <= x < y + a {
        SameRemainder(x, y, a);
      }
    }
  }

  /** A chain that stops leaves no place of its own unwritten. */
  lemma ChainDone(len: nat, j: nat, y: nat, a: nat)
    requires 0 < a && len <= y
    ensures forall x: nat | x < len :: Passed(x, j, y, a) <==> Passed(x, j + 1, j + 1, a)
    ensures PassedBelow(len, j, y, a) == PassedBelow(len, j + 1, j + 1, a)
  {
    forall x: nat | x < len ensures Passed(x, j, y, a) <==> Passed(x, j + 1, j + 1, a) {
      NextRemainder(x, a);
    }
  }

  lemma AllPassed(len: nat, j: nat, y: nat, a: nat)
    requires 0 < a && |PassedBelow(len, j, y, a)| == len
    ensures PassedAll(len, j, y, a)
  {
    AllOf(PassedBelow(len, j, y, a), len);
  }

  lemma NonePassedLater(len: nat, a: nat)
    requires 0 < a
    ensures |PassedBelow(len, a, a, a)| == len
  {
    AllOf(PassedBelow(len, a, a, a), len);
  }

  /** A chain never jumps over the empty area. */
  lemma LandsInside(n: nat, first: nat, len: nat, j: nat, y: nat)
    requires Wraps(n, first, len) && Bounces(n, first, len)
    requires j < n - first && y < len && y % (n - first) == j
    ensures y <= first + j
  {
    var a := n - first;
    var k := y / a - n / a + 1;
    assert y - first - j == a * k - n % a by {
      assert y == a * (y / a) + j && n == a * (n / a) + n % a;
      assert a * k == a * (y / a) - a * (n / a) + a;
    }
    NotBetween(a, k);
  }

  lemma {:induction false} ChainFits(d: seq<char>, d0: seq<char>, first: nat, len: nat, j: nat, y: nat, last: char,
                                     left: nat)
    requires Wraps(|d0|, first, len) && Bounces(|d0|, first, len) && Placed(d, d0, first, len, j, y)
    requires var a := |d0| - first; j < a && y < len && y % a == j && |PassedBelow(len, j, y, a)| + left == len
    requires left > 0 && last == d0[Place(first, y, |d0|)]
    ensures var a := |d0| - first;
      var r := OneChain(d, first + j, y, last, left, a, first + len - |d0|);
      && Placed(r.0, d0, first, len, j + 1, j + 1)
      && |PassedBelow(len, j + 1, j + 1, a)| + r.1 == len && (r.1 > 0 ==> j + 1 < a)
    decreases left
  {
    hide Bounces, PassedBelow, Passed;
    var n, a, end := |d0|, |d0| - first, first + len - |d0|;
    PlaceOne(d, d0, first, len, j, y);
    var d' := d[y := last];
    LandsInside(n, first, len, j, y);
    if left == 1 || y >= end {
      assert Placed(d', d0, first, len, j + 1, j + 1)
             && PassedBelow(len, j, y + a, a) == PassedBelow(len, j + 1, j + 1, a) by {
        if y >= end {
          ChainDone(len, j, y + a, a);
        } else {
          AllPassed(len, j, y + a, a);
          EveryPassed(len, j, y + a, j + 1, a);
        }
      }
      if left > 1 && j + 1 == a {
        NonePassedLater(len, a);
      }
    } else {
      NextRemainder(y, a);
      assert d[y] == d0[y] by {
        assert y !in PassedBelow(len, j, y, a);
      }
      ChainFits(d', d0, first, len, j, y + a, d[y], left - 1);
    }
  }

  lemma EveryPassed(len: nat, j: nat, y: nat, k: nat, a: nat)
    requires 0 < a && PassedAll(len, j, y, a) && k == j + 1
    ensures PassedAll(len, k, k, a)
    ensures PassedBelow(len, j, y, a) == PassedBelow(len, k, k, a)
  {
    forall x: nat | x < len ensures Passed(x, k, k, a) {
      assert Passed(x, j, y, a);
    }
  }

  lemma NotYetPassed(n: nat, first: nat, len: nat, j: nat)
    requires Wraps(n, first, len) && Bounces(n, first, len) && j < n - first
    ensures first + j < len ==> !Passed(first + j, j, j, n - first)
  {
    var a := n - first;
    if first + j < len {
      NextRemainder(first, a);
      assert first % a == n % a;
      RemainderAdds(first, j, a);
    }
  }

  /** The byte a chain starts with has not been written over. */
  lemma StartUntouched(d: seq<char>, d0: seq<char>, first: nat, len: nat, j: nat)
    requires Wraps(|d0|, first, len) && Bounces(|d0|, first, len) && Placed(d, d0, first, len, j, j) && j < |d0| - first
    ensures |d| == |d0| && d[first + j] == d0[first + j] == d0[Place(first, j, |d0|)]
    ensures j % (|d0| - first) == j
  {
    hide Passed, Bounces;
    NotYetPassed(|d0|, first, len, j);
    RemainderIs(j, 0, j, |d0| - first);
  }

  lemma {:induction false} ChainsFit(d: seq<char>, d0: seq<char>, first: nat, len: nat, j: nat, left: nat)
    requires Wraps(|d0|, first, len) && Bounces(|d0|, first, len) && Placed(d, d0, first, len, j, j)
    requires var a := |d0| - first; j < a && |PassedBelow(len, j, j, a)| + left == len && left > 0
    ensures Bounced(d, first + j, left, |d0| - first, first + len - |d0|)[..len] == Ring(d0, first, len)
    decreases left
  {
    hide Bounces, PassedBelow, OneChain, Placed, Passed;
    var n, a, end := |d0|, |d0| - first, first + len - |d0|;
    StartUntouched(d, d0, first, len, j);
    ChainFits(d, d0, first, len, j, j, d[first + j], left);
    var r := OneChain(d, first + j, j, d[first + j], left, a, end);
    if r.1 > 0 {
      ChainsFit(r.0, d0, first, len, j + 1, r.1);
    } else {
      AllPassed(len, j + 1, j + 1, a);
      PlacedAll(r.0, d0, first, len, j + 1);
    }
  }

  lemma PlacedAll(d: seq<char>, d0: seq<char>, first: nat, len: nat, j: nat)
    requires Wraps(|d0|, first, len) && Placed(d, d0, first, len, j, j)
    requires PassedAll(len, j, j, |d0| - first)
    ensures |d| == |d0| && d[..len] == Ring(d0, first, len)
  {
  }

  /** Whenever the condition holds, whatever the contents. */
  lemma BouncedMeetsAll(d: seq<char>, first: nat, len: nat, end: nat)
    requires first < |d| && len <= |d| && Bounces(|d|, first, len)
    requires end == if first + len >= |d| then first + len - |d| else first + len
    ensures Bounced(d, first, len, |d| - first, end)[..len] == Ring(d, first, len)
  {
    if Wraps(|d|, first, len) {
      var a := |d| - first;
      assert PassedBelow(len, 0, 0, a) == {};
      ChainsFit(d, d, first, len, 0, len);
    } else {
      BouncedMeets(d, first, len, end);
    }
  }

  // ---------------------------------------------------------------------------
  // When it does not: one place is written twice, so that another one never is

  /** The places one chain writes, and the number of bytes left. */
  ghost function Places(from: nat, to: nat, left: nat, a: nat, n: nat, end: nat): (r: (set<nat>, nat))
    requires 0 < a <= n && from < n && to < n && left > 0
    ensures to in r.0 && |r.0| + r.1 <= left && r.1 < left
    decreases left
  {
    if left == 1 || to == from || InEmptyArea(from, end, to) then ({to}, left - 1)
    else
      var r := Places(from, Step(to, a, n), left - 1, a, n, end);
      (r.0 + {to}, r.1)
  }

  ghost function AllPlaces(from: nat, left: nat, a: nat, n: nat, end: nat): (s: set<nat>)
    requires 0 < a <= n && from < n
    ensures |s| <= left
    decreases left
  {
    if left == 0 then {}
    else
      var r := Places(from, Step(from, a, n), left, a, n, end);
      r.0 + AllPlaces(Step(from, 1, n), r.1, a, n, end)
  }

  lemma {:induction false} ChainPlaces(d: seq<char>, from: nat, to: nat, last: char, left: nat, a: nat, end: nat)
    requires 0 < a <= |d| && from < |d| && to < |d| && left > 0
    ensures var r, p := OneChain(d, from, to, last, left, a, end), Places(from, to, left, a, |d|, end);
      r.1 == p.1 && forall x: nat | x < |d| && x !in p.0 :: r.0[x] == d[x]
    decreases left
  {
    if !(left == 1 || to == from || InEmptyArea(from, end, to)) {
      ChainPlaces(d[to := last], from, Step(to, a, |d|), d[to], left - 1, a, end);
    }
  }

  /** What is moved where does not depend on the data: other places keep their bytes. */
  lemma {:induction false} BouncedPlaces(d: seq<char>, from: nat, left: nat, a: nat, end: nat)
    requires 0 < a <= |d| && from < |d|
    ensures forall x: nat | x < |d| && x !in AllPlaces(from, left, a, |d|, end) ::
      Bounced(d, from, left, a, end)[x] == d[x]
    decreases left
  {
    if left > 0 {
      hide OneChain, Places;
      var to := Step(from, a, |d|);
      ChainPlaces(d, from, to, d[from], left, a, end);
      var r := OneChain(d, from, to, d[from], left, a, end);
      BouncedPlaces(r.0, Step(from, 1, |d|), r.1, a, end);
    }
  }

  /** The last of the a places before the second lap is only reached from the last start. */
  lemma {:induction false} NotReached(n: nat, first: nat, len: nat, from: nat, to: nat, left: nat)
    requires Wraps(n, first, len) && first <= from < n && to < n && left > 0
    requires to != n - first - 1 && to != n - 1
    ensures n - first - 1 !in Places(from, to, left, n - first, n, first + len - n).0
    decreases left
  {
    var a, end := n - first, first + len - n;
    if !(left == 1 || to == from || InEmptyArea(from, end, to)) {
      NotReached(n, first, len, from, Step(to, a, n), left - 1);
    }
  }

  /** The first chain jumps over the empty area, and goes on from the place of a later start. */
  lemma {:induction false} JumpsOver(n: nat, first: nat, len: nat, y: nat, left: nat)
    requires Wraps(n, first, len) && !Bounces(n, first, len)
    requires y % (n - first) == 0 && y <= n - n % (n - first) && left <= len && 2 * (len - left) <= y
    ensures left > 0 && n - first - n % (n - first) in Places(first, y, left, n - first, n, first + len - n).0
    decreases left
  {
    var a, end := n - first, first + len - n;
    var x0 := n - n % a;
    NextRemainder(y, a);
    MultipleIs(n, a);
    NextRemainder(first, a);
    assert first % a == n % a > 0;
    if y == x0 {
      assert Step(y, a, n) == a - n % a;
    } else {
      MultipleBelow(x0, y, a);
      JumpsOver(n, first, len, y + a, left - 1);
    }
  }

  lemma MultipleIs(n: nat, a: nat)
    requires 0 < a
    ensures n % a <= n && (n - n % a) % a == 0
  {
    NextRemainder(n, a);
    assert n == a * (n / a) + n % a;
    RemainderIs(n - n % a, n / a, 0, a);
  }

  lemma MultipleBelow(x: nat, y: nat, a: nat)
    requires 0 < a && x % a == 0 && y % a == 0 && y < x
    ensures y + a <= x
  {
    if x < y + a {
      SameRemainder(x, y, a);
    }
  }

  lemma UnionSize(s: set<nat>, t: set<nat>, x: nat)
    ensures |s + t| <= |s| + |t| && (x in s && x in t ==> |s + t| < |s| + |t|)
  {
    assert |s + t| + |s * t| == |s| + |t|;
    assert x in s && x in t ==> x in s * t;
  }

  /** Fewer places than needed */
  lemma OneMissing(s: set<nat>, len: nat) returns (x: nat)
    requires |s| < len
    ensures x < len && x !in s
  {
    var below := set x | x in s && x < len;
    assert s == below + (s - below);
    AllOf(below, len);
    x :| x < len && x !in below;
  }

  /** From the start number j on, w being written: the place that start is to fill again is in there. */
  lemma {:induction false} Missed(n: nat, first: nat, len: nat, j: nat, w: set<nat>, left: nat) returns (x: nat)
    requires Wraps(n, first, len) && !Bounces(n, first, len)
    requires var a := n - first; j <= a - n % a && a - n % a in w && a - 1 !in w && |w| + left <= len
    ensures x < len && first + j < n && x !in w && x !in AllPlaces(first + j, left, n - first, n, first + len - n)
    decreases left
  {
    hide Places;
    var a, end := n - first, first + len - n;
    var t := a - n % a;
    if left == 0 {
      x := a - 1;
    } else {
      assert Step(first + j, a, n) == j;
      var p := Places(first + j, j, left, a, n, end);
      UnionSize(w, p.0, t);
      if j < t {
        NotReached(n, first, len, first + j, j, left);
        x := Missed(n, first, len, j + 1, w + p.0, p.1);
      } else {
        var rest := AllPlaces(Step(first + j, 1, n), p.1, a, n, end);
        UnionSize(w + p.0, rest, t);
        x := OneMissing(w + p.0 + rest, len);
      }
    }
  }

  lemma SomePlaceMissed(n: nat, first: nat, len: nat) returns (x: nat)
    requires Wraps(n, first, len) && !Bounces(n, first, len)
    ensures x < len && x !in AllPlaces(first, len, n - first, n, first + len - n)
  {
    hide Places;
    var a, end := n - first, first + len - n;
    RemainderAdds(0, 0, a);
    JumpsOver(n, first, len, 0, len);
    NotReached(n, first, len, first, 0, len);
    var p := Places(first, 0, len, a, n, end);
    assert Step(first, a, n) == 0;
    x := Missed(n, first, len, 1, p.0, p.1);
  }

  lemma Scrambled(n: nat, first: nat, len: nat, end: nat) returns (d: seq<char>)
    requires Wraps(n, first, len) && !Bounces(n, first, len) && end == first + len - n
    ensures |d| == n && Bounced(d, first, len, n - first, end)[..len] != Ring(d, first, len)
  {
    hide Bounces, Bounced, AllPlaces;
    var x := SomePlaceMissed(n, first, len);
    d := seq(n, i => if i == x then 'x' else '.');
    BouncedPlaces(d, first, len, n - first, end);
    assert Bounced(d, first, len, n - first, end)[..len][x] == 'x' && Ring(d, first, len)[x] == '.';
  }

  /** The moves put all contents in order if and only if the condition holds. */
  lemma BouncesExactly(n: nat, first: nat, len: nat, end: nat)
    requires first < n && len <= n && end == if first + len >= n then first + len - n else first + len
    ensures Bounces(n, first, len) <==>
      forall d: seq<char> | |d| == n :: Bounced(d, first, len, n - first, end)[..len] == Ring(d, first, len)
  {
    if Bounces(n, first, len) {
      forall d: seq<char> | |d| == n ensures Bounced(d, first, len, n - first, end)[..len] == Ring(d, first, len) {
        BouncedMeetsAll(d, first, len, end);
      }
    } else {
      var d := Scrambled(n, first, len, end);
    }
  }

  /** buffer_bounce_realign. The distance to the end of the data is never null, as the first byte is below it. */
  method BounceRealign(buf: Buffer)
    requires buf.Valid()
    modifies buf.data
    ensures buf.Valid() && buf.data[..] ==
      Bounced(old(buf.data[..]), buf.BoPtr(), buf.o + buf.i, buf.data.Length - buf.BoPtr(), buf.BiEnd())
    ensures Bounces(buf.data.Length, buf.BoPtr(), buf.o + buf.i) ==> buf.data[..buf.o + buf.i] == old(buf.Contents())
  {
    var from: nat := buf.BoPtr();
    var advance, end, toMove: nat := buf.data.Length - from, buf.BiEnd(), buf.o + buf.i;
    if Bounces(buf.data.Length, from, toMove) {
      BouncedMeetsAll(buf.data[..], from, toMove, end);
    }
    hide Bounced, Ring, InEmptyArea;
    while toMove > 0
      invariant from < buf.data.Length
      invariant Bounced(buf.data[..], from, toMove, advance, end) ==
        old(Bounced(buf.data[..], buf.BoPtr(), buf.o + buf.i, advance, end))
    {
      BouncedStep(buf.data[..], from, toMove, advance, end);
      toMove := MoveChain(buf, from, advance, end, toMove);
      from := Step(from, 1, buf.data.Length);
    }
    BouncedNone(buf.data[..], from, advance, end);
  }
}
