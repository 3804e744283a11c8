/** The chains of buffer_bounce_realign on a full buffer are the cycles of a rotation: as many as the greatest
    common divisor of the size and the distance, each left where it started, and every place is on one. */
module BufferCycles {
  import opened RingBuffer
  import opened BufferRotation
  import opened BufferBounce

  function Gcd(a: nat, b: nat): (g: nat)
    requires a > 0
    ensures g > 0
    decreases b
  {
    if b == 0 then a else Gcd(b, a % b)
  }

  ghost predicate Divides(g: nat, x: int) {
    exists q: int :: x == g * q
  }

  lemma DividesSum(g: nat, x: int, y: int, q: int)
    requires Divides(g, x) && Divides(g, y)
    ensures Divides(g, x + q * y)
  {
    var u, v :| x == g * u && y == g * v;
    assert x + q * y == g * (u + q * v) by {
      assert q * (g * v) == g * (q * v);
      assert g * (u + q * v) == g * u + g * (q * v);
    }
  }

  lemma {:induction false} GcdDivides(a: nat, b: nat)
    requires a > 0
    ensures Divides(Gcd(a, b), a) && Divides(Gcd(a, b), b)
    decreases b
  {
    var g := Gcd(a, b);
    if b == 0 {
      assert a == g * 1 && b == g * 0;
    } else {
      GcdDivides(b, a % b);
      assert a == a % b + (a / b) * b;
      DividesSum(g, a % b, b, a / b);
    }
  }

  lemma {:induction false} Bezout(a: nat, b: nat) returns (u: int, v: int)
    requires a > 0
    ensures u * a + v * b == Gcd(a, b)
    decreases b
  {
    if b == 0 {
      u, v := 1, 0;
    } else {
      var s, t := Bezout(b, a % b);
      u, v := t, s - a / b * t;
      assert a % b == a - a / b * b;
      assert t * (a % b) == t * a - t * (a / b * b);
      assert (a / b * t) * b == t * (a / b * b);
    }
  }

  /** No multiple of g lies strictly between 0 and g, nor between -g and 0. */
  lemma NoMultiple(g: nat, x: int)
    requires Divides(g, x) && x < g && -x < g
    ensures x == 0
  {
    var q :| x == g * q;
    NotBetween(g, q);
    assert g * -q == -x;
    NotBetween(g, -q);
  }

  // ---------------------------------------------------------------------------
  // How far steps lead

  lemma {:induction false} StepsDistance(x: nat, a: nat, n: nat, j: nat) returns (q: int)
    requires x < n && 0 < a <= n
    ensures Steps(x, a, n, j) == x + j * a - n * q
  {
    if j == 0 {
      q := 0;
    } else {
      var r := StepsDistance(x, a, n, j - 1);
      assert j * a == (j - 1) * a + a;
      q := if Steps(x, a, n, j - 1) + a >= n then r + 1 else r;
      assert n * (r + 1) == n * r + n;
    }
  }

  lemma Regroup(a: nat, n: nat, u: int, v: int, t: int, q: int)
    ensures (v + t * n) * a - n * q == u * n + v * a + n * (t * a - u - q)
  {
    assert (v + t * n) * a == v * a + t * n * a;
    assert t * n * a == n * (t * a);
    assert n * (t * a - u - q) == n * (t * a) - n * u - n * q;
  }

  /** Some number of steps leads exactly as far as the greatest common divisor. */
  lemma ReachesGcd(x: nat, a: nat, n: nat, g: nat) returns (j: nat)
    requires 0 < a <= n && g == Gcd(n, a) && x + g < n
    ensures Steps(x, a, n, j) == x + g
  {
    hide Gcd, Steps;
    var u, v := Bezout(n, a);
    var t := if v < 0 then -v else 0;
    assert v + t * n >= 0 by {
      assert v < 0 ==> t * n == t * (n - 1) + t;
    }
    j := v + t * n;
    var q := StepsDistance(x, a, n, j);
    Regroup(a, n, u, v, t, q);
    var k := t * a - u - q;
    SmallMultiple(n, k, Steps(x, a, n, j) - (x + g));
  }

  lemma SmallMultiple(n: nat, k: int, z: int)
    requires z == n * k && z < n && -z < n
    ensures z == 0
  {
    NoMultiple(n, z);
  }

  // ---------------------------------------------------------------------------
  // Classes modulo a divisor of size and distance

  lemma StepClass(g: nat, x: nat, y: int, a: nat, n: nat)
    requires Divides(g, a) && Divides(g, n) && x < n && 0 < a <= n && Divides(g, x - y)
    ensures Divides(g, Step(x, a, n) - y)
  {
    DividesSum(g, x - y, a, 1);
    DividesSum(g, x - y + a, n, -1);
  }

  lemma {:induction false} PlacesClass(g: nat, y: nat, from: nat, to: nat, left: nat, a: nat, n: nat, end: nat)
    requires Divides(g, a) && Divides(g, n) && 0 < a <= n && from < n && to < n && left > 0
    requires Divides(g, to - from) && y in Places(from, to, left, a, n, end).0
    ensures Divides(g, y - from)
    decreases left
  {
    if y != to {
      StepClass(g, to, from, a, n);
      PlacesClass(g, y, from, Step(to, a, n), left - 1, a, n, end);
    }
  }

  /** One chain without the test for the empty area: a cycle, followed until it is back home. */
  ghost function Cycle(from: nat, to: nat, left: nat, a: nat, n: nat): (r: (set<nat>, nat))
    requires 0 < a <= n && from < n && to < n && left > 0
    ensures r.1 < left
    decreases left
  {
    if left == 1 || to == from then ({to}, left - 1)
    else
      var r := Cycle(from, Step(to, a, n), left - 1, a, n);
      (r.0 + {to}, r.1)
  }

  /** On a full buffer, the k-th chain is not stopped by the empty area. */
  lemma {:induction false} PlacesAreCycle(g: nat, first: nat, k: nat, to: nat, left: nat, a: nat, n: nat)
    requires Divides(g, a) && Divides(g, n) && 0 < a <= n && k < g && first + k < n && to < n && left > 0
    requires Divides(g, to - (first + k))
    ensures Places(first + k, to, left, a, n, first) == Cycle(first + k, to, left, a, n)
    decreases left
  {
    if InEmptyArea(first + k, first, to) {
      NoMultiple(g, to - (first + k));
    }
    if left > 1 && to != first + k {
      StepClass(g, to, first + k, a, n);
      PlacesAreCycle(g, first, k, Step(to, a, n), left - 1, a, n);
    }
  }

  // ---------------------------------------------------------------------------
  // How many chains

  ghost function Starts(from: nat, left: nat, a: nat, n: nat, end: nat): nat
    requires 0 < a <= n && from < n
    decreases left
  {
    if left == 0 then 0
    else 1 + Starts(Step(from, 1, n), Places(from, Step(from, a, n), left, a, n, end).1, a, n, end)
  }

  lemma GoesAround(done: set<nat>, first: nat, k: nat, a: nat, n: nat, g: nat)
    requires Chains(done, first, k, a, n) && 0 < a <= n && g == Gcd(n, a) && g <= k && first + k < n
    requires first + k - g in done
    ensures first + k in done
  {
    hide Chains, Gcd, Steps, Step, Closed, Reached;
    var j := ReachesGcd(first + k - g, a, n, g);
    ClosedUnderSteps(done, first, k, a, n, first + k - g, j);
  }

  /** As long as bytes are left, fewer chains have been followed than the greatest common divisor. */
  lemma FreshBelow(done: set<nat>, first: nat, k: nat, a: nat, n: nat)
    requires Chains(done, first, k, a, n) && |done| < n && 0 < a
    ensures k < Gcd(n, a)
  {
    NextIsFresh(done, first, k, a, n);
    ChainsFacts(done, first, k, a, n);
    hide Chains, Gcd, Steps, Step, Closed, Reached;
    if k >= Gcd(n, a) {
      GoesAround(done, first, k, a, n, Gcd(n, a));
    }
  }

  lemma {:induction false} AtMostGcd(d: seq<char>, d0: seq<char>, done: set<nat>, first: nat, k: nat, a: nat, left: nat)
    requires 0 < a <= |d0| && Moved(d, d0, done, a) && first + a == |d0| && |d| == |d0|
    requires left > 0 && |done| + left == |d0| && Chains(done, first, k, a, |d0|) && k < a
    ensures k + Starts(first + k, left, a, |d0|, first) <= Gcd(|d0|, a)
    decreases left
  {
    hide Chain, Chains, Closed, Step, Steps, Moved, OneChain, Written, Within, Places;
    var n := |d0|;
    StartChain(done, first, k, a, n);
    FreshBelow(done, first, k, a, n);
    Untouched(d, d0, done, a, first + k);
    var w := ChainFull(d, d0, [first + k], done, first, k, a, d[first + k], left);
    var to := Step(first + k, a, n);
    ChainPlaces(d, first + k, to, d[first + k], left, a, first);
    var r := OneChain(d, first + k, to, d[first + k], left, a, first);
    if r.1 > 0 {
      StartChain(w, first, k + 1, a, n);
      NoWrap(first + k, 1, n);
      AtMostGcd(r.0, d0, w, first, k + 1, a, r.1);
    }
  }

  /** What is written belongs to the classes of the starts. */
  lemma {:induction false} AllClass(g: nat, y: nat, first: nat, k: nat, left: nat, a: nat, n: nat) returns (i: nat)
    requires 0 < a && first + a == n && Divides(g, a) && Divides(g, n) && first + k < n
    requires k + Starts(first + k, left, a, n, first) <= a && y in AllPlaces(first + k, left, a, n, first)
    ensures i < Starts(first + k, left, a, n, first) && Divides(g, y - (first + k + i))
    decreases left
  {
    var to := Step(first + k, a, n);
    assert to == k;
    var r := Places(first + k, to, left, a, n, first);
    if y in r.0 {
      i := 0;
      DividesSum(g, a, n, -1);
      assert to - (first + k) == a - n;
      PlacesClass(g, y, first + k, to, left, a, n, first);
    } else {
      assert r.1 > 0;
      var i' := AllClass(g, y, first, k + 1, r.1, a, n);
      i := i' + 1;
    }
  }

  /** Every place is written: n writes for n places, so each once. */
  lemma AllWritten(n: nat, first: nat, x: nat)
    requires first < n && x < n
    ensures x in AllPlaces(first, n, n - first, n, first)
  {
    if first == 0 {
      AlignedPlaces(0, n, n, x);
    } else {
      hide Bounced, AllPlaces;
      var d := seq(n, i => if i == x then 'x' else '.');
      BouncedPlaces(d, first, n, n - first, first);
      BouncedFull(d, first);
      assert Ring(d, first, n)[x] == d[Place(first, x, n)] == '.';
    }
  }

  lemma {:induction false} AlignedPlaces(from: nat, left: nat, n: nat, x: nat)
    requires from < n && from + left == n && from <= x < n
    ensures x in AllPlaces(from, left, n, n, 0)
    decreases left
  {
    assert Step(from, n, n) == from;
    if x > from {
      AlignedPlaces(from + 1, left - 1, n, x);
    }
  }

  lemma AtLeastGcd(n: nat, first: nat)
    requires first < n && Starts(first, n, n - first, n, first) <= n - first
    ensures Gcd(n, n - first) <= Starts(first, n, n - first, n, first)
  {
    var a, g, k := n - first, Gcd(n, n - first), Starts(first, n, n - first, n, first);
    GcdDivides(n, a);
    if k < g {
      if first + k >= n {
        NoMultiple(g, a);
      }
      AllWritten(n, first, first + k);
      var i := AllClass(g, first + k, first, 0, n, a, n);
      NoMultiple(g, k - i);
    }
  }

  /** On a full buffer there are exactly gcd(size, distance) chains, from consecutive starts, and the size bytes
      moved are written at as many places: each place once. */
  lemma FullCycles(n: nat, first: nat, a: nat)
    requires first < n && a == n - first
    ensures Starts(first, n, a, n, first) == Gcd(n, a)
    ensures forall x: nat :: x in AllPlaces(first, n, a, n, first) <==> x < n
  {
    var d: seq<char> := seq(n, i => '.');
    assert Chains({}, first, 0, a, n) && Moved(d, d, {}, a);
    hide Chains, Moved, AllPlaces, Starts;
    AtMostGcd(d, d, {}, first, 0, a, n);
    GcdAtMost(n, a);
    AtLeastGcd(n, first);
    forall x: nat | x < n ensures x in AllPlaces(first, n, a, n, first) {
      AllWritten(n, first, x);
    }
    PlacesBelow(first, n, a, n, first);
  }

  lemma GcdAtMost(n: nat, a: nat)
    requires 0 < a <= n
    ensures Gcd(n, a) <= a
  {
    GcdDivides(n, a);
    if a < Gcd(n, a) {
      NoMultiple(Gcd(n, a), a);
    }
  }

  lemma {:induction false} ChainBelow(from: nat, to: nat, left: nat, a: nat, n: nat, end: nat)
    requires 0 < a <= n && from < n && to < n && left > 0
    ensures forall x | x in Places(from, to, left, a, n, end).0 :: x < n
    decreases left
  {
    if !(left == 1 || to == from || InEmptyArea(from, end, to)) {
      ChainBelow(from, Step(to, a, n), left - 1, a, n, end);
    }
  }

  lemma {:induction false} PlacesBelow(from: nat, left: nat, a: nat, n: nat, end: nat)
    requires 0 < a <= n && from < n
    ensures forall x | x in AllPlaces(from, left, a, n, end) :: x < n
    decreases left
  {
    if left > 0 {
      var to := Step(from, a, n);
      ChainBelow(from, to, left, a, n, end);
      PlacesBelow(Step(from, 1, n), Places(from, to, left, a, n, end).1, a, n, end);
    }
  }

  /** None of the chains of a full buffer is stopped by the empty area. */
  lemma NeverStopped(n: nat, first: nat, k: nat, left: nat)
    requires first + k < n && k < Gcd(n, n - first) && left > 0
    ensures var a := n - first; Places(first + k, k, left, a, n, first) == Cycle(first + k, k, left, a, n)
  {
    var a := n - first;
    GcdDivides(n, a);
    DividesSum(Gcd(n, a), a, n, -1);
    assert k - (first + k) == a - n;
    PlacesAreCycle(Gcd(n, a), first, k, k, left, a, n);
  }
}
