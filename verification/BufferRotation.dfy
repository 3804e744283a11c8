/** buffer_bounce_realign on a full buffer: an in-place rotation made of chains of single byte moves,
    without any intermediate buffer. */
module BufferRotation {
  import opened Counting
  import opened RingBuffer

  /** The position `a` further, wrapping at n. */
  function Step(x: nat, a: nat, n: nat): (r: nat)
    requires x < n && 0 < a <= n
    ensures r < n
  {
    if x + a >= n then x + a - n else x + a
  }

  function Steps(x: nat, a: nat, n: nat, j: nat): (r: nat)
    requires x < n && 0 < a <= n
    ensures r < n
  {
    if j == 0 then x else Step(Steps(x, a, n, j - 1), a, n)
  }

  /** Walking along two starting points at the same distance keeps that distance. */
  lemma {:induction false} StepsShift(x: nat, d: nat, a: nat, n: nat, j: nat)
    requires x < n && d < n && 0 < a <= n && 0 < d
    ensures Steps(Step(x, d, n), a, n, j) == Step(Steps(x, a, n, j), d, n)
  {
    if j > 0 {
      StepsShift(x, d, a, n, j - 1);
    }
  }

  /** x is on the chain of one of the k starting points from `first` on. */
  ghost predicate Reached(first: nat, k: nat, a: nat, n: nat, x: nat)
    requires 0 < a <= n && first + k <= n
  {
    exists s: nat, j: nat | first <= s < first + k :: Steps(s, a, n, j) == x
  }

  /** A position is in the set exactly when the one a step further is. */
  ghost predicate Closed(done: set<nat>, a: nat, n: nat)
    requires 0 < a <= n
  {
    forall x: nat | x < n :: x in done <==> Step(x, a, n) in done
  }

  /** The positions written so far: whole chains started at `first`, first + 1, ..., first + k - 1. */
  ghost predicate Chains(done: set<nat>, first: nat, k: nat, a: nat, n: nat) {
    && 0 < a <= n && first + a == n && k <= a
    && (forall x | x in done :: x < n && Reached(first, k, a, n, x))
    && Closed(done, a, n)
    && (forall s: nat | first <= s < first + k :: s in done)
  }

  lemma StepStays(done: set<nat>, a: nat, n: nat, x: nat)
    requires 0 < a <= n && x < n && Closed(done, a, n)
    ensures x in done <==> Step(x, a, n) in done
  {
  }

  lemma {:induction false} ClosedUnderSteps(done: set<nat>, first: nat, k: nat, a: nat, n: nat, x: nat, j: nat)
    requires Chains(done, first, k, a, n) && x in done
    ensures Steps(x, a, n, j) in done
  {
    hide Closed, Step;
    if j > 0 {
      ClosedUnderSteps(done, first, k, a, n, x, j - 1);
      StepStays(done, a, n, Steps(x, a, n, j - 1));
    }
  }

  lemma NoWrap(x: nat, d: nat, n: nat)
    requires x + d < n && 0 < d
    ensures Step(x, d, n) == x + d
  {
  }

  /** When the next starting point is already written, the chains started so far cover everything: it is
      on the chain of an earlier one, s, and shifting both by the same distance stays among written positions. */
  lemma {:induction false} RepeatCovers(done: set<nat>, first: nat, k: nat, a: nat, n: nat, s: nat, j: nat, y: nat)
    requires Chains(done, first, k, a, n) && k < a && first <= s < first + k && Steps(s, a, n, j) == first + k
    requires first <= y < n
    ensures y in done
    decreases y
  {
    hide Closed, Step;
    if y > first + k {
      var d := y - (first + k);
      RepeatCovers(done, first, k, a, n, s, j, s + d);
      ClosedUnderSteps(done, first, k, a, n, s + d, j);
      StepsShift(s, d, a, n, j);
      NoWrap(s, d, n);
      NoWrap(first + k, d, n);
    } else if y == first + k {
      ClosedUnderSteps(done, first, k, a, n, s, j);
    }
  }

  /** The last `a` positions lead to every other one. */
  lemma {:induction false} TailCovers(done: set<nat>, first: nat, k: nat, a: nat, n: nat, x: nat)
    requires Chains(done, first, k, a, n) && x < n
    requires forall y: nat | first <= y < n :: y in done
    ensures x in done
  {
    hide Closed;
    if x < first {
      if x >= a {
        TailCovers(done, first, k, a, n, x - a);
        StepStays(done, a, n, x - a);
      } else {
        StepStays(done, a, n, x + first);
      }
    }
  }

  /** As long as something is left to move, the next starting point exists and has not been written. */
  lemma NextIsFresh(done: set<nat>, first: nat, k: nat, a: nat, n: nat)
    requires Chains(done, first, k, a, n) && |done| < n
    ensures k < a && first + k !in done
  {
    if k == a || first + k in done {
      forall y: nat | first <= y < n ensures y in done {
        if k < a {
          var s: nat, j: nat :| first <= s < first + k && Steps(s, a, n, j) == first + k;
          RepeatCovers(done, first, k, a, n, s, j, y);
        }
      }
      forall x: nat | x < n ensures x in done {
        TailCovers(done, first, k, a, n, x);
      }
      AllOf(done, n);
    }
  }

  // ---------------------------------------------------------------------------
  // The bytes

  /** Every byte whose place is written has reached it, everything else is untouched. */
  ghost predicate Moved(d: seq<char>, d0: seq<char>, w: set<nat>, a: nat)
    requires 0 < a <= |d0|
  {
    && |d| == |d0|
    && (forall x: nat | x < |d0| && Step(x, a, |d0|) in w :: d[Step(x, a, |d0|)] == d0[x])
    && (forall x: nat | x < |d0| && x !in w :: d[x] == d0[x])
  }

  ghost predicate Within(w: set<nat>, n: nat) {
    forall x | x in w :: x < n
  }

  /** The places met since the start of the current chain, none of them written before. */
  ghost predicate Chain(c: seq<nat>, done: set<nat>, a: nat, n: nat)
    requires 0 < a <= n
  {
    && |c| > 0 && Closed(done, a, n)
    && (forall i | 0 <= i < |c| :: c[i] < n && c[i] !in done && (c[0] < n ==> c[i] == Steps(c[0], a, n, i)))
    && (forall i, j | 0 <= i < j < |c| :: c[i] != c[j])
  }

  /** Places written since the start of the current chain: all but the one its first byte comes from. */
  ghost function Written(c: seq<nat>, done: set<nat>): set<nat>
    requires |c| > 0
  {
    done + set x | x in c[1..]
  }

  lemma StepInjective(x: nat, y: nat, a: nat, n: nat)
    requires x < n && y < n && 0 < a <= n && Step(x, a, n) == Step(y, a, n)
    ensures x == y
  {
  }

  lemma ChainStep(c: seq<nat>, done: set<nat>, a: nat, n: nat, i: nat)
    requires 0 < a <= n && Chain(c, done, a, n) && i < |c| - 1
    ensures c[i + 1] == Step(c[i], a, n)
  {
  }

  /** The place after the last one of a chain has not been written. */
  lemma NextPlace(c: seq<nat>, done: set<nat>, a: nat, n: nat)
    requires 0 < a <= n && Chain(c, done, a, n)
    ensures var to := Step(c[|c| - 1], a, n);
      to !in Written(c, done) && (to != c[0] ==> Chain(c + [to], done, a, n))
  {
    hide Step, Closed;
    var to := Step(c[|c| - 1], a, n);
    StepStays(done, a, n, c[|c| - 1]);
    forall i | 0 < i < |c| ensures c[i] != to {
      ChainStep(c, done, a, n, i - 1);
      if c[i] == to {
        StepInjective(c[i - 1], c[|c| - 1], a, n);
      }
    }
  }

  /** The places of a chain that is back home, with whole chains, are closed under steps. */
  lemma ChainCloses(c: seq<nat>, done: set<nat>, a: nat, n: nat)
    requires 0 < a <= n && Chain(c, done, a, n) && Step(c[|c| - 1], a, n) == c[0]
    ensures Closed(done + (set x | x in c), a, n)
  {
    var w := done + set x | x in c;
    forall x: nat | x < n ensures x in w <==> Step(x, a, n) in w {
      hide Step, Steps, Closed;
      StepStays(done, a, n, x);
      if x in c {
        var i :| 0 <= i < |c| && c[i] == x;
        if i < |c| - 1 {
          ChainStep(c, done, a, n, i);
        }
      } else if Step(x, a, n) in c {
        var i :| 0 <= i < |c| && c[i] == Step(x, a, n);
        if i > 0 {
          ChainStep(c, done, a, n, i - 1);
        }
        StepInjective(x, c[if i > 0 then i - 1 else |c| - 1], a, n);
      }
    }
  }

  /** Back home: the written places are whole chains again, one more than before. */
  lemma ChainEnds(c: seq<nat>, done: set<nat>, first: nat, k: nat, a: nat, n: nat)
    requires Chains(done, first, k, a, n) && k < a && Chain(c, done, a, n) && c[0] == first + k
    requires Step(c[|c| - 1], a, n) == c[0]
    ensures Chains(Written(c, done) + {c[0]}, first, k + 1, a, n)
  {
    hide Step, Steps, Closed;
    ChainCloses(c, done, a, n);
    assert c == [c[0]] + c[1..];
    var w := done + set x | x in c;
    assert w == Written(c, done) + {c[0]};
    forall x | x in w ensures x < n && Reached(first, k + 1, a, n, x) {
      if x in done {
        var s: nat, j: nat :| first <= s < first + k && Steps(s, a, n, j) == x;
        assert first <= s < first + (k + 1);
      } else {
        var i: nat :| i < |c| && c[i] == x;
        assert Steps(first + k, a, n, i) == x;
      }
    }
  }

  // ---------------------------------------------------------------------------
  // The two loops

  /** With the contents between `first` and `end`, `to` is in the part of the ring that holds nothing. */
  predicate InEmptyArea(from: nat, end: nat, to: nat) {
    if from > end then end <= to < from
    else if from < end then to < from || end <= to
    else false
  }

  /** One chain: `last` goes to `to`, the byte found there goes a step further, and so on; the number of
      bytes left to move is returned with the data. */
  ghost function OneChain(d: seq<char>, from: nat, to: nat, last: char, left: nat, a: nat, end: nat):
    (r: (seq<char>, nat))
    requires 0 < a <= |d| && from < |d| && to < |d| && left > 0
    ensures |r.0| == |d| && r.1 < left
    decreases left
  {
    var d' := d[to := last];
    if left == 1 || to == from || InEmptyArea(from, end, to) then (d', left - 1)
    else OneChain(d', from, Step(to, a, |d|), d[to], left - 1, a, end)
  }

  ghost function Bounced(d: seq<char>, from: nat, left: nat, a: nat, end: nat): (r: seq<char>)
    requires 0 < a <= |d| && from < |d|
    ensures |r| == |d|
    decreases left
  {
    if left == 0 then d
    else
      var r := OneChain(d, from, Step(from, a, |d|), d[from], left, a, end);
      Bounced(r.0, Step(from, 1, |d|), r.1, a, end)
  }

  lemma WrittenMore(c: seq<nat>, done: set<nat>, to: nat)
    requires |c| > 0
    ensures Written(c + [to], done) == Written(c, done) + {to}
  {
    assert (c + [to])[1..] == c[1..] + [to];
  }

  /** Writing one place more. */
  lemma MoveOne(d: seq<char>, d0: seq<char>, w: set<nat>, a: nat, x: nat)
    requires 0 < a <= |d0| && Moved(d, d0, w, a) && x < |d0| && Step(x, a, |d0|) !in w
    ensures Moved(d[Step(x, a, |d0|) := d0[x]], d0, w + {Step(x, a, |d0|)}, a)
    ensures |d| == |d0| && d[Step(x, a, |d0|)] == d0[Step(x, a, |d0|)]
  {
    forall y: nat | y < |d0| && Step(y, a, |d0|) == Step(x, a, |d0|) ensures y == x {
      StepInjective(x, y, a, |d0|);
    }
  }

  /** On a full buffer what has been written and what is left make the whole, and a chain that leaves something
      ends as a whole. */
  lemma {:induction false} ChainFull(d: seq<char>, d0: seq<char>, c: seq<nat>, done: set<nat>, first: nat, k: nat,
                                     a: nat, last: char, left: nat)
    returns (w: set<nat>)
    requires Chains(done, first, k, a, |d0|) && k < a && Chain(c, done, a, |d0|) && c[0] == first + k
    requires Moved(d, d0, Written(c, done), a) && last == d0[c[|c| - 1]]
    requires left > 0 && |Written(c, done)| + left == |d0|
    ensures var r := OneChain(d, c[0], Step(c[|c| - 1], a, |d0|), last, left, a, first);
      Moved(r.0, d0, w, a) && Within(w, |d0|) && |w| + r.1 == |d0| && (r.1 > 0 ==> Chains(w, first, k + 1, a, |d0|))
    decreases left
  {
    hide Chain, Chains, Closed, Step, Steps, Moved;
    ChainsFacts(done, first, k, a, |d0|);
    ChainFacts(c, done, a, |d0|);
    var to := Step(c[|c| - 1], a, |d0|);
    NextPlace(c, done, a, |d0|);
    MoveOne(d, d0, Written(c, done), a, c[|c| - 1]);
    w := Written(c, done) + {to};
    if left > 1 && to == c[0] {
      ChainEnds(c, done, first, k, a, |d0|);
    } else if left > 1 {
      WrittenMore(c, done, to);
      w := ChainFull(d[to := last], d0, c + [to], done, first, k, a, d[to], left - 1);
    }
  }

  lemma ChainsFacts(done: set<nat>, first: nat, k: nat, a: nat, n: nat)
    requires Chains(done, first, k, a, n)
    ensures first + a == n && 0 < a && Within(done, n)
    ensures forall s: nat | first <= s < first + k :: s in done
  {
  }

  lemma ChainFacts(c: seq<nat>, done: set<nat>, a: nat, n: nat)
    requires 0 < a <= n && Chain(c, done, a, n)
    ensures |c| > 0 && c[|c| - 1] < n && c[0] !in done && Closed(done, a, n)
    ensures Within(done, n) ==> Within(Written(c, done), n)
  {
  }

  /** Every byte is where it has to be. */
  ghost predicate Rotated(d: seq<char>, d0: seq<char>, a: nat)
    requires 0 < a <= |d0|
  {
    |d| == |d0| && forall x: nat | x < |d0| :: d[Step(x, a, |d0|)] == d0[x]
  }

  lemma AllMoved(d: seq<char>, d0: seq<char>, w: set<nat>, a: nat)
    requires 0 < a <= |d0| && Moved(d, d0, w, a) && |w| == |d0| && Within(w, |d0|)
    ensures Rotated(d, d0, a)
  {
    AllOf(w, |d0|);
  }

  lemma StartChain(done: set<nat>, first: nat, k: nat, a: nat, n: nat)
    requires Chains(done, first, k, a, n) && |done| < n
    ensures k < a && Chain([first + k], done, a, n) && Written([first + k], done) == done && first + k !in done
  {
    NextIsFresh(done, first, k, a, n);
    assert [first + k][1..] == [];
  }

  /** The outer loop from its (k + 1)st start on. */
  lemma {:induction false} ChainsFull(d: seq<char>, d0: seq<char>, done: set<nat>, first: nat, k: nat, a: nat,
                                      left: nat)
    requires 0 < a <= |d0| && Moved(d, d0, done, a) && first + a == |d0| && |d| == |d0|
    requires left > 0 && |done| + left == |d0| && Chains(done, first, k, a, |d0|) && k < a
    ensures Rotated(Bounced(d, first + k, left, a, first), d0, a)
    decreases left
  {
    hide Chain, Chains, Closed, Step, Steps, Moved, Rotated, OneChain, Written, Within;
    var n := |d0|;
    StartChain(done, first, k, a, n);
    Untouched(d, d0, done, a, first + k);
    var w := ChainFull(d, d0, [first + k], done, first, k, a, d[first + k], left);
    var r := OneChain(d, first + k, Step(first + k, a, n), d[first + k], left, a, first);
    if r.1 > 0 {
      StartChain(w, first, k + 1, a, n);
      NoWrap(first + k, 1, n);
      ChainsFull(r.0, d0, w, first, k + 1, a, r.1);
    } else {
      AllMoved(r.0, d0, w, a);
    }
  }

  lemma Untouched(d: seq<char>, d0: seq<char>, w: set<nat>, a: nat, x: nat)
    requires 0 < a <= |d0| && Moved(d, d0, w, a) && x < |d0| && x !in w
    ensures |d| == |d0| && d[x] == d0[x]
  {
  }

  lemma RotatedIs(d: seq<char>, d0: seq<char>, first: nat)
    requires first < |d0| && Rotated(d, d0, |d0| - first)
    ensures d == Ring(d0, first, |d0|)
  {
    forall y: nat | y < |d0| ensures d[y] == Ring(d0, first, |d0|)[y] {
      assert Step(Place(first, y, |d0|), |d0| - first, |d0|) == y;
    }
  }

  /** On a full buffer the result is the ring unrolled from its first byte. */
  lemma BouncedFull(d: seq<char>, first: nat)
    requires first < |d|
    ensures Bounced(d, first, |d|, |d| - first, first) == d[first..] + d[..first] == Ring(d, first, |d|)
  {
    ChainsFull(d, d, {}, first, 0, |d| - first, |d|);
    hide Ring, Rotated, Bounced;
    RotatedIs(Bounced(d, first, |d|, |d| - first, first), d, first);
    RingBlocks(d, first, |d|);
    assert first == 0 ==> d[first..] + d[..first] == d[first..first + |d|];
  }

  /** On contents that do not wrap, every chain is a single move towards the start, in order. */
  lemma {:induction false} BouncedContiguous(d: seq<char>, d0: seq<char>, first: nat, len: nat, k: nat, end: nat)
    requires 0 < first < |d0| && |d| == |d0| && k <= len && first + len <= |d0|
    requires end == if first + len == |d0| then 0 else first + len
    requires d[..k] == d0[first..first + k] && d[k..] == d0[k..]
    ensures k < len ==> Bounced(d, first + k, len - k, |d| - first, end)[..len] == d0[first..first + len]
    decreases len - k
  {
    if k < len {
      var d' := d[k := d[first + k]];
      assert d[first + k] == d[k..][first] == d0[k..][first];
      assert OneChain(d, first + k, k, d[first + k], len - k, |d| - first, end) == (d', len - k - 1);
      assert d'[..k + 1] == d[..k] + [d[first + k]];
      assert d'[k + 1..] == d[k..][1..] == d0[k + 1..];
      if k + 1 < len {
        BouncedContiguous(d', d0, first, len, k + 1, end);
      }
    }
  }

  /** On contents that start at the beginning of the ring nothing moves. */
  lemma {:induction false} BouncedAligned(d: seq<char>, from: nat, left: nat, end: nat)
    requires from < |d|
    ensures Bounced(d, from, left, |d|, end) == d
    decreases left
  {
    if left > 0 {
      assert d[from := d[from]] == d;
      BouncedAligned(d, Step(from, 1, |d|), left - 1, end);
    }
  }

  /** Contents that fill the ring, or that do not wrap, end up in order from offset 0 on. */
  lemma BouncedMeets(d: seq<char>, first: nat, len: nat, end: nat)
    requires first < |d| && (len == |d| || first + len <= |d|)
    requires end == if first + len >= |d| then first + len - |d| else first + len
    ensures Bounced(d, first, len, |d| - first, end)[..len] == Ring(d, first, len)
  {
    if len == |d| {
      BouncedFull(d, first);
    } else if first == 0 {
      BouncedAligned(d, 0, len, end);
    } else {
      BouncedContiguous(d, d, first, len, 0, end);
    }
  }

  /** Contents that wrap without filling the ring may be scrambled: a byte moved by the first chain is
      moved again by the second one. Here four bytes start at offset 2 of a ring of five. */
  lemma BouncedWrapped()
    ensures Ring("abcde", 2, 4) == "cdea"
    ensures Bounced("abcde", 2, 4, 3, 1) == "cacae"
  {
    var d1, d2, d3, d4 := "cbcde", "cbcae", "cdcae", "cacae";
    assert "abcde"[0 := 'c'] == d1 && d1[3 := 'a'] == d2 && d2[1 := 'd'] == d3 && d3[1 := 'a'] == d4;
    assert OneChain("abcde", 2, 0, 'c', 4, 3, 1) == OneChain(d1, 2, 3, 'a', 3, 3, 1);
    assert OneChain(d1, 2, 3, 'a', 3, 3, 1) == OneChain(d2, 2, 1, 'd', 2, 3, 1);
    assert OneChain(d2, 2, 1, 'd', 2, 3, 1) == (d3, 1);
    assert OneChain(d3, 3, 1, 'a', 1, 3, 1) == (d4, 0);
  }

  lemma BouncedStep(d: seq<char>, from: nat, left: nat, a: nat, end: nat)
    requires 0 < a <= |d| && from < |d| && left > 0
    ensures var r := OneChain(d, from, Step(from, a, |d|), d[from], left, a, end);
      Bounced(d, from, left, a, end) == Bounced(r.0, Step(from, 1, |d|), r.1, a, end)
  {
  }

  lemma BouncedNone(d: seq<char>, from: nat, a: nat, end: nat)
    requires 0 < a <= |d| && from < |d|
    ensures Bounced(d, from, 0, a, end) == d
  {
  }

  /** The inner loop: bytes move along one chain until it is back home, in the empty area, or all is moved. */
  method MoveChain(buf: Buffer, from: nat, advance: nat, end: nat, left: nat) returns (toMove: nat)
    requires 0 < advance <= buf.data.Length && from < buf.data.Length && left > 0
    modifies buf.data
    ensures (buf.data[..], toMove) ==
      old(OneChain(buf.data[..], from, Step(from, advance, buf.data.Length), buf.data[from], left, advance, end))
  {
    toMove := left;
    var last, to: nat := buf.data[from], Step(from, advance, buf.data.Length);
    ghost var r := OneChain(buf.data[..], from, to, last, toMove, advance, end);
    while true
      invariant to < buf.data.Length && toMove > 0
      invariant OneChain(buf.data[..], from, to, last, toMove, advance, end) == r
      decreases toMove
    {
      ghost var d := buf.data[..];
      var save := buf.data[to];
      buf.data[to] := last;
      assert buf.data[..] == d[to := last];
      last := save;
      toMove := toMove - 1;
      if toMove == 0 {
        break;
      }
      if to == from {
        break;
      }
      if from > end {
        if to >= end && to < from {
          break;
        }
      } else if from < end {
        if to < from || to >= end {
          break;
        }
      }
      to := Step(to, advance, buf.data.Length);
    }
  }
}
