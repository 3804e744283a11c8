/** Counting positions of an array. */
module Counting {
  function Min(a: int, b: int): int { if a < b then a else b }

  /** No element occurs twice. */
  ghost predicate NoRepeats<T>(s: seq<T>) {
    forall i, j | 0 <= i < j < |s| :: s[i] != s[j]
  }

  lemma {:induction false} AllOf(done: set<nat>, n: nat)
    requires forall x | x in done :: x < n
    ensures |done| <= n
    ensures |done| == n <==> forall x: nat | x < n :: x in done
  {
    if n > 0 {
      AllOf(done - {n - 1}, n - 1);
      if n - 1 !in done {
        assert done - {n - 1} == done;
      }
    }
  }

  ghost function Members(s: seq<nat>): (r: set<nat>)
    ensures forall x :: x in r <==> x in s
  {
    if s == [] then {}
    else
      assert s == s[..|s| - 1] + [s[|s| - 1]];
      Members(s[..|s| - 1]) + {s[|s| - 1]}
  }

  lemma {:induction false} Distinct(s: seq<nat>)
    requires forall i: nat, j: nat | i < j < |s| :: s[i] != s[j]
    ensures |Members(s)| == |s|
  {
    if s != [] {
      var last := |s| - 1;
      Distinct(s[..last]);
      assert s[last] !in s[..last];
    }
  }

  /** A list of distinct positions that leaves one out does not fill an array. */
  lemma RoomLeft(s: seq<nat>, n: nat, p: nat)
    requires p < n && p !in s
    requires forall i: nat | i < |s| :: s[i] < n
    requires forall i: nat, j: nat | i < j < |s| :: s[i] != s[j]
    ensures |s| < n
  {
    Distinct(s);
    AllOf(Members(s), n);
  }
}
