/** The elements of a sequence that meet a condition, in order. */
module Sifting {
  import opened Counting

  ghost function Those<T>(s: seq<T>, f: T -> bool): seq<T> {
    if s == [] then [] else (if f(s[0]) then [s[0]] else []) + Those(s[1..], f)
  }

  lemma ThoseStep<T>(x: T, s: seq<T>, f: T -> bool)
    ensures Those([x] + s, f) == (if f(x) then [x] else []) + Those(s, f)
  {
    assert ([x] + s)[1..] == s;
  }

  lemma {:induction false} ThoseConcat<T>(s: seq<T>, u: seq<T>, f: T -> bool)
    ensures Those(s + u, f) == Those(s, f) + Those(u, f)
  {
    if s == [] {
      assert s + u == u;
    } else {
      hide Those;
      ThoseConcat(s[1..], u, f);
      ThoseStep(s[0], s[1..] + u, f);
      ThoseStep(s[0], s[1..], f);
      assert s + u == [s[0]] + (s[1..] + u) && s == [s[0]] + s[1..];
    }
  }

  lemma {:induction false} ThoseNone<T>(s: seq<T>, f: T -> bool)
    requires forall i | 0 <= i < |s| :: !f(s[i])
    ensures Those(s, f) == []
  {
    if s != [] {
      ThoseNone(s[1..], f);
    }
  }

  lemma {:induction false} ThoseAll<T>(s: seq<T>, f: T -> bool)
    requires forall i | 0 <= i < |s| :: f(s[i])
    ensures Those(s, f) == s
  {
    if s != [] {
      ThoseAll(s[1..], f);
    }
  }

  lemma {:induction false} ThoseIn<T>(s: seq<T>, f: T -> bool)
    ensures forall y | y in s :: f(y) ==> y in Those(s, f)
    ensures forall y | y in Those(s, f) :: y in s && f(y)
  {
    if s != [] {
      ThoseIn(s[1..], f);
    }
  }

  /** The order of two conditions does not matter. */
  lemma {:induction false} ThoseSwap<T>(s: seq<T>, f: T -> bool, g: T -> bool)
    ensures Those(Those(s, f), g) == Those(Those(s, g), f)
  {
    if s != [] {
      var x, u := s[0], s[1..];
      ThoseSwap(u, f, g);
      ThoseStep(x, Those(u, f), g);
      ThoseStep(x, Those(u, g), f);
      assert [x] + u == s && [] + Those(u, f) == Those(u, f) && [] + Those(u, g) == Those(u, g);
    }
  }

  /** The first of them is the first element that meets the condition. */
  lemma {:induction false} ThoseFirst<T>(s: seq<T>, f: T -> bool) returns (i: nat)
    ensures if Those(s, f) == [] then i == |s| else i < |s| && f(s[i]) && Those(s, f)[0] == s[i]
    ensures forall j | 0 <= j < i :: !f(s[j])
  {
    if s == [] || f(s[0]) {
      i := 0;
    } else {
      var k := ThoseFirst(s[1..], f);
      i := k + 1;
    }
  }

  ghost function Other<T>(x: T): T -> bool {
    y => y != x
  }

  lemma WithoutOne<T>(a: seq<T>, x: T, b: seq<T>)
    requires x !in a && x !in b
    ensures Those(a + [x] + b, Other(x)) == a + b
  {
    var f := Other(x);
    ThoseAll(a, f);
    ThoseNone([x], f);
    ThoseAll(b, f);
    hide Those, Other;
    ThoseConcat(a + [x], b, f);
    ThoseConcat(a, [x], f);
    assert a + [] == a;
  }

  /** Without one element of a sequence that has no other like it */
  lemma Omitted<T>(s: seq<T>, i: nat)
    requires NoRepeats(s) && i < |s|
    ensures Those(s, Other(s[i])) == s[..i] + s[i + 1..]
  {
    hide Those, Other;
    OneOnly(s, i);
    hide NoRepeats;
    WithoutOne(s[..i], s[i], s[i + 1..]);
  }

  lemma OneOnly<T>(s: seq<T>, i: nat)
    requires NoRepeats(s) && i < |s|
    ensures s[i] !in s[..i] && s[i] !in s[i + 1..] && s == s[..i] + [s[i]] + s[i + 1..]
  {
    assert forall j | 0 <= j < i :: s[..i][j] == s[j] != s[i];
    assert forall j | i < j < |s| :: s[i + 1..][j - i - 1] == s[j] != s[i];
    hide NoRepeats;
  }
}
