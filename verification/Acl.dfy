/** acl_exec_cond: conditions made of ACLs, evaluated with three values while data may still be missing. */
module Acl {
  /** ACL_TEST_FAIL, ACL_TEST_MISS and ACL_TEST_PASS, so chosen that | and & are "or" and "and". */
  type Res = x: bv2 | x != 2

  const FAIL: Res := 0
  const MISS: Res := 1
  const PASS: Res := 3

  /** acl_neg: 3 >> x */
  function Neg(x: Res): Res {
    if x == FAIL then PASS else if x == MISS then MISS else FAIL
  }

  /** pat2acl */
  function Matched(m: bool): Res { if m then PASS else FAIL }

  /** How the iteration over the samples of an expression ends: no sample, or a last one, that may change. */
  datatype Last = Ended(mayChange: bool) | Sampled(matched: bool, mayChange: bool)

  /** What fetching and matching gives for an expression: samples with more to come, then an end. */
  datatype Expr = Expr(matches: seq<bool>, last: Last)

  datatype Acl = Acl(exprs: seq<Expr>, use: bv32, val: bv32)
  datatype Term = Term(acl: Acl, neg: bool)
  datatype Cond = Cond(suites: seq<seq<Term>>, use: bv32, val: bv32)

  // ---------------------------------------------------------------------------
  // Kleene's three-valued logic, without any short-cut

  function LastValue(l: Last, final: bool): Res {
    Or(if l.Sampled? then Matched(l.matched) else FAIL, if l.mayChange && !final then MISS else FAIL)
  }

  function Or(x: Res, y: Res): Res { x | y }

  function And(x: Res, y: Res): Res { x & y }

  ghost function OrMatches(m: seq<bool>): Res {
    if m == [] then FAIL else Or(OrMatches(m[..|m| - 1]), Matched(m[|m| - 1]))
  }

  ghost function ExprValue(e: Expr, final: bool): Res {
    Or(OrMatches(e.matches), LastValue(e.last, final))
  }

  ghost function AclValue(es: seq<Expr>, final: bool): Res {
    if es == [] then FAIL else Or(AclValue(es[..|es| - 1], final), ExprValue(es[|es| - 1], final))
  }

  ghost function TermValue(t: Term, final: bool): Res {
    if t.neg then Neg(AclValue(t.acl.exprs, final)) else AclValue(t.acl.exprs, final)
  }

  ghost function SuiteValue(s: seq<Term>, final: bool): Res {
    if s == [] then PASS else And(SuiteValue(s[..|s| - 1], final), TermValue(s[|s| - 1], final))
  }

  ghost function CondValue(c: seq<seq<Term>>, final: bool): Res {
    if c == [] then FAIL else Or(CondValue(c[..|c| - 1], final), SuiteValue(c[|c| - 1], final))
  }

  // ---------------------------------------------------------------------------
  // What is computed: a suite is left at the first term that does not pass

  ghost function SuiteShort(s: seq<Term>, final: bool): Res {
    if s == [] then PASS
    else
      var before := SuiteShort(s[..|s| - 1], final);
      if before != PASS then before else TermValue(s[|s| - 1], final)
  }

  ghost function CondShort(c: seq<seq<Term>>, final: bool): Res {
    if c == [] then FAIL else Or(CondShort(c[..|c| - 1], final), SuiteShort(c[|c| - 1], final))
  }

  lemma {:induction false} AclPasses(es: seq<Expr>, k: nat, final: bool)
    requires k <= |es| && AclValue(es[..k], final) == PASS
    ensures AclValue(es, final) == PASS
  {
    if k < |es| {
      assert es[..|es| - 1][..k] == es[..k];
      AclPasses(es[..|es| - 1], k, final);
    } else {
      assert es[..k] == es;
    }
  }

  lemma {:induction false} MatchPasses(m: seq<bool>, k: nat)
    requires k <= |m| && OrMatches(m[..k]) == PASS
    ensures OrMatches(m) == PASS
  {
    if k < |m| {
      assert m[..|m| - 1][..k] == m[..k];
      MatchPasses(m[..|m| - 1], k);
    } else {
      assert m[..k] == m;
    }
  }

  lemma {:induction false} SuiteStops(s: seq<Term>, k: nat, final: bool)
    requires k <= |s| && SuiteShort(s[..k], final) != PASS
    ensures SuiteShort(s, final) == SuiteShort(s[..k], final)
  {
    if k < |s| {
      assert s[..|s| - 1][..k] == s[..k];
      SuiteStops(s[..|s| - 1], k, final);
    } else {
      assert s[..k] == s;
    }
  }

  lemma {:induction false} CondPasses(c: seq<seq<Term>>, k: nat, final: bool)
    requires k <= |c| && CondShort(c[..k], final) == PASS
    ensures CondShort(c, final) == PASS
  {
    if k < |c| {
      assert c[..|c| - 1][..k] == c[..k];
      CondPasses(c[..|c| - 1], k, final);
    } else {
      assert c[..k] == c;
    }
  }

  /** The samples of one expression, up to the first match */
  method ExecExpr(e: Expr, final: bool, before: Res) returns (aclRes: Res)
    requires before != PASS
    ensures aclRes == Or(before, ExprValue(e, final))
  {
    aclRes := before;
    var k := 0;
    while k < |e.matches|
      invariant k <= |e.matches| && aclRes == Or(before, OrMatches(e.matches[..k])) && aclRes != PASS
    {
      aclRes := Or(aclRes, Matched(e.matches[k]));
      assert e.matches[..k + 1][..k] == e.matches[..k];
      if aclRes == PASS {
        MatchPasses(e.matches, k + 1);
        return;
      }
      k := k + 1;
    }
    assert e.matches[..k] == e.matches;
    if e.last.Ended? {
      if e.last.mayChange && !final {
        aclRes := Or(aclRes, MISS);
      }
      return;
    }
    aclRes := Or(aclRes, Matched(e.last.matched));
    if aclRes == PASS {
      return;
    }
    if e.last.mayChange && !final {
      aclRes := Or(aclRes, MISS);
    }
  }

  /** acl_exec_cond */
  method AclExecCond(cond: Cond, final: bool) returns (condRes: Res)
    ensures condRes == CondShort(cond.suites, final)
  {
    condRes := FAIL;
    var k := 0;
    while k < |cond.suites|
      invariant k <= |cond.suites| && condRes == CondShort(cond.suites[..k], final)
    {
      var suite := cond.suites[k];
      var suiteRes := ExecSuite(suite, final);
      condRes := Or(condRes, suiteRes);
      assert cond.suites[..k + 1][..k] == cond.suites[..k];
      k := k + 1;
      if condRes == PASS {
        CondPasses(cond.suites, k, final);
        return;
      }
    }
    assert cond.suites[..k] == cond.suites;
  }

  method ExecSuite(suite: seq<Term>, final: bool) returns (suiteRes: Res)
    ensures suiteRes == SuiteShort(suite, final)
  {
    suiteRes := PASS;
    var k := 0;
    while k < |suite|
      invariant k <= |suite| && suiteRes == SuiteShort(suite[..k], final) == PASS
    {
      var aclRes := ExecAcl(suite[k].acl, final);
      if suite[k].neg {
        aclRes := Neg(aclRes);
      }
      suiteRes := And(suiteRes, aclRes);
      assert suite[..k + 1][..k] == suite[..k];
      k := k + 1;
      if suiteRes != PASS {
        SuiteStops(suite, k, final);
        return;
      }
    }
    assert suite[..k] == suite;
  }

  method ExecAcl(acl: Acl, final: bool) returns (aclRes: Res)
    ensures aclRes == AclValue(acl.exprs, final)
  {
    aclRes := FAIL;
    var k := 0;
    while k < |acl.exprs|
      invariant k <= |acl.exprs| && aclRes == AclValue(acl.exprs[..k], final) && aclRes != PASS
    {
      aclRes := ExecExpr(acl.exprs[k], final, aclRes);
      assert acl.exprs[..k + 1][..k] == acl.exprs[..k];
      k := k + 1;
      if aclRes == PASS {
        AclPasses(acl.exprs, k, final);
        return;
      }
    }
    assert acl.exprs[..k] == acl.exprs;
  }

  // ---------------------------------------------------------------------------
  // What the short-cuts keep

  ghost predicate AllPass(s: seq<Term>, final: bool) {
    forall i | 0 <= i < |s| :: TermValue(s[i], final) == PASS
  }

  ghost predicate SomeFails(s: seq<Term>, final: bool) {
    exists i | 0 <= i < |s| :: TermValue(s[i], final) == FAIL
  }

  /** A failing term comes after terms that pass. */
  ghost predicate FailsFirst(s: seq<Term>, final: bool) {
    exists i | 0 <= i < |s| :: TermValue(s[i], final) == FAIL && AllPass(s[..i], final)
  }

  lemma {:induction false} SuitePasses(s: seq<Term>, final: bool)
    ensures SuiteValue(s, final) == PASS <==> AllPass(s, final)
    ensures SuiteShort(s, final) == PASS <==> AllPass(s, final)
  {
    if s != [] {
      var n := |s| - 1;
      SuitePasses(s[..n], final);
      hide TermValue;
      assert AllPass(s, final) <==> AllPass(s[..n], final) && TermValue(s[n], final) == PASS by {
        assert forall i | 0 <= i < n :: s[..n][i] == s[i];
      }
    }
  }

  lemma {:induction false} SuiteFails(s: seq<Term>, final: bool)
    ensures SuiteValue(s, final) == FAIL <==> SomeFails(s, final)
  {
    if s != [] {
      var n := |s| - 1;
      SuiteFails(s[..n], final);
      hide TermValue;
      assert SomeFails(s, final) <==> SomeFails(s[..n], final) || TermValue(s[n], final) == FAIL by {
        if SomeFails(s[..n], final) {
          var i :| 0 <= i < n && TermValue(s[..n][i], final) == FAIL;
          assert TermValue(s[i], final) == FAIL;
        }
        if SomeFails(s, final) {
          var i :| 0 <= i < |s| && TermValue(s[i], final) == FAIL;
          assert i < n ==> TermValue(s[..n][i], final) == FAIL;
        }
      }
    }
  }

  /** The term at which the suite is seen to fail is the last one, or before it. */
  lemma FailsFirstSplit(s: seq<Term>, final: bool)
    requires s != []
    ensures var n := |s| - 1;
      FailsFirst(s, final) <==> FailsFirst(s[..n], final) || (AllPass(s[..n], final) && TermValue(s[n], final) == FAIL)
  {
    hide TermValue, AllPass;
    var n := |s| - 1;
    if FailsFirst(s[..n], final) {
      var i :| 0 <= i < n && TermValue(s[..n][i], final) == FAIL && AllPass(s[..n][..i], final);
      assert s[..n][..i] == s[..i] && TermValue(s[i], final) == FAIL;
    }
    if FailsFirst(s, final) {
      var i :| 0 <= i < |s| && TermValue(s[i], final) == FAIL && AllPass(s[..i], final);
      assert i < n ==> s[..n][..i] == s[..i] && TermValue(s[..n][i], final) == FAIL;
    }
  }

  lemma {:induction false} SuiteFailsFirst(s: seq<Term>, final: bool)
    ensures SuiteShort(s, final) == FAIL <==> FailsFirst(s, final)
  {
    if s != [] {
      SuiteFailsFirst(s[..|s| - 1], final);
      SuitePasses(s[..|s| - 1], final);
      FailsFirstSplit(s, final);
      hide TermValue, AllPass, FailsFirst;
    }
  }

  lemma OrFails(x: Res, y: Res)
    ensures Or(x, y) == FAIL <==> x == FAIL && y == FAIL
    ensures Or(x, y) == PASS <==> x == PASS || y == PASS
  {
  }

  lemma {:induction false} CondPassing(c: seq<seq<Term>>, final: bool)
    ensures CondValue(c, final) == PASS <==> exists k | 0 <= k < |c| :: AllPass(c[k], final)
    ensures CondShort(c, final) == PASS <==> CondValue(c, final) == PASS
  {
    if c != [] {
      var n := |c| - 1;
      CondPassing(c[..n], final);
      SuitePasses(c[n], final);
      hide AllPass, SuiteValue, SuiteShort;
      if CondValue(c[..n], final) == PASS {
        var k :| 0 <= k < n && AllPass(c[..n][k], final);
        assert AllPass(c[k], final);
      }
      if k: nat :| k < n && AllPass(c[k], final) {
        assert AllPass(c[..n][k], final);
      }
    }
  }

  lemma {:induction false} CondFailing(c: seq<seq<Term>>, final: bool)
    ensures CondValue(c, final) == FAIL <==> forall k | 0 <= k < |c| :: SomeFails(c[k], final)
    ensures CondShort(c, final) == FAIL <==> forall k | 0 <= k < |c| :: FailsFirst(c[k], final)
  {
    if c != [] {
      var n := |c| - 1;
      CondFailing(c[..n], final);
      SuiteFails(c[n], final);
      SuiteFailsFirst(c[n], final);
      OrFails(CondValue(c[..n], final), SuiteValue(c[n], final));
      OrFails(CondShort(c[..n], final), SuiteShort(c[n], final));
      hide SomeFails, FailsFirst, SuiteValue, SuiteShort, Or;
      EachOf(c, final);
    }
  }

  lemma EachOf(c: seq<seq<Term>>, final: bool)
    requires c != []
    ensures var n := |c| - 1;
      && ((forall k | 0 <= k < |c| :: SomeFails(c[k], final)) <==>
            (forall k | 0 <= k < n :: SomeFails(c[..n][k], final)) && SomeFails(c[n], final))
      && ((forall k | 0 <= k < |c| :: FailsFirst(c[k], final)) <==>
            (forall k | 0 <= k < n :: FailsFirst(c[..n][k], final)) && FailsFirst(c[n], final))
  {
    hide SomeFails, FailsFirst;
    assert forall k | 0 <= k < |c| - 1 :: c[..|c| - 1][k] == c[k];
  }

  /** acl_exec_cond passes exactly when the whole condition does, and fails only when it does: exactly when
      in every suite a failing term comes after terms that pass, any failing term being enough otherwise. */
  lemma ShortSound(c: seq<seq<Term>>, final: bool)
    ensures CondShort(c, final) == PASS <==> CondValue(c, final) == PASS
    ensures CondShort(c, final) == FAIL ==> CondValue(c, final) == FAIL
    ensures CondShort(c, final) == CondValue(c, final) <==>
      ((forall k | 0 <= k < |c| :: SomeFails(c[k], final)) ==> forall k | 0 <= k < |c| :: FailsFirst(c[k], final))
  {
    CondPassing(c, final);
    CondFailing(c, final);
    forall k | 0 <= k < |c| && FailsFirst(c[k], final) ensures SomeFails(c[k], final) {
    }
    hide SomeFails, FailsFirst, AllPass;
  }

  /** The short-cuts can leave a condition undecided although it fails: a missing term hides the failing one. */
  lemma UndecidedThoughFailing(a: Acl, b: Acl)
    requires AclValue(a.exprs, false) == MISS && AclValue(b.exprs, false) == FAIL
    ensures CondShort([[Term(a, false), Term(b, false)]], false) == MISS
    ensures CondValue([[Term(a, false), Term(b, false)]], false) == FAIL
  {
    var s: seq<Term> := [Term(a, false), Term(b, false)];
    var c: seq<seq<Term>> := [s];
    assert s[..1] == [Term(a, false)] && |s[..1][..0]| == 0 && |c[..0]| == 0;
    assert SuiteShort(s[..1], false) == MISS && SuiteValue(s[..1], false) == MISS;
  }

  // ---------------------------------------------------------------------------
  // More data

  /** The same expression once more is known: only what was missing may change. */
  ghost predicate ExprRefines(e: Expr, e': Expr, final: bool) {
    ExprValue(e, false) == MISS || ExprValue(e', final) == ExprValue(e, false)
  }

  ghost predicate TermRefines(t: Term, t': Term, final: bool) {
    && t'.neg == t.neg && |t'.acl.exprs| == |t.acl.exprs|
    && forall i | 0 <= i < |t.acl.exprs| :: ExprRefines(t.acl.exprs[i], t'.acl.exprs[i], final)
  }

  ghost predicate CondRefines(c: seq<seq<Term>>, c': seq<seq<Term>>, final: bool) {
    |c| == |c'| && forall k | 0 <= k < |c| ::
      |c[k]| == |c'[k]| && forall i | 0 <= i < |c[k]| :: TermRefines(c[k][i], c'[k][i], final)
  }

  /** What was decided for a whole term stays. */
  ghost predicate Refines(t: Term, t': Term, final: bool) {
    TermValue(t, false) == MISS || TermValue(t', final) == TermValue(t, false)
  }

  lemma {:induction false} AclStays(es: seq<Expr>, es': seq<Expr>, final: bool)
    requires |es| == |es'| && forall i | 0 <= i < |es| :: ExprRefines(es[i], es'[i], final)
    ensures AclValue(es, false) == MISS || AclValue(es', final) == AclValue(es, false)
  {
    if es != [] {
      var n := |es| - 1;
      assert forall i | 0 <= i < n :: es[..n][i] == es[i] && es'[..n][i] == es'[i];
      AclStays(es[..n], es'[..n], final);
      assert ExprRefines(es[n], es'[n], final);
      hide ExprValue;
      OrFails(AclValue(es[..n], false), ExprValue(es[n], false));
      OrFails(AclValue(es'[..n], final), ExprValue(es'[n], final));
    }
  }

  lemma TermStays(t: Term, t': Term, final: bool)
    requires TermRefines(t, t', final)
    ensures Refines(t, t', final)
  {
    AclStays(t.acl.exprs, t'.acl.exprs, final);
  }

  lemma SuiteStays(s: seq<Term>, s': seq<Term>, final: bool)
    requires |s| == |s'| && forall i | 0 <= i < |s| :: Refines(s[i], s'[i], final)
    ensures AllPass(s, false) ==> AllPass(s', final)
    ensures FailsFirst(s, false) ==> FailsFirst(s', final)
  {
    forall i | 0 <= i < |s| && TermValue(s[i], false) != MISS
      ensures TermValue(s'[i], final) == TermValue(s[i], false)
    {
      assert Refines(s[i], s'[i], final);
    }
    if FailsFirst(s, false) {
      var i :| 0 <= i < |s| && TermValue(s[i], false) == FAIL && AllPass(s[..i], false);
      forall j | 0 <= j < i ensures TermValue(s'[..i][j], final) == PASS {
        assert s[..i][j] == s[j];
      }
      assert AllPass(s'[..i], final);
    }
  }

  /** A decision is never revised when the missing expressions are resolved, one way or the other. */
  lemma DecisionStays(c: seq<seq<Term>>, c': seq<seq<Term>>, final: bool)
    requires CondRefines(c, c', final) && CondShort(c, false) != MISS
    ensures CondShort(c', final) == CondShort(c, false)
  {
    CondPassing(c, false);
    CondPassing(c', final);
    CondFailing(c, false);
    CondFailing(c', final);
    forall k | 0 <= k < |c|
      ensures AllPass(c[k], false) ==> AllPass(c'[k], final)
      ensures FailsFirst(c[k], false) ==> FailsFirst(c'[k], final)
    {
      forall i | 0 <= i < |c[k]| ensures Refines(c[k][i], c'[k][i], final) {
        assert TermRefines(c[k][i], c'[k][i], final);
        TermStays(c[k][i], c'[k][i], final);
      }
      SuiteStays(c[k], c'[k], final);
    }
    hide AllPass, FailsFirst, SomeFails, TermRefines;
  }

  // ---------------------------------------------------------------------------
  // No more data

  ghost predicate Holds(t: Term) {
    (exists k | 0 <= k < |t.acl.exprs| :: ExprMatches(t.acl.exprs[k])) != t.neg
  }

  ghost predicate ExprMatches(e: Expr) {
    true in e.matches || (e.last.Sampled? && e.last.matched)
  }

  lemma {:induction false} MatchesFinal(m: seq<bool>)
    ensures OrMatches(m) == if true in m then PASS else FAIL
  {
    if m != [] {
      MatchesFinal(m[..|m| - 1]);
      assert m == m[..|m| - 1] + [m[|m| - 1]];
    }
  }

  lemma {:induction false} AclFinal(es: seq<Expr>)
    ensures AclValue(es, true) == if exists k | 0 <= k < |es| :: ExprMatches(es[k]) then PASS else FAIL
  {
    if es != [] {
      var n := |es| - 1;
      AclFinal(es[..n]);
      MatchesFinal(es[n].matches);
      assert forall k | 0 <= k < n :: es[..n][k] == es[k];
      if exists k | 0 <= k < n :: ExprMatches(es[..n][k]) {
        var k :| 0 <= k < n && ExprMatches(es[..n][k]);
        assert ExprMatches(es[k]);
      }
    }
  }

  lemma TermFinal(t: Term)
    ensures TermValue(t, true) == if Holds(t) then PASS else FAIL
  {
    AclFinal(t.acl.exprs);
  }

  ghost predicate AllHold(s: seq<Term>) {
    forall i | 0 <= i < |s| :: Holds(s[i])
  }

  lemma SuiteFinal(s: seq<Term>)
    ensures AllPass(s, true) <==> AllHold(s)
    ensures FailsFirst(s, true) <==> !AllHold(s)
  {
    forall i | 0 <= i < |s| ensures TermValue(s[i], true) == if Holds(s[i]) then PASS else FAIL {
      TermFinal(s[i]);
    }
    if !AllHold(s) {
      FirstNotHolding(s);
    }
  }

  lemma {:induction false} FirstNotHolding(s: seq<Term>)
    requires !AllHold(s)
    ensures FailsFirst(s, true)
  {
    var n := |s| - 1;
    forall i | 0 <= i < |s| ensures TermValue(s[i], true) == if Holds(s[i]) then PASS else FAIL {
      TermFinal(s[i]);
    }
    hide TermValue;
    if AllHold(s[..n]) {
      assert forall i | 0 <= i < n :: s[..n][i] == s[i];
      assert AllPass(s[..n], true);
    } else {
      FirstNotHolding(s[..n]);
      var i :| 0 <= i < n && TermValue(s[..n][i], true) == FAIL && AllPass(s[..n][..i], true);
      assert s[..n][..i] == s[..i] && TermValue(s[i], true) == FAIL;
    }
  }

  /** With SMP_OPT_FINAL the result is a boolean, that of the or of the ands of the terms. */
  lemma FinalDecides(c: seq<seq<Term>>)
    ensures CondShort(c, true) == if exists k | 0 <= k < |c| :: AllHold(c[k]) then PASS else FAIL
  {
    CondPassing(c, true);
    CondFailing(c, true);
    forall k | 0 <= k < |c|
      ensures AllPass(c[k], true) <==> AllHold(c[k])
      ensures FailsFirst(c[k], true) <==> !AllHold(c[k])
    {
      SuiteFinal(c[k]);
    }
    hide AllPass, FailsFirst, AllHold, SomeFails;
  }
}
