/** What the three values mean for the samples: an ACL is decided exactly when no further sample could change it, and
    so is a condition, but for the short-cuts. */
module AclSamples {
  import opened Acl

  /** What has been matched so far */
  ghost function Samples(e: Expr): seq<bool> {
    e.matches + if e.last.Sampled? then [e.last.matched] else []
  }

  ghost predicate SomeMatch(es: seq<Expr>) {
    exists k | 0 <= k < |es| :: true in Samples(es[k])
  }

  /** More samples can come. */
  ghost predicate SomeOpen(es: seq<Expr>) {
    exists k | 0 <= k < |es| :: es[k].last.mayChange
  }

  lemma ExprVerdict(e: Expr, final: bool)
    ensures ExprValue(e, final) == PASS <==> true in Samples(e)
    ensures ExprValue(e, final) == FAIL <==> true !in Samples(e) && (final || !e.last.mayChange)
    ensures ExprMatches(e) <==> true in Samples(e)
  {
    MatchesFinal(e.matches);
  }

  /** An ACL passes exactly when some sample matches. Without one it is missed exactly when more samples can come and
      the answer is not wanted yet, and fails otherwise. */
  lemma {:induction false} AclVerdict(es: seq<Expr>, final: bool)
    ensures AclValue(es, final) == PASS <==> SomeMatch(es)
    ensures AclValue(es, final) == MISS <==> !SomeMatch(es) && !final && SomeOpen(es)
    ensures AclValue(es, final) == FAIL <==> !SomeMatch(es) && (final || !SomeOpen(es))
  {
    if es != [] {
      var n := |es| - 1;
      AclVerdict(es[..n], final);
      ExprVerdict(es[n], final);
      OrFails(AclValue(es[..n], final), ExprValue(es[n], final));
      hide Samples, ExprValue, Or;
      SomeSnoc(es);
      hide SomeMatch, SomeOpen;
    }
  }

  lemma SomeSnoc(es: seq<Expr>)
    requires es != []
    ensures var n := |es| - 1;
      && (SomeMatch(es) <==> SomeMatch(es[..n]) || true in Samples(es[n]))
      && (SomeOpen(es) <==> SomeOpen(es[..n]) || es[n].last.mayChange)
  {
    hide Samples;
    var n := |es| - 1;
    assert forall k | 0 <= k < n :: es[..n][k] == es[k];
  }

  // ---------------------------------------------------------------------------
  // Completions

  /** e' is e with all of its samples: further ones only where they can come. */
  ghost predicate Completes(e: Expr, e': Expr) {
    if e.last.mayChange then Samples(e) <= Samples(e') else Samples(e') == Samples(e)
  }

  ghost predicate TermCompletes(t: Term, t': Term) {
    && t'.neg == t.neg && |t'.acl.exprs| == |t.acl.exprs|
    && forall i | 0 <= i < |t.acl.exprs| :: Completes(t.acl.exprs[i], t'.acl.exprs[i])
  }

  /** Every occurrence of an ACL is completed on its own. */
  ghost predicate CondCompletes(c: seq<seq<Term>>, c': seq<seq<Term>>) {
    |c| == |c'| && forall k | 0 <= k < |c| ::
      |c[k]| == |c'[k]| && forall i | 0 <= i < |c[k]| :: TermCompletes(c[k][i], c'[k][i])
  }

  /** The boolean answer, all samples being known */
  ghost predicate Passes(c: seq<seq<Term>>) {
    exists k | 0 <= k < |c| :: AllHold(c[k])
  }

  lemma HoldsIs(t: Term)
    ensures Holds(t) <==> SomeMatch(t.acl.exprs) != t.neg
  {
    forall k | 0 <= k < |t.acl.exprs| ensures ExprMatches(t.acl.exprs[k]) <==> true in Samples(t.acl.exprs[k]) {
      ExprVerdict(t.acl.exprs[k], true);
    }
    hide Samples, ExprMatches;
  }

  /** A definite value of a term is that of all of its completions. */
  lemma TermDecided(t: Term, t': Term)
    requires TermCompletes(t, t') && TermValue(t, false) != MISS
    ensures Holds(t') <==> TermValue(t, false) == PASS
  {
    var es, es' := t.acl.exprs, t'.acl.exprs;
    AclVerdict(es, false);
    HoldsIs(t');
    forall k | 0 <= k < |es| ensures true in Samples(es[k]) ==> true in Samples(es'[k])
      ensures !es[k].last.mayChange ==> Samples(es'[k]) == Samples(es[k])
    {
      assert Completes(es[k], es'[k]);
    }
    hide Samples, Completes, AclValue, Holds;
  }

  /** The completion by one more sample, where one can come */
  ghost function Toward(e: Expr, m: bool): Expr {
    if e.last.mayChange then Expr(Samples(e) + [m], Ended(false)) else e
  }

  /** The term is to hold or not, as far as it is open. */
  ghost function TermToward(t: Term, want: bool): Term {
    var es := t.acl.exprs;
    Term(t.acl.(exprs := seq(|es|, i requires 0 <= i < |es| => Toward(es[i], want != t.neg))), t.neg)
  }

  lemma TermSteered(t: Term, want: bool)
    ensures TermCompletes(t, TermToward(t, want))
    ensures Holds(TermToward(t, want)) <==>
      if TermValue(t, false) == MISS then want else TermValue(t, false) == PASS
  {
    var es, es', m := t.acl.exprs, TermToward(t, want).acl.exprs, want != t.neg;
    AclVerdict(es, false);
    HoldsIs(TermToward(t, want));
    forall k | 0 <= k < |es|
      ensures true in Samples(es'[k]) <==> true in Samples(es[k]) || (es[k].last.mayChange && m)
    {
      assert es'[k] == Toward(es[k], m);
      assert (Samples(es[k]) + [m])[|Samples(es[k])|] == m;
    }
    hide Samples, AclValue, Holds;
  }

  ghost function SuiteToward(s: seq<Term>, want: bool): seq<Term> {
    seq(|s|, i requires 0 <= i < |s| => TermToward(s[i], want))
  }

  ghost function CondToward(c: seq<seq<Term>>, want: bool): seq<seq<Term>> {
    seq(|c|, k requires 0 <= k < |c| => SuiteToward(c[k], want))
  }

  lemma CondSteered(c: seq<seq<Term>>, want: bool)
    ensures CondCompletes(c, CondToward(c, want))
    ensures forall k, i | 0 <= k < |c| && 0 <= i < |c[k]| ::
      Holds(CondToward(c, want)[k][i]) <==>
        if TermValue(c[k][i], false) == MISS then want else TermValue(c[k][i], false) == PASS
  {
    forall k, i | 0 <= k < |c| && 0 <= i < |c[k]|
      ensures TermCompletes(c[k][i], CondToward(c, want)[k][i])
      ensures Holds(CondToward(c, want)[k][i]) <==>
        if TermValue(c[k][i], false) == MISS then want else TermValue(c[k][i], false) == PASS
    {
      TermSteered(c[k][i], want);
    }
    hide TermCompletes, Holds, TermValue;
  }

  lemma Decides(c: seq<seq<Term>>, c': seq<seq<Term>>)
    requires CondCompletes(c, c')
    ensures CondValue(c, false) == PASS ==> Passes(c')
    ensures CondValue(c, false) == FAIL ==> !Passes(c')
  {
    CondPassing(c, false);
    CondFailing(c, false);
    forall k, i | 0 <= k < |c| && 0 <= i < |c[k]| && TermValue(c[k][i], false) != MISS
      ensures Holds(c'[k][i]) <==> TermValue(c[k][i], false) == PASS
    {
      assert TermCompletes(c[k][i], c'[k][i]);
      TermDecided(c[k][i], c'[k][i]);
    }
    hide TermCompletes, Holds, TermValue, CondValue, FailsFirst;
    if CondValue(c, false) == PASS {
      var k :| 0 <= k < |c| && AllPass(c[k], false);
      assert AllHold(c'[k]);
    }
    if CondValue(c, false) == FAIL {
      forall k | 0 <= k < |c| ensures !AllHold(c'[k]) {
        assert SomeFails(c[k], false);
      }
    }
  }

  /** An undecided condition can still go either way. */
  lemma Undecided(c: seq<seq<Term>>)
    ensures CondValue(c, false) != FAIL ==> Passes(CondToward(c, true))
    ensures CondValue(c, false) != PASS ==> !Passes(CondToward(c, false))
  {
    CondPassing(c, false);
    CondFailing(c, false);
    CondSteered(c, true);
    CondSteered(c, false);
    hide TermCompletes, Holds, TermValue, CondValue, FailsFirst, SuiteToward, CondToward;
    if CondValue(c, false) != FAIL {
      var k :| 0 <= k < |c| && !SomeFails(c[k], false);
      assert AllHold(CondToward(c, true)[k]);
    }
    if CondValue(c, false) != PASS {
      forall k | 0 <= k < |c| ensures !AllHold(CondToward(c, false)[k]) {
        assert !AllPass(c[k], false);
        var i :| 0 <= i < |c[k]| && TermValue(c[k][i], false) != PASS;
        assert !Holds(CondToward(c, false)[k][i]);
      }
    }
  }

  /** acl_exec_cond passes on partial data exactly when the condition holds whatever samples come, and fails only when
      it fails whatever samples come; the unshortened evaluation fails exactly then. */
  lemma DecidedExactly(c: seq<seq<Term>>)
    ensures CondShort(c, false) == PASS <==> forall c' | CondCompletes(c, c') :: Passes(c')
    ensures CondShort(c, false) == FAIL ==> forall c' | CondCompletes(c, c') :: !Passes(c')
    ensures CondValue(c, false) == FAIL <==> forall c' | CondCompletes(c, c') :: !Passes(c')
  {
    ShortSound(c, false);
    Undecided(c);
    CondSteered(c, true);
    CondSteered(c, false);
    hide CondCompletes, Passes, CondShort, CondValue, CondToward;
    forall c' | CondCompletes(c, c')
      ensures CondValue(c, false) == PASS ==> Passes(c')
      ensures CondValue(c, false) == FAIL ==> !Passes(c')
    {
      Decides(c, c');
    }
  }

  /** So a definite answer is the one given once all samples are known. */
  lemma AnswerStays(c: seq<seq<Term>>, c': seq<seq<Term>>)
    requires CondCompletes(c, c') && CondShort(c, false) != MISS
    ensures CondShort(c', true) == CondShort(c, false)
  {
    ShortSound(c, false);
    Decides(c, c');
    FinalDecides(c');
    hide CondCompletes, CondShort, CondValue;
  }
}
