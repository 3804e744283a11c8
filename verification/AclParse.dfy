/** parse_acl_cond: words with glued or standalone exclamation marks become an or of ands of possibly negated
    ACLs. */
module AclParse {
  import opened Acl

  datatype Option<T> = None | Some(value: T)

  datatype Token = OrWord | NotMark | Operand(acl: Acl)

  const ALL: bv32 := 0xFFFF_FFFF

  function Either(x: bv32, y: bv32): bv32 { x | y }

  function Both(x: bv32, y: bv32): bv32 { x & y }

  lemma Masks(x: bv32)
    ensures Both(x, ALL) == x && Either(x, ALL) == ALL && Either(ALL, x) == ALL && Either(0, x) == x
  {
  }

  // ---------------------------------------------------------------------------
  // Words

  predicate IsOr(w: string) {
    w == "||" || (|w| == 2 && (w[0] == 'o' || w[0] == 'O') && (w[1] == 'r' || w[1] == 'R'))
  }

  /** How many exclamation marks a word starts with. */
  function Marks(w: string): (n: nat)
    ensures n <= |w|
  {
    if w == "" || w[0] != '!' then 0 else 1 + Marks(w[1..])
  }

  function Nots(n: nat): seq<Token> {
    if n == 0 then [] else Nots(n - 1) + [NotMark]
  }

  /** Where the brace opened before args[k] is closed, or the end when it is not. */
  function Closing(args: seq<string>, k: nat): (e: nat)
    requires k <= |args|
    ensures k <= e <= |args|
    decreases |args| - k
  {
    if k == |args| || args[k] == "" || args[k] == "}" then k else Closing(args, k + 1)
  }

  /** What the word number k stands for, or the expression between braces that it opens, and the word after. */
  function Lex1(args: seq<string>, k: nat, named: string -> Option<Acl>, anon: seq<string> -> Option<Acl>):
    (r: Option<(seq<Token>, nat)>)
    requires k < |args|
    ensures r.Some? ==> k < r.value.1 <= |args|
  {
    var n := Marks(args[k]);
    var w := args[k][n..];
    if w == "" then Some((Nots(n), k + 1))
    else if IsOr(w) then Some((Nots(n) + [OrWord], k + 1))
    else
      var e := if w == "{" then Closing(args, k + 1) else k;
      if w == "{" && (e == |args| || args[e] == "") then None
      else
        match if w == "{" then anon(args[k + 1..e]) else named(w)
        case None => None
        case Some(a) => Some((Nots(n) + [Operand(a)], e + 1))
  }

  /** The words from number k on, up to an empty one */
  function Lex(args: seq<string>, k: nat, named: string -> Option<Acl>,
               anon: seq<string> -> Option<Acl>): Option<seq<Token>>
    requires k <= |args|
    decreases |args| - k
  {
    if k == |args| || args[k] == "" then Some([])
    else
      match Lex1(args, k, named, anon)
      case None => None
      case Some(p) =>
        match Lex(args, p.1, named, anon)
        case None => None
        case Some(rest) => Some(p.0 + rest)
  }

  // ---------------------------------------------------------------------------
  // Meaning of the words: an or of segments, each an and of its operands

  /** Exclamation marks since the last operand or "or". */
  ghost function Pending(t: seq<Token>): nat {
    if t == [] || !t[|t| - 1].NotMark? then 0 else 1 + Pending(t[..|t| - 1])
  }

  ghost function Signed(x: Res, marks: nat): Res {
    if marks % 2 == 1 then Neg(x) else x
  }

  /** The words after the last "or" */
  ghost function LastSegment(t: seq<Token>): (s: seq<Token>)
    ensures |s| <= |t| && s == t[|t| - |s|..] && OrWord !in s
    ensures |s| < |t| ==> t[|t| - |s| - 1] == OrWord
  {
    if t == [] || t[|t| - 1].OrWord? then []
    else LastSegment(t[..|t| - 1]) + [t[|t| - 1]]
  }

  ghost predicate HasOperand(s: seq<Token>) {
    s != [] && (s[|s| - 1].Operand? || HasOperand(s[..|s| - 1]))
  }

  ghost function SegmentAnd(s: seq<Token>, final: bool): Res {
    if s == [] then PASS
    else
      var before, last := s[..|s| - 1], s[|s| - 1];
      if last.Operand? then And(SegmentAnd(before, final), Signed(AclValue(last.acl.exprs, final), Pending(before)))
      else SegmentAnd(before, final)
  }

  /** A segment without any operand counts for nothing. */
  ghost function Meaning(t: seq<Token>, final: bool): Res
    decreases |t|
  {
    var s := LastSegment(t);
    var x := if HasOperand(s) then SegmentAnd(s, final) else FAIL;
    if |s| == |t| then x else Or(Meaning(t[..|t| - |s| - 1], final), x)
  }

  // ---------------------------------------------------------------------------
  // What is built, one token after another

  /** A suite is being filled. */
  ghost predicate Open(t: seq<Token>) {
    t != [] && (t[|t| - 1].Operand? || (t[|t| - 1].NotMark? && Open(t[..|t| - 1])))
  }

  ghost function Suites(t: seq<Token>): (s: seq<seq<Term>>)
    ensures Open(t) ==> s != []
  {
    if t == [] then []
    else
      var before, last := t[..|t| - 1], t[|t| - 1];
      if !last.Operand? then Suites(before)
      else AddTerm(Suites(before), Open(before), Term(last.acl, Pending(before) % 2 == 1))
  }

  function AddTerm(s: seq<seq<Term>>, open: bool, x: Term): seq<seq<Term>>
    requires open ==> s != []
  {
    if open then s[..|s| - 1] + [s[|s| - 1] + [x]] else s + [[x]]
  }

  ghost function Uses(t: seq<Token>): bv32 {
    if t == [] then 0 else Either(Uses(t[..|t| - 1]), if t[|t| - 1].Operand? then t[|t| - 1].acl.use else 0)
  }

  /** suite_val */
  ghost function SuiteVal(t: seq<Token>): bv32 {
    if t == [] || t[|t| - 1].OrWord? then ALL
    else if t[|t| - 1].Operand? then Both(SuiteVal(t[..|t| - 1]), t[|t| - 1].acl.val)
    else SuiteVal(t[..|t| - 1])
  }

  /** cond->val, of the suites that are over */
  ghost function Vals(t: seq<Token>): bv32 {
    if t == [] then 0
    else
      var before := t[..|t| - 1];
      if t[|t| - 1].OrWord? then Either(Vals(before), SuiteVal(before)) else Vals(before)
  }

  // ---------------------------------------------------------------------------
  // What is built means what the words mean

  ghost function TermsOf(s: seq<Token>): seq<Term> {
    if s == [] then []
    else
      var before, last := s[..|s| - 1], s[|s| - 1];
      if last.Operand? then TermsOf(before) + [Term(last.acl, Pending(before) % 2 == 1)] else TermsOf(before)
  }

  lemma SuiteSnoc(s: seq<Term>, x: Term, final: bool)
    ensures SuiteValue(s + [x], final) == And(SuiteValue(s, final), TermValue(x, final))
    ensures SuiteMask(s + [x]) == Both(SuiteMask(s), x.acl.val)
  {
    assert (s + [x])[..|s|] == s;
  }

  lemma CondSnoc(c: seq<seq<Term>>, x: seq<Term>, final: bool)
    ensures CondValue(c + [x], final) == Or(CondValue(c, final), SuiteValue(x, final))
    ensures CondMask(c + [x]) == Either(CondMask(c), SuiteMask(x))
  {
    assert (c + [x])[..|c|] == c;
  }

  lemma {:induction false} SegmentTerms(s: seq<Token>, final: bool)
    ensures SegmentAnd(s, final) == SuiteValue(TermsOf(s), final)
    ensures HasOperand(s) <==> TermsOf(s) != []
  {
    if s != [] {
      var before, last := s[..|s| - 1], s[|s| - 1];
      SegmentTerms(before, final);
      if last.Operand? {
        SuiteSnoc(TermsOf(before), Term(last.acl, Pending(before) % 2 == 1), final);
      }
      hide SuiteValue, AclValue;
    }
  }

  /** Where the last segment of t begins, as seen without its last word. */
  lemma SegmentBefore(t: seq<Token>)
    requires t != [] && !t[|t| - 1].OrWord?
    ensures var s, before := LastSegment(t), t[..|t| - 1];
      s == LastSegment(before) + [t[|t| - 1]] && t[..|t| - |s|] == before[..|before| - |LastSegment(before)|]
  {
  }

  lemma {:induction false} LastMarks(t: seq<Token>)
    ensures Pending(t) == Pending(LastSegment(t)) && (Open(t) <==> HasOperand(LastSegment(t)))
  {
    if t != [] && !t[|t| - 1].OrWord? {
      SegmentBefore(t);
      LastMarks(t[..|t| - 1]);
      hide LastSegment;
      assert LastSegment(t)[..|LastSegment(t)| - 1] == LastSegment(t[..|t| - 1]);
    }
  }

  lemma TermsSnoc(s: seq<Token>, x: Token)
    ensures TermsOf(s + [x]) ==
      if x.Operand? then TermsOf(s) + [Term(x.acl, Pending(s) % 2 == 1)] else TermsOf(s)
  {
    assert (s + [x])[..|s|] == s;
  }

  /** The suites built from t: those of what is before its last segment, and one for that segment. */
  ghost function WithLast(c: seq<seq<Term>>, x: seq<Term>): seq<seq<Term>> {
    if x == [] then c else c + [x]
  }

  lemma WithLastAdds(c: seq<seq<Term>>, x: seq<Term>, t: Term)
    ensures AddTerm(WithLast(c, x), x != [], t) == WithLast(c, x + [t])
  {
    if x == [] {
      assert x + [t] == [t];
    } else {
      assert (c + [x])[..|c|] == c && (c + [x])[|c|] == x;
    }
  }

  /** The suite being filled holds the operands of the last segment, and those before are not touched. */
  lemma {:induction false} SuitesSplit(t: seq<Token>)
    ensures var s := LastSegment(t); Suites(t) == WithLast(Suites(t[..|t| - |s|]), TermsOf(s))
  {
    if t == [] || t[|t| - 1].OrWord? {
      assert t[..|t| - |LastSegment(t)|] == t;
    } else {
      var before, last := t[..|t| - 1], t[|t| - 1];
      SegmentBefore(t);
      SuitesSplit(before);
      LastMarks(before);
      SegmentTerms(LastSegment(before), true);
      TermsSnoc(LastSegment(before), last);
      var c := Suites(before[..|before| - |LastSegment(before)|]);
      if last.Operand? {
        WithLastAdds(c, TermsOf(LastSegment(before)), Term(last.acl, Pending(before) % 2 == 1));
      }
      hide LastSegment, TermsOf, Pending, Open, HasOperand, WithLast;
    }
  }

  /** What is before the last segment ends with an "or", which adds nothing. */
  lemma BeforeOr(t: seq<Token>)
    ensures var s := LastSegment(t); |s| < |t| ==>
      var b, c := t[..|t| - |s|], t[..|t| - |s| - 1];
      Suites(b) == Suites(c) && Vals(b) == Either(Vals(c), SuiteVal(c))
  {
    var s := LastSegment(t);
    if |s| < |t| {
      assert t[..|t| - |s|][..|t| - |s| - 1] == t[..|t| - |s| - 1];
    }
  }

  /** One suite more, or none when its segment is empty */
  lemma WithLastValue(c: seq<seq<Term>>, s: seq<Token>, final: bool)
    ensures CondValue(WithLast(c, TermsOf(s)), final) ==
      Or(CondValue(c, final), if HasOperand(s) then SegmentAnd(s, final) else FAIL)
    ensures CondMask(WithLast(c, TermsOf(s))) ==
      if HasOperand(s) then Either(CondMask(c), SuiteMask(TermsOf(s))) else CondMask(c)
  {
    SegmentTerms(s, final);
    CondSnoc(c, TermsOf(s), final);
  }

  lemma OrFail(x: Res)
    ensures Or(FAIL, x) == x
  {
  }

  /** Evaluating what is built gives what the words mean. */
  lemma {:induction false} MeaningKept(t: seq<Token>, final: bool)
    ensures CondValue(Suites(t), final) == Meaning(t, final)
    decreases |t|
  {
    hide LastSegment, HasOperand, SegmentAnd, Or, And, WithLast, Suites, CondValue, Vals, SuiteVal;
    var s := LastSegment(t);
    var b := t[..|t| - |s|];
    SuitesSplit(t);
    BeforeOr(t);
    WithLastValue(Suites(b), s, final);
    if |s| < |t| {
      MeaningKept(t[..|t| - |s| - 1], final);
    } else {
      assert b == [];
      NothingBuilt(final);
      OrFail(if HasOperand(s) then SegmentAnd(s, final) else FAIL);
    }
  }

  lemma NothingBuilt(final: bool)
    ensures CondValue(Suites([]), final) == FAIL
  {
  }

  // ---------------------------------------------------------------------------
  // Where the condition can be used

  ghost function SuiteMask(s: seq<Term>): bv32 {
    if s == [] then ALL else Both(SuiteMask(s[..|s| - 1]), s[|s| - 1].acl.val)
  }

  ghost function CondMask(c: seq<seq<Term>>): bv32 {
    if c == [] then 0 else Either(CondMask(c[..|c| - 1]), SuiteMask(c[|c| - 1]))
  }

  /** An "or" with nothing to combine on one of its sides, or no word at all. */
  ghost predicate EmptySegment(t: seq<Token>)
    decreases |t|
  {
    var s := LastSegment(t);
    !HasOperand(s) || (|s| < |t| && EmptySegment(t[..|t| - |s| - 1]))
  }

  lemma {:induction false} ValsSplit(t: seq<Token>)
    ensures var s := LastSegment(t);
      SuiteVal(t) == SuiteMask(TermsOf(s)) && Vals(t) == Vals(t[..|t| - |s|])
  {
    var s := LastSegment(t);
    if t == [] || t[|t| - 1].OrWord? {
      assert t[..|t| - |s|] == t;
    } else {
      var before, last := t[..|t| - 1], t[|t| - 1];
      ValsSplit(before);
      SegmentBefore(t);
      TermsSnoc(LastSegment(before), last);
      if last.Operand? {
        SuiteSnoc(TermsOf(LastSegment(before)), Term(last.acl, Pending(before) % 2 == 1), true);
        LastMarks(before);
      }
      hide LastSegment, TermsOf, SuiteMask, Pending, Both, Either;
    }
  }

  /** The mask of the condition is that of its suites, unless a segment is empty: then it has all bits,
      although that segment counts for nothing. */
  lemma {:induction false} MaskExact(t: seq<Token>)
    ensures Either(Vals(t), SuiteVal(t)) == if EmptySegment(t) then ALL else CondMask(Suites(t))
    decreases |t|
  {
    hide LastSegment, HasOperand, TermsOf, Either, Both, WithLast, Suites, CondMask, SuiteMask, CondValue;
    hide SegmentAnd, Vals, SuiteVal;
    var s := LastSegment(t);
    var b := t[..|t| - |s|];
    ValsSplit(t);
    SuitesSplit(t);
    BeforeOr(t);
    WithLastValue(Suites(b), s, true);
    EmptyMask(s);
    Masks(Vals(b));
    Masks(SuiteVal(t));
    if |s| < |t| {
      MaskExact(t[..|t| - |s| - 1]);
    } else {
      assert b == [];
      NothingMasked();
    }
  }

  lemma EmptyMask(s: seq<Token>)
    ensures !HasOperand(s) ==> SuiteMask(TermsOf(s)) == ALL
  {
    SegmentTerms(s, true);
  }

  lemma NothingMasked()
    ensures CondMask(Suites([])) == 0 && Vals([]) == 0
  {
  }

  // ---------------------------------------------------------------------------
  // The loop

  /** The local variables of the parser once the words of t have been read; `open` stands for cur_suite. */
  datatype State = State(suites: seq<seq<Term>>, open: bool, neg: bool, use: bv32, suiteVal: bv32, val: bv32)

  ghost predicate Built(st: State, t: seq<Token>) {
    && st.suites == Suites(t) && st.open == Open(t) && st.neg == (Pending(t) % 2 == 1)
    && st.use == Uses(t) && st.suiteVal == SuiteVal(t) && st.val == Vals(t)
  }

  lemma BuiltMark(st: State, t: seq<Token>)
    requires Built(st, t)
    ensures Built(st.(neg := !st.neg), t + [NotMark])
  {
    assert (t + [NotMark])[..|t|] == t;
    UsesZero(Uses(t));
  }

  lemma {:induction false} BuiltMarks(st: State, t: seq<Token>, n: nat)
    requires Built(st, t)
    ensures Built(Marked(st, n), t + Nots(n))
  {
    hide Built;
    if n == 0 {
      assert t + Nots(0) == t;
    } else {
      BuiltMarks(st, t, n - 1);
      BuiltMark(Marked(st, n - 1), t + Nots(n - 1));
      assert t + Nots(n) == (t + Nots(n - 1)) + [NotMark];
    }
  }

  /** n exclamation marks later */
  ghost function Marked(st: State, n: nat): State {
    if n == 0 then st else var s := Marked(st, n - 1); s.(neg := !s.neg)
  }

  lemma {:induction false} MarkedParity(st: State, n: nat)
    ensures Marked(st, n) == st.(neg := st.neg != (n % 2 == 1))
  {
    if n > 0 {
      MarkedParity(st, n - 1);
    }
  }

  lemma UsesZero(x: bv32)
    ensures Either(x, 0) == x
  {
  }

  lemma BuiltOr(st: State, t: seq<Token>)
    requires Built(st, t)
    ensures Built(State(st.suites, false, false, st.use, ALL, Either(st.val, st.suiteVal)), t + [OrWord])
  {
    assert (t + [OrWord])[..|t|] == t;
    UsesZero(Uses(t));
  }

  lemma BuiltOperand(st: State, t: seq<Token>, a: Acl)
    requires Built(st, t)
    ensures st.open ==> st.suites != []
    ensures Built(State(AddTerm(st.suites, st.open, Term(a, st.neg)), true, false, Either(st.use, a.use),
                        Both(st.suiteVal, a.val), st.val), t + [Operand(a)])
  {
    assert (t + [Operand(a)])[..|t|] == t;
  }

  /** The words read so far, followed by what those left stand for, are all of the words. */
  ghost predicate ReadUpTo(all: Option<seq<Token>>, t: seq<Token>, rest: Option<seq<Token>>) {
    all == if rest.None? then None else Some(t + rest.value)
  }

  lemma ReadMore(all: Option<seq<Token>>, t: seq<Token>, args: seq<string>, k: nat, named: string -> Option<Acl>,
                 anon: seq<string> -> Option<Acl>)
    requires k < |args| && args[k] != "" && ReadUpTo(all, t, Lex(args, k, named, anon))
    ensures match Lex1(args, k, named, anon)
      case None => all.None?
      case Some(p) => ReadUpTo(all, t + p.0, Lex(args, p.1, named, anon))
  {
    hide Lex1;
    match Lex1(args, k, named, anon)
    case None =>
    case Some(p) =>
      var rest := Lex(args, p.1, named, anon);
      if rest.Some? {
        assert t + (p.0 + rest.value) == (t + p.0) + rest.value;
      }
  }

  /** Exclamation marks are removed from a word, each inverting the negation. */
  method StripMarks(w: string, neg0: bool) returns (neg: bool, word: string)
    ensures neg == (neg0 != (Marks(w) % 2 == 1)) && word == w[Marks(w)..]
  {
    neg, word := neg0, w;
    while word != "" && word[0] == '!'
      invariant Marks(word) <= Marks(w) && word[Marks(word)..] == w[Marks(w)..]
      invariant (neg != (Marks(word) % 2 == 1)) == (neg0 != (Marks(w) % 2 == 1))
      decreases |word|
    {
      neg, word := !neg, word[1..];
    }
  }

  /** The end of an expression between braces */
  method FindClosing(args: seq<string>, from: nat) returns (e: nat)
    requires from <= |args|
    ensures e == Closing(args, from)
  {
    e := from;
    while e < |args| && args[e] != "" && args[e] != "}"
      invariant from <= e <= |args| && Closing(args, e) == Closing(args, from)
    {
      e := e + 1;
    }
  }

  /** An ACL between braces, or known by its name */
  method ParseOperand(args: seq<string>, arg: nat, word: string, named: string -> Option<Acl>,
                      anon: seq<string> -> Option<Acl>)
    returns (a: Option<Acl>, next: nat)
    requires arg < |args| && word == args[arg][Marks(args[arg])..] && word != "" && !IsOr(word)
    ensures match Lex1(args, arg, named, anon)
      case None => a.None?
      case Some(p) => a.Some? && p == (Nots(Marks(args[arg])) + [Operand(a.value)], next)
  {
    next := arg + 1;
    if word == "{" {
      var argEnd := FindClosing(args, arg + 1);
      if argEnd == |args| || args[argEnd] == "" {
        return None, next;
      }
      a := anon(args[arg + 1..argEnd]);
      next := argEnd + 1;
    } else {
      a := named(word);
    }
  }

  lemma BuiltNothing()
    ensures Built(State([], false, false, 0, ALL, 0), [])
  {
  }

  /** The condition that words stand for: the suites, the uses and the mask defined above */
  ghost function Parsed(args: seq<string>, named: string -> Option<Acl>, anon: seq<string> -> Option<Acl>):
    Option<Cond>
  {
    match Lex(args, 0, named, anon)
    case None => None
    case Some(t) => Some(Cond(Suites(t), Uses(t), Either(Vals(t), SuiteVal(t))))
  }

  /** One word, or the words between braces that it opens */
  method ParseWord(args: seq<string>, arg: nat, st: State, named: string -> Option<Acl>,
                   anon: seq<string> -> Option<Acl>, ghost t: seq<Token>)
    returns (st': Option<State>, next: nat)
    requires arg < |args| && Built(st, t)
    ensures match Lex1(args, arg, named, anon)
      case None => st'.None?
      case Some(p) => st'.Some? && next == p.1 && Built(st'.value, t + p.0)
  {
    hide Built, Marks, Nots;
    var n := Marks(args[arg]);
    var neg, word := StripMarks(args[arg], st.neg);
    BuiltMarks(st, t, n);
    MarkedParity(st, n);
    hide Marked;
    var s := st.(neg := neg);
    next := arg + 1;
    ghost var u := t + Nots(n);
    if word == "" {
      st' := Some(s);
    } else if IsOr(word) {
      BuiltOr(s, u);
      st' := Some(State(s.suites, false, false, s.use, ALL, Either(s.val, s.suiteVal)));
      assert t + (Nots(n) + [OrWord]) == u + [OrWord];
    } else {
      var a;
      a, next := ParseOperand(args, arg, word, named, anon);
      if a.None? {
        return None, next;
      }
      BuiltOperand(s, u, a.value);
      st' := Some(State(AddTerm(s.suites, s.open, Term(a.value, s.neg)), true, false, Either(s.use, a.value.use),
                        Both(s.suiteVal, a.value.val), s.val));
      assert t + (Nots(n) + [Operand(a.value)]) == u + [Operand(a.value)];
    }
  }

  /** parse_acl_cond. The words accepted are those that can be read one by one. */
  method ParseAclCond(args: seq<string>, named: string -> Option<Acl>, anon: seq<string> -> Option<Acl>)
    returns (r: Option<Cond>)
    ensures r == Parsed(args, named, anon)
  {
    var st := State([], false, false, 0, ALL, 0);
    var arg: nat := 0;
    ghost var t: seq<Token> := [];
    ghost var all := Lex(args, 0, named, anon);
    BuiltNothing();
    assert all.Some? ==> t + all.value == all.value;
    hide Suites, Open, Pending, Uses, SuiteVal, Vals, Either, Both, Lex1;
    while arg < |args| && args[arg] != ""
      invariant arg <= |args| && Built(st, t) && ReadUpTo(all, t, Lex(args, arg, named, anon))
    {
      ReadMore(all, t, args, arg, named, anon);
      hide Lex, ReadUpTo, Built;
      var s, next := ParseWord(args, arg, st, named, anon, t);
      if s.None? {
        return None;
      }
      t := t + Lex1(args, arg, named, anon).value.0;
      st, arg := s.value, next;
    }
    assert t + [] == t;
    r := Some(Cond(st.suites, st.use, Either(st.val, st.suiteVal)));
  }

  /** Every condition that is built evaluates to what its words mean, with the guarantees of the evaluation. */
  lemma ParsedMeans(t: seq<Token>, final: bool)
    ensures CondShort(Suites(t), final) == PASS <==> Meaning(t, final) == PASS
    ensures CondShort(Suites(t), final) == FAIL ==> Meaning(t, final) == FAIL
    ensures final ==> CondShort(Suites(t), true) == Meaning(t, true)
  {
    MeaningKept(t, final);
    ShortSound(Suites(t), final);
    if final {
      FinalDecides(Suites(t));
      CondPassing(Suites(t), true);
      CondFailing(Suites(t), true);
    }
  }
}
