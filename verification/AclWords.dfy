/** How conditions are spelled, and that the parser reads exactly what is spelled so: any number of exclamation marks,
    alone or glued to what follows, "or" in any case or "||", names of known ACLs, and expressions between braces. */
module AclWords {
  import opened Acl
  import opened AclParse

  /** What is written after some exclamation marks: nothing, an "or", a name, or words between braces. */
  datatype Item =
    | Alone(marks: nat)
    | Or(marks: nat, word: string)
    | Name(marks: nat, word: string, acl: Acl)
    | Braces(marks: nat, words: seq<string>, acl: Acl)

  const OR_WORDS := {"||", "or", "oR", "Or", "OR"}

  ghost predicate ItemOk(x: Item, named: string -> Option<Acl>, anon: seq<string> -> Option<Acl>) {
    match x
    case Alone(marks) => marks > 0
    case Or(_, word) => word in OR_WORDS
    case Name(_, word, acl) =>
      word != "" && word[0] != '!' && word != "{" && word !in OR_WORDS && named(word) == Some(acl)
    case Braces(_, words, acl) => "" !in words && "}" !in words && anon(words) == Some(acl)
  }

  function Bangs(n: nat): string {
    seq(n, _ => '!')
  }

  function ItemWords(x: Item): seq<string> {
    match x
    case Alone(marks) => [Bangs(marks)]
    case Or(marks, word) => [Bangs(marks) + word]
    case Name(marks, word, _) => [Bangs(marks) + word]
    case Braces(marks, words, _) => [Bangs(marks) + "{"] + words + ["}"]
  }

  function ItemTokens(x: Item): seq<Token> {
    seq(x.marks, _ => NotMark) +
    match x
    case Alone(_) => []
    case Or(_, _) => [OrWord]
    case _ => [Operand(x.acl)]
  }

  function Words(xs: seq<Item>): seq<string> {
    if xs == [] then [] else ItemWords(xs[0]) + Words(xs[1..])
  }

  function Tokens(xs: seq<Item>): seq<Token> {
    if xs == [] then [] else ItemTokens(xs[0]) + Tokens(xs[1..])
  }

  ghost predicate Spelled(xs: seq<Item>, named: string -> Option<Acl>, anon: seq<string> -> Option<Acl>) {
    forall x | x in xs :: ItemOk(x, named, anon)
  }

  /** The words up to the first empty one */
  function UpToEmpty(args: seq<string>): seq<string> {
    if args == [] || args[0] == "" then [] else [args[0]] + UpToEmpty(args[1..])
  }

  // ---------------------------------------------------------------------------
  // What is spelled is read

  lemma {:induction false} MarksOf(n: nat, w: string)
    requires w == "" || w[0] != '!'
    ensures Marks(Bangs(n) + w) == n && (Bangs(n) + w)[n..] == w
  {
    if n == 0 {
      assert Bangs(0) + w == w;
    } else {
      MarksOf(n - 1, w);
      assert (Bangs(n) + w)[1..] == Bangs(n - 1) + w;
    }
  }

  lemma {:induction false} NotsAre(n: nat)
    ensures Nots(n) == seq(n, _ => NotMark)
  {
    if n > 0 {
      NotsAre(n - 1);
    }
  }

  lemma OrWordsAre(w: string)
    ensures IsOr(w) <==> w in OR_WORDS
  {
    if |w| == 2 {
      assert w == [w[0], w[1]];
    }
  }

  lemma {:induction false} ClosingAt(args: seq<string>, k: nat, e: nat)
    requires k <= e < |args| && args[e] == "}" && forall i | k <= i < e :: args[i] != "" && args[i] != "}"
    ensures Closing(args, k) == e
    decreases e - k
  {
    if k < e {
      ClosingAt(args, k + 1, e);
    }
  }

  /** What is written after the exclamation marks of an item */
  function Body(x: Item): string {
    match x
    case Alone(_) => ""
    case Braces(_, _, _) => "{"
    case _ => x.word
  }

  lemma BodyIs(x: Item, named: string -> Option<Acl>, anon: seq<string> -> Option<Acl>)
    requires ItemOk(x, named, anon)
    ensures ItemWords(x) != [] && ItemWords(x)[0] == Bangs(x.marks) + Body(x) != ""
    ensures Marks(ItemWords(x)[0]) == x.marks && ItemWords(x)[0][x.marks..] == Body(x)
    ensures ItemTokens(x) == Nots(x.marks) + if x.Alone? then [] else if x.Or? then [OrWord] else [Operand(x.acl)]
    ensures (Body(x) == "" <==> x.Alone?) && (IsOr(Body(x)) <==> x.Or?) && (Body(x) == "{" <==> x.Braces?)
  {
    MarksOf(x.marks, Body(x));
    NotsAre(x.marks);
    OrWordsAre(Body(x));
    assert Bangs(x.marks) + "" == Bangs(x.marks);
  }

  /** One item */
  lemma ItemRead(args: seq<string>, k: nat, x: Item, named: string -> Option<Acl>, anon: seq<string> -> Option<Acl>)
    requires ItemOk(x, named, anon) && k + |ItemWords(x)| <= |args|
    requires args[k..k + |ItemWords(x)|] == ItemWords(x)
    ensures args[k] != "" && Lex1(args, k, named, anon) == Some((ItemTokens(x), k + |ItemWords(x)|))
  {
    assert args[k] == args[k..k + |ItemWords(x)|][0] == ItemWords(x)[0];
    BodyIs(x, named, anon);
    hide ItemTokens, Marks, Nots, IsOr;
    match x
    case Braces(_, words, _) =>
      BracesRead(args, k, x, named, anon);
    case Alone(_) =>
      assert Nots(x.marks) + [] == Nots(x.marks);
    case _ =>
  }

  lemma BracesRead(args: seq<string>, k: nat, x: Item, named: string -> Option<Acl>, anon: seq<string> -> Option<Acl>)
    requires ItemOk(x, named, anon) && x.Braces? && k + |ItemWords(x)| <= |args|
    requires args[k..k + |ItemWords(x)|] == ItemWords(x)
    ensures var e := Closing(args, k + 1);
      e < |args| && args[e] == "}" && args[k + 1..e] == x.words && e + 1 == k + |ItemWords(x)|
  {
    var ws, e := ItemWords(x), k + 1 + |x.words|;
    assert forall i | k <= i <= e :: args[i] == ws[i - k];
    assert forall i | 0 <= i < |x.words| :: ws[i + 1] == x.words[i] && x.words[i] in x.words;
    assert ws[|x.words| + 1] == "}";
    ClosingAt(args, k + 1, e);
  }

  /** Whatever the spelling, its tokens are read. */
  lemma {:induction false} SpelledRead(args: seq<string>, k: nat, xs: seq<Item>, named: string -> Option<Acl>,
                                       anon: seq<string> -> Option<Acl>)
    requires Spelled(xs, named, anon) && k <= |args| && UpToEmpty(args[k..]) == Words(xs)
    ensures Lex(args, k, named, anon) == Some(Tokens(xs))
    decreases |xs|
  {
    hide ItemOk, ItemWords, ItemTokens, Lex1;
    if xs == [] {
      NoWords(args, k);
    } else {
      var x := xs[0];
      assert x in xs && ItemOk(x, named, anon) && Spelled(xs[1..], named, anon);
      hide Spelled;
      assert |ItemWords(x)| > 0 by {
        BodyIs(x, named, anon);
      }
      TakeWords(args, k, ItemWords(x), Words(xs[1..]));
      ItemRead(args, k, x, named, anon);
      SpelledRead(args, k + |ItemWords(x)|, xs[1..], named, anon);
    }
  }

  lemma NoWords(args: seq<string>, k: nat)
    requires k <= |args| && UpToEmpty(args[k..]) == []
    ensures k == |args| || args[k] == ""
  {
  }

  lemma TakeWords(args: seq<string>, k: nat, ws: seq<string>, rest: seq<string>)
    requires k <= |args| && ws != [] && UpToEmpty(args[k..]) == ws + rest
    ensures k + |ws| <= |args| && args[k..k + |ws|] == ws && UpToEmpty(args[k + |ws|..]) == rest
  {
    FirstWords(args[k..], |ws|);
    hide UpToEmpty;
    assert args[k..][..|ws|] == args[k..k + |ws|] && args[k..][|ws|..] == args[k + |ws|..];
  }

  /** What is before the first empty word, in two parts */
  lemma {:induction false} FirstWords(args: seq<string>, n: nat)
    requires n <= |UpToEmpty(args)|
    ensures n <= |args| && args[..n] == UpToEmpty(args)[..n] && UpToEmpty(args[n..]) == UpToEmpty(args)[n..]
    ensures forall i | 0 <= i < n :: args[i] != ""
  {
    if n > 0 {
      FirstWords(args[1..], n - 1);
      assert args[1..][n - 1..] == args[n..];
    }
  }

  // ---------------------------------------------------------------------------
  // What is read is spelled

  lemma {:induction false} MarksSplit(w: string)
    ensures w == Bangs(Marks(w)) + w[Marks(w)..] && (Marks(w) < |w| ==> w[Marks(w)] != '!')
  {
    if w != "" && w[0] == '!' {
      MarksSplit(w[1..]);
      assert w == [w[0]] + w[1..] && Bangs(Marks(w)) == ['!'] + Bangs(Marks(w[1..]));
    }
  }

  lemma {:induction false} ClosingInside(args: seq<string>, k: nat)
    requires k <= |args|
    ensures forall i | k <= i < Closing(args, k) :: args[i] != "" && args[i] != "}"
    ensures var e := Closing(args, k); e < |args| && args[e] != "" ==> args[e] == "}"
    decreases |args| - k
  {
    if k < |args| && args[k] != "" && args[k] != "}" {
      ClosingInside(args, k + 1);
    }
  }

  /** The item that stands at place k */
  ghost function ItemAt(args: seq<string>, k: nat, named: string -> Option<Acl>, anon: seq<string> -> Option<Acl>): Item
    requires k < |args| && Lex1(args, k, named, anon).Some?
  {
    var n := Marks(args[k]);
    var w := args[k][n..];
    if w == "" then Alone(n)
    else if IsOr(w) then Or(n, w)
    else if w == "{" then
      var words := args[k + 1..Closing(args, k + 1)];
      Braces(n, words, anon(words).value)
    else Name(n, w, named(w).value)
  }

  lemma ItemAtIs(args: seq<string>, k: nat, named: string -> Option<Acl>, anon: seq<string> -> Option<Acl>)
    requires k < |args| && args[k] != "" && Lex1(args, k, named, anon).Some?
    ensures var x, p := ItemAt(args, k, named, anon), Lex1(args, k, named, anon).value;
      && ItemOk(x, named, anon) && args[k..p.1] == ItemWords(x) && forall i | k <= i < p.1 :: args[i] != ""
  {
    var n := Marks(args[k]);
    var w := args[k][n..];
    MarksSplit(args[k]);
    OrWordsAre(w);
    hide Marks, IsOr, Bangs;
    if w == "" {
      assert Bangs(n) + w == Bangs(n);
    } else if !IsOr(w) && w == "{" {
      BracesAt(args, k);
    }
  }

  lemma BracesAt(args: seq<string>, k: nat)
    requires k < |args| && args[k] != ""
    ensures var e := Closing(args, k + 1); e < |args| && args[e] != "" ==>
      && args[e] == "}" && args[k..e + 1] == [args[k]] + args[k + 1..e] + ["}"]
      && "" !in args[k + 1..e] && "}" !in args[k + 1..e] && forall i | k <= i <= e :: args[i] != ""
  {
    ClosingInside(args, k + 1);
    hide Closing;
    var e := Closing(args, k + 1);
    assert e < |args| && args[e] != "" ==> args[k..e + 1] == [args[k]] + args[k + 1..e] + [args[e]];
  }

  lemma {:induction false} UpToAdds(args: seq<string>, n: nat)
    requires n <= |args| && forall i | 0 <= i < n :: args[i] != ""
    ensures UpToEmpty(args) == args[..n] + UpToEmpty(args[n..])
  {
    if n > 0 {
      UpToAdds(args[1..], n - 1);
      assert args[1..][n - 1..] == args[n..] && args[..n] == [args[0]] + args[1..][..n - 1];
    } else {
      assert args[0..] == args;
    }
  }

  ghost function ItemsFrom(args: seq<string>, k: nat, named: string -> Option<Acl>,
                           anon: seq<string> -> Option<Acl>): seq<Item>
    requires k <= |args| && Lex(args, k, named, anon).Some?
    decreases |args| - k
  {
    if k == |args| || args[k] == "" then []
    else
      var p := Lex1(args, k, named, anon).value;
      [ItemAt(args, k, named, anon)] + ItemsFrom(args, p.1, named, anon)
  }

  /** Whatever is read has such a spelling. */
  lemma {:induction false} ReadSpelled(args: seq<string>, k: nat, named: string -> Option<Acl>,
                                       anon: seq<string> -> Option<Acl>)
    requires k <= |args| && Lex(args, k, named, anon).Some?
    ensures var xs := ItemsFrom(args, k, named, anon);
      Spelled(xs, named, anon) && Words(xs) == UpToEmpty(args[k..])
    decreases |args| - k
  {
    hide ItemOk, ItemWords, Lex1, ItemAt;
    if k < |args| && args[k] != "" {
      var p := Lex1(args, k, named, anon).value;
      var x, xs := ItemAt(args, k, named, anon), ItemsFrom(args, p.1, named, anon);
      ReadSpelled(args, p.1, named, anon);
      ItemAtIs(args, k, named, anon);
      UpToAdds(args[k..], p.1 - k);
      assert args[k..][..p.1 - k] == args[k..p.1] && args[k..][p.1 - k..] == args[p.1..];
      assert ([x] + xs)[1..] == xs;
      hide UpToEmpty;
    }
  }

  /** The parser accepts exactly what is spelled right, and the condition means what the spelling does. */
  lemma ReadExactly(args: seq<string>, named: string -> Option<Acl>, anon: seq<string> -> Option<Acl>)
    ensures Parsed(args, named, anon).Some? <==>
      exists xs: seq<Item> | Spelled(xs, named, anon) :: Words(xs) == UpToEmpty(args)
    ensures forall xs: seq<Item> | Spelled(xs, named, anon) && Words(xs) == UpToEmpty(args) ::
      MeansAs(Parsed(args, named, anon), Tokens(xs))
  {
    assert args[0..] == args;
    if Lex(args, 0, named, anon).Some? {
      ReadSpelled(args, 0, named, anon);
    }
    hide Spelled, Words, UpToEmpty, Lex, ItemsFrom, MeansAs;
    forall xs: seq<Item> | Spelled(xs, named, anon) && Words(xs) == UpToEmpty(args)
      ensures Parsed(args, named, anon).Some? && MeansAs(Parsed(args, named, anon), Tokens(xs))
    {
      SpelledRead(args, 0, xs, named, anon);
      ReadMeans(args, Tokens(xs), named, anon);
    }
  }

  /** The condition has the meaning of t. */
  ghost predicate MeansAs(r: Option<Cond>, t: seq<Token>) {
    r.Some? && forall final :: CondValue(r.value.suites, final) == Meaning(t, final)
  }

  lemma ReadMeans(args: seq<string>, t: seq<Token>, named: string -> Option<Acl>, anon: seq<string> -> Option<Acl>)
    requires Lex(args, 0, named, anon) == Some(t)
    ensures Parsed(args, named, anon).Some? && MeansAs(Parsed(args, named, anon), t)
  {
    MeaningKept(t, true);
    MeaningKept(t, false);
  }

  // ---------------------------------------------------------------------------
  // A condition printed and parsed again

  ghost function TermItems(t: Term, name: Acl -> string): seq<Item> {
    [Name(if t.neg then 1 else 0, name(t.acl), t.acl)]
  }

  ghost function SuiteItems(s: seq<Term>, name: Acl -> string): seq<Item> {
    if s == [] then [] else SuiteItems(s[..|s| - 1], name) + TermItems(s[|s| - 1], name)
  }

  /** Suites separated by "or" */
  ghost function CondItems(c: seq<seq<Term>>, name: Acl -> string): seq<Item> {
    if c == [] then []
    else
      var n := |c| - 1;
      CondItems(c[..n], name) + (if n > 0 then [Or(0, "or")] else []) + SuiteItems(c[n], name)
  }

  /** Every ACL of the condition is known by its name. */
  ghost predicate Named(c: seq<seq<Term>>, name: Acl -> string, named: string -> Option<Acl>,
                        anon: seq<string> -> Option<Acl>) {
    forall k, i | 0 <= k < |c| && 0 <= i < |c[k]| ::
      ItemOk(Name(if c[k][i].neg then 1 else 0, name(c[k][i].acl), c[k][i].acl), named, anon)
  }

  lemma {:induction false} TokensConcat(xs: seq<Item>, ys: seq<Item>)
    ensures Tokens(xs + ys) == Tokens(xs) + Tokens(ys)
  {
    if xs == [] {
      assert xs + ys == ys;
    } else {
      TokensConcat(xs[1..], ys);
      TokensStep(xs[0], xs[1..]);
      TokensStep(xs[0], xs[1..] + ys);
      hide Tokens, ItemTokens;
      assert xs == [xs[0]] + xs[1..] && xs + ys == [xs[0]] + (xs[1..] + ys);
      Associative(ItemTokens(xs[0]), Tokens(xs[1..]), Tokens(ys));
    }
  }

  lemma TokensStep(x: Item, xs: seq<Item>)
    ensures Tokens([x] + xs) == ItemTokens(x) + Tokens(xs)
  {
    assert ([x] + xs)[1..] == xs;
  }

  lemma Associative(a: seq<Token>, b: seq<Token>, c: seq<Token>)
    ensures a + (b + c) == (a + b) + c
  {
  }

  lemma TokensOne(x: Item)
    ensures Tokens([x]) == ItemTokens(x)
  {
    assert [x][1..] == [];
  }

  /** What has been built after the tokens t: the suites c, the last one still open or not */
  ghost predicate Made(t: seq<Token>, c: seq<seq<Term>>, open: bool) {
    Suites(t) == c && Open(t) == open && Pending(t) == 0
  }

  lemma MadeOr(t: seq<Token>, c: seq<seq<Term>>, open: bool)
    requires Made(t, c, open)
    ensures Made(t + [OrWord], c, false)
  {
    assert (t + [OrWord])[..|t|] == t;
  }

  lemma MadeTerm(t: seq<Token>, c: seq<seq<Term>>, open: bool, x: Term)
    requires Made(t, c, open)
    ensures open ==> c != []
    ensures Made(t + (if x.neg then [NotMark] else []) + [Operand(x.acl)], AddTerm(c, open, x), true)
  {
    hide Suites, Open, Pending;
    if x.neg {
      SnocMark(t);
      SnocOperand(t + [NotMark], x.acl);
    } else {
      assert t + [] == t;
      SnocOperand(t, x.acl);
    }
  }

  lemma SnocMark(t: seq<Token>)
    ensures var u := t + [NotMark];
      Suites(u) == Suites(t) && Open(u) == Open(t) && Pending(u) == Pending(t) + 1
  {
    assert (t + [NotMark])[..|t|] == t;
  }

  lemma SnocOperand(t: seq<Token>, a: Acl)
    ensures Open(t) ==> Suites(t) != []
    ensures var u := t + [Operand(a)];
      && Suites(u) == AddTerm(Suites(t), Open(t), Term(a, Pending(t) % 2 == 1)) && Open(u) && Pending(u) == 0
  {
    assert (t + [Operand(a)])[..|t|] == t;
  }

  lemma {:induction false} MadeSuite(t: seq<Token>, c: seq<seq<Term>>, s: seq<Term>, name: Acl -> string)
    requires Made(t, c, false)
    ensures Made(t + Tokens(SuiteItems(s, name)), if s == [] then c else c + [s], s != [])
  {
    hide Made;
    if s == [] {
      assert t + Tokens([]) == t;
    } else {
      var u, x := s[..|s| - 1], s[|s| - 1];
      MadeSuite(t, c, u, name);
      TokensConcat(SuiteItems(u, name), TermItems(x, name));
      var v, w := t + Tokens(SuiteItems(u, name)), if u == [] then c else c + [u];
      MadeTerm(v, w, u != [], x);
      hide Tokens, SuiteItems, TermItems;
      TermTokens(x, name);
      Associative(t, Tokens(SuiteItems(u, name)), Tokens(TermItems(x, name)));
      Associative(v, if x.neg then [NotMark] else [], [Operand(x.acl)]);
      OneMore(c, u, x);
      assert u + [x] == s;
    }
  }

  lemma TermTokens(x: Term, name: Acl -> string)
    ensures Tokens(TermItems(x, name)) == (if x.neg then [NotMark] else []) + [Operand(x.acl)]
  {
    TokensOne(TermItems(x, name)[0]);
    assert seq(1, _ => NotMark) == [NotMark];
  }

  lemma OneMore(c: seq<seq<Term>>, u: seq<Term>, x: Term)
    ensures AddTerm(if u == [] then c else c + [u], u != [], x) == c + [u + [x]]
  {
    assert u != [] ==> (c + [u])[..|c|] == c;
    assert [] + [x] == [x];
  }

  lemma {:induction false} MadeCond(c: seq<seq<Term>>, name: Acl -> string)
    requires forall k | 0 <= k < |c| :: c[k] != []
    ensures Made(Tokens(CondItems(c, name)), c, c != [])
  {
    hide Made;
    if c == [] {
      MadeNothing();
    } else {
      var n := |c| - 1;
      var b := CondItems(c[..n], name);
      MadeCond(c[..n], name);
      if n > 0 {
        TokensConcat(b, [Or(0, "or")]);
        TokensOne(Or(0, "or"));
        assert ItemTokens(Or(0, "or")) == [OrWord];
        MadeOr(Tokens(b), c[..n], true);
        MadeNext(b + [Or(0, "or")], c, name);
      } else {
        assert b + [] == b;
        MadeNext(b, c, name);
      }
    }
  }

  lemma MadeNext(xs: seq<Item>, c: seq<seq<Term>>, name: Acl -> string)
    requires c != [] && c[|c| - 1] != [] && Made(Tokens(xs), c[..|c| - 1], false)
    ensures Made(Tokens(xs + SuiteItems(c[|c| - 1], name)), c, true)
  {
    hide Made, Tokens, SuiteItems;
    var n := |c| - 1;
    TokensConcat(xs, SuiteItems(c[n], name));
    MadeSuite(Tokens(xs), c[..n], c[n], name);
    assert c[..n] + [c[n]] == c;
  }

  lemma MadeNothing()
    ensures Made([], [], false)
  {
  }

  lemma {:induction false} SuiteSpelled(s: seq<Term>, name: Acl -> string, named: string -> Option<Acl>,
                                        anon: seq<string> -> Option<Acl>)
    requires Named([s], name, named, anon)
    ensures Spelled(SuiteItems(s, name), named, anon)
  {
    hide ItemOk;
    if s != [] {
      var n := |s| - 1;
      assert [s][0] == s;
      assert forall i | 0 <= i < n :: [s[..n]][0][i] == s[i];
      SuiteSpelled(s[..n], name, named, anon);
    }
  }

  lemma {:induction false} CondSpelled(c: seq<seq<Term>>, name: Acl -> string, named: string -> Option<Acl>,
                                       anon: seq<string> -> Option<Acl>)
    requires Named(c, name, named, anon)
    ensures Spelled(CondItems(c, name), named, anon)
  {
    assert ItemOk(Or(0, "or"), named, anon);
    hide ItemOk;
    if c != [] {
      var n := |c| - 1;
      assert forall k | 0 <= k < n :: c[..n][k] == c[k];
      CondSpelled(c[..n], name, named, anon);
      assert Named([c[n]], name, named, anon);
      SuiteSpelled(c[n], name, named, anon);
    }
  }

  /** A condition printed with the names of its ACLs is parsed back, whatever the arguments after an empty word. */
  lemma PrintedBack(c: seq<seq<Term>>, name: Acl -> string, named: string -> Option<Acl>,
                    anon: seq<string> -> Option<Acl>, args: seq<string>)
    requires Named(c, name, named, anon) && forall k | 0 <= k < |c| :: c[k] != []
    requires UpToEmpty(args) == Words(CondItems(c, name))
    ensures Parsed(args, named, anon).Some? && Parsed(args, named, anon).value.suites == c
  {
    CondSpelled(c, name, named, anon);
    MadeCond(c, name);
    assert args[0..] == args;
    SpelledRead(args, 0, CondItems(c, name), named, anon);
    hide Spelled, Words, UpToEmpty, Lex, CondItems;
  }
}
