/** What the masks of a condition say of a single place or a single need, which is one bit of them. */
module AclMasks {
  import opened Acl
  import opened AclParse

  ghost predicate OneBit(m: bv32) {
    m != 0 && forall x: bv32 :: Both(x, m) == 0 || Both(x, m) == m
  }

  /** Such as the lowest one; the others are its left shifts. */
  lemma LowestBit()
    ensures OneBit(1)
  {
  }

  lemma Distributes(x: bv32, y: bv32, m: bv32)
    ensures Both(Either(x, y), m) == Either(Both(x, m), Both(y, m))
  {
  }

  lemma ZeroOr(x: bv32, y: bv32)
    ensures Either(x, y) == 0 <==> x == 0 && y == 0
  {
  }

  lemma BitwiseOr(x: bv32, y: bv32, m: bv32)
    ensures Both(Either(x, y), m) == 0 <==> Both(x, m) == 0 && Both(y, m) == 0
  {
    hide Both, Either;
    Distributes(x, y, m);
    ZeroOr(Both(x, m), Both(y, m));
  }

  lemma Includes(x: bv32, y: bv32, m: bv32)
    requires Both(Both(x, y), m) == m
    ensures Both(x, m) == m
  {
  }

  lemma Regroup(x: bv32, y: bv32, m: bv32)
    ensures Both(Both(x, y), m) == Both(x, Both(y, m)) && Both(x, y) == Both(y, x)
  {
  }

  lemma BitwiseAnd(x: bv32, y: bv32, m: bv32)
    ensures Both(Both(x, y), m) == m <==> Both(x, m) == m && Both(y, m) == m
  {
    hide Both;
    Regroup(x, y, m);
    if Both(Both(x, y), m) == m {
      Includes(x, y, m);
      Includes(y, x, m);
    }
  }

  lemma BitBounds(m: bv32)
    ensures Both(ALL, m) == m && Both(0, m) == 0
  {
  }

  /** The condition needs what some operand needs, and nothing else. */
  lemma {:induction false} UsesExactly(t: seq<Token>, m: bv32)
    ensures Both(Uses(t), m) == 0 <==> forall x | x in t && x.Operand? :: Both(x.acl.use, m) == 0
  {
    if t == [] {
      BitBounds(m);
    } else {
      var u, x := t[..|t| - 1], t[|t| - 1];
      assert t == u + [x];
      UsesExactly(u, m);
      BitwiseOr(Uses(u), if x.Operand? then x.acl.use else 0, m);
      BitBounds(m);
      hide Both, Either;
    }
  }

  ghost predicate UsableAll(s: seq<Term>, m: bv32) {
    forall i | 0 <= i < |s| :: Both(s[i].acl.val, m) == m
  }

  ghost predicate UsableSome(c: seq<seq<Term>>, m: bv32) {
    exists k | 0 <= k < |c| :: UsableAll(c[k], m)
  }

  lemma {:induction false} SuiteUsable(s: seq<Term>, m: bv32)
    ensures Both(SuiteMask(s), m) == m <==> UsableAll(s, m)
  {
    if s == [] {
      BitBounds(m);
    } else {
      var u, x := s[..|s| - 1], s[|s| - 1];
      SuiteUsable(u, m);
      BitwiseAnd(SuiteMask(u), x.acl.val, m);
      hide Both;
      assert forall i | 0 <= i < |u| :: u[i] == s[i];
    }
  }

  lemma {:induction false} CondUsable(c: seq<seq<Term>>, m: bv32)
    requires OneBit(m)
    ensures Both(CondMask(c), m) == m <==> UsableSome(c, m)
  {
    if c == [] {
      BitBounds(m);
    } else {
      var u, x := c[..|c| - 1], c[|c| - 1];
      CondUsable(u, m);
      SuiteUsable(x, m);
      BitwiseOr(CondMask(u), SuiteMask(x), m);
      assert Both(CondMask(c), m) in {0, m} && Both(CondMask(u), m) in {0, m} && Both(SuiteMask(x), m) in {0, m};
      hide Both, Either, OneBit, UsableAll;
      assert forall k | 0 <= k < |u| :: u[k] == c[k];
      if UsableSome(u, m) {
        var k :| 0 <= k < |u| && UsableAll(u[k], m);
        assert UsableAll(c[k], m);
      }
    }
  }

  /** A condition is said to be usable at a place exactly when all ACLs of one of its suites are, or when a segment
      is empty. */
  lemma UsableExactly(t: seq<Token>, m: bv32)
    requires OneBit(m)
    ensures Both(Either(Vals(t), SuiteVal(t)), m) == m <==> EmptySegment(t) || UsableSome(Suites(t), m)
  {
    MaskExact(t);
    CondUsable(Suites(t), m);
    BitBounds(m);
    hide Both, Either, EmptySegment, UsableSome;
  }
}
