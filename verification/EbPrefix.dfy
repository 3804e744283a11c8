/** Trees of address prefixes, as functions. The bit of a node counts half-bits: 2N for a cover node,
    whose left branch holds the prefix of length N that covers its right branch, and 2N+1 for a normal
    node, whose branches differ on bit N. Half-bits increase downwards. */
module EbPrefix {
  import opened Bytes
  import opened Counting
  import opened EbTree
  import opened EbSplice
  import opened EbDup
  import opened EbDelete
  import opened EbWalk
  import opened EbScalar

  /** A key and how many of its leading bits matter. */
  datatype Prefix = Prefix(bytes: seq<nat>, pfx: nat)

  type Entry = EbNode<Prefix>

  ghost predicate KeyOk(x: Entry, len: nat) {
    IsBytes(x.key.bytes) && |x.key.bytes| == len && x.key.pfx <= 8 * len
  }

  /** The first n bits of both keys are the same. */
  ghost predicate Agree(x: Entry, y: Entry, n: nat) {
    && n <= 8 * |x.key.bytes| && n <= 8 * |y.key.bytes|
    && SameBits(x.key.bytes, y.key.bytes, n)
  }

  /** Both entries stand for the same prefix. */
  ghost predicate SamePrefix(x: Entry, y: Entry) {
    x.key.pfx == y.key.pfx && Agree(x, y, x.key.pfx)
  }

  /** Bit i of the key of x. */
  ghost function KeyBit(x: Entry, i: nat): (b: nat)
    ensures b < 2
  {
    if i < 8 * |x.key.bytes| then BitAt(x.key.bytes, i) else 0
  }

  /** Invariant of a linked tree of prefixes, for keys of len bytes. Bits past the prefix length of a
      key can be anything. */
  ghost predicate Prefixed(t: Tree<Prefix>, len: nat) {
    match t
    case Leaf(n) => KeyOk(n, len)
    case Inner(n, bit, l, r) =>
      && Prefixed(l, len) && Prefixed(r, len)
      && if bit < 0 then
           DupShape(t) && forall x | x in Leaves(t) :: SamePrefix(x, n)
         else
           && bit / 2 < 8 * len
           && (l.Inner? && l.bit >= 0 ==> l.bit > bit) && (r.Inner? && r.bit >= 0 ==> r.bit > bit)
           && (forall x | x in Leaves(t) :: Agree(x, n, bit / 2))
           && if bit % 2 == 0 then
                && (l.Leaf? || l.bit < 0)
                && (forall x | x in Leaves(l) :: x.key.pfx == bit / 2)
                && (forall x | x in Leaves(r) :: x.key.pfx > bit / 2)
              else
                && (forall x | x in Leaves(l) :: x.key.pfx > bit / 2 && KeyBit(x, bit / 2) == 0)
                && (forall x | x in Leaves(r) :: x.key.pfx > bit / 2 && KeyBit(x, bit / 2) == 1)
  }

  lemma {:induction false} PrefixedKeys(t: Tree<Prefix>, len: nat)
    requires Prefixed(t, len)
    ensures forall x | x in Leaves(t) :: KeyOk(x, len)
  {
    if t.Inner? {
      PrefixedKeys(t.l, len);
      PrefixedKeys(t.r, len);
    }
  }

  lemma AgreeVia(x: Entry, y: Entry, z: Entry, n: nat)
    requires Agree(x, z, n) && Agree(y, z, n)
    ensures Agree(x, y, n)
  {
    forall i | 0 <= i < n ensures BitAt(x.key.bytes, i) == BitAt(y.key.bytes, i) {
      assert BitAt(x.key.bytes, i) == BitAt(z.key.bytes, i);
      assert BitAt(y.key.bytes, i) == BitAt(z.key.bytes, i);
    }
  }

  lemma AgreeMore(x: Entry, y: Entry, n: nat)
    requires Agree(x, y, n) && n < 8 * |x.key.bytes| && n < 8 * |y.key.bytes| && KeyBit(x, n) == KeyBit(y, n)
    ensures Agree(x, y, n + 1)
  {
  }

  lemma NotAgree(x: Entry, y: Entry, b: nat, n: nat)
    requires b < n && b < 8 * |x.key.bytes| && b < 8 * |y.key.bytes| && KeyBit(x, b) != KeyBit(y, b)
    ensures !Agree(x, y, n)
  {
    if n <= 8 * |x.key.bytes| && n <= 8 * |y.key.bytes| {
      assert BitAt(x.key.bytes, b) != BitAt(y.key.bytes, b);
    }
  }

  // ---------------------------------------------------------------------------
  // Insertion

  ghost function Common(x: Entry, y: Entry, n: nat): (r: nat)
    ensures r <= n && r <= 8 * |x.key.bytes| && r <= 8 * |y.key.bytes| && Agree(x, y, r)
    ensures n <= 8 * |x.key.bytes| && n <= 8 * |y.key.bytes| && r < n ==> KeyBit(x, r) != KeyBit(y, r)
  {
    CommonUpTo(x.key.bytes, y.key.bytes, Min(n, Min(8 * |x.key.bytes|, 8 * |y.key.bytes|)))
  }

  /** Longest length at which the prefixes of x and y could agree. */
  ghost function Shorter(x: Entry, y: Entry): nat {
    Min(x.key.pfx, y.key.pfx)
  }

  /** How many bits x and the top of t share, up to what matters there. */
  ghost function Shared(t: Tree<Prefix>, x: Entry): nat {
    Common(x, t.n, if t.Leaf? || t.bit < 0 then Shorter(x, t.n) else t.bit / 2)
  }

  /** x cannot be below t: t holds a single prefix, or x ends or differs before the bits t decides on. */
  ghost predicate StopsAbove(t: Tree<Prefix>, x: Entry) {
    || t.Leaf? || t.bit < 0
    || (Shared(t, x) >= x.key.pfx && 2 * x.key.pfx < t.bit)
    || Shared(t, x) < t.bit / 2
  }

  /** Both keys go on and differ on the bit that follows what they share: a normal node. */
  ghost predicate Differ(t: Tree<Prefix>, x: Entry) {
    if t.Leaf? || t.bit < 0 then Shared(t, x) < Shorter(x, t.n)
    else !(Shared(t, x) >= x.key.pfx && 2 * x.key.pfx < t.bit)
  }

  /** The bit of the node put above t: -1 when t is x's prefix, 2N for a cover node, 2N + 1 otherwise. */
  ghost function NewBit(t: Tree<Prefix>, x: Entry): int {
    var b := Shared(t, x);
    if Differ(t, x) then 2 * b + 1
    else if (t.Leaf? || t.bit < 0) && x.key.pfx == t.n.key.pfx then -1
    else 2 * if t.Leaf? || t.bit < 0 then b else x.key.pfx
  }

  /** The side of x above t. */
  ghost predicate OnRight(t: Tree<Prefix>, x: Entry) {
    var b := Shared(t, x);
    if Differ(t, x) then KeyBit(x, b) >= KeyBit(t.n, b)
    else if t.Leaf? || t.bit < 0 then x.key.pfx >= t.n.key.pfx
    else false
  }

  /** The side of x below t: the exact prefix of a cover node goes left, anything longer right. */
  ghost predicate ToRight(t: Tree<Prefix>, x: Entry)
    requires t.Inner? && t.bit >= 0
  {
    if t.bit % 2 == 0 then x.key.pfx != t.bit / 2 else KeyBit(x, t.bit / 2) == 1
  }

  ghost function Insert(t: Tree<Prefix>, x: Entry): Tree<Prefix> {
    if StopsAbove(t, x) then
      if t.Inner? && NewBit(t, x) == -1 then InsertLast(t, x) else Graft(x, NewBit(t, x), t, OnRight(t, x))
    else if ToRight(t, x) then t.(r := Insert(t.r, x))
    else t.(l := Insert(t.l, x))
  }

  lemma {:induction false} InsertLeaves(t: Tree<Prefix>, x: Entry)
    ensures Leaves(Insert(t, x)) == Leaves(t) + {x}
  {
    if StopsAbove(t, x) {
      if t.Inner? {
        InsertLastSeq(t, x);
      }
    } else if ToRight(t, x) {
      InsertLeaves(t.r, x);
    } else {
      InsertLeaves(t.l, x);
    }
  }

  /** A node put above t where x and t.n first differ. */
  lemma SpanPrefixed(t: Tree<Prefix>, x: Entry, b: nat, len: nat)
    requires Prefixed(t, len) && KeyOk(x, len) && Agree(x, t.n, b) && b < 8 * len && KeyBit(x, b) != KeyBit(t.n, b)
    requires b < x.key.pfx && (t.Inner? && t.bit >= 0 ==> t.bit > 2 * b + 1)
    requires forall y | y in Leaves(t) :: Agree(y, t.n, b + 1) && y.key.pfx > b
    ensures Prefixed(Graft(x, 2 * b + 1, t, KeyBit(x, b) >= KeyBit(t.n, b)), len)
  {
    hide BitAt;
    forall y | y in Leaves(t) ensures Agree(y, x, b) && KeyBit(y, b) == KeyBit(t.n, b) && y.key.pfx > b {
      assert Agree(y, t.n, b + 1);
      assert BitAt(y.key.bytes, b) == BitAt(t.n.key.bytes, b);
      AgreeVia(y, x, t.n, b);
    }
    assert Prefixed(Leaf(x), len) && Leaves(Leaf(x)) == {x};
  }

  /** A cover node put above t: x is a shorter prefix of everything in t. */
  lemma CoverPrefixed(t: Tree<Prefix>, x: Entry, len: nat)
    requires Prefixed(t, len) && KeyOk(x, len) && x.key.pfx < 8 * len
    requires t.Inner? && t.bit >= 0 ==> t.bit > 2 * x.key.pfx
    requires forall y | y in Leaves(t) :: Agree(y, x, x.key.pfx) && y.key.pfx > x.key.pfx
    ensures Prefixed(Graft(x, 2 * x.key.pfx, t, false), len)
  {
    assert Prefixed(Leaf(x), len) && Leaves(Leaf(x)) == {x};
  }

  /** Everything in t agrees with its top on the bits t decides on, and more where t goes on. */
  lemma TopAgrees(t: Tree<Prefix>, len: nat, y: Entry)
    requires Prefixed(t, len) && OwnBelow(t) && y in Leaves(t)
    ensures KeyOk(y, len) && KeyOk(t.n, len)
    ensures t.Leaf? || t.bit < 0 ==> SamePrefix(y, t.n)
    ensures t.Inner? && t.bit >= 0 ==> Agree(y, t.n, t.bit / 2) && y.key.pfx >= t.bit / 2
    ensures t.Inner? && t.bit >= 0 && t.bit % 2 == 1 ==> y.key.pfx > t.bit / 2
  {
    TopIsLeaf(t);
    PrefixedKeys(t, len);
  }

  /** Where the descent stops on a difference, all of t differs from x in the same way. */
  lemma DifferAll(t: Tree<Prefix>, x: Entry, len: nat)
    requires Prefixed(t, len) && OwnBelow(t) && KeyOk(x, len) && StopsAbove(t, x) && Differ(t, x)
    ensures var b := Shared(t, x);
      && b < x.key.pfx && b < 8 * len && Agree(x, t.n, b) && KeyBit(x, b) != KeyBit(t.n, b)
      && (t.Inner? && t.bit >= 0 ==> t.bit > 2 * b + 1)
      && forall y | y in Leaves(t) :: Agree(y, t.n, b + 1) && y.key.pfx > b
  {
    TopIsLeaf(t);
    PrefixedKeys(t, len);
    forall y | y in Leaves(t) ensures Agree(y, t.n, Shared(t, x) + 1) && y.key.pfx > Shared(t, x) {
      TopAgrees(t, len, y);
    }
  }

  /** Where the descent goes on, x agrees with t on the bits t decides on and is long enough. */
  lemma Continues(t: Tree<Prefix>, x: Entry)
    requires t.Inner? && t.bit >= 0 && !StopsAbove(t, x)
    ensures Agree(x, t.n, t.bit / 2) && x.key.pfx >= t.bit / 2 && (t.bit % 2 == 1 ==> x.key.pfx > t.bit / 2)
  {
  }

  lemma AllSamePrefixed(t: Tree<Prefix>, x: Entry, len: nat)
    requires DupShape(t) && KeyOk(x, len) && forall y | y in Leaves(t) :: KeyOk(y, len) && SamePrefix(y, x)
    ensures Prefixed(t, len)
  {
    if t.Inner? {
      AllSamePrefixed(t.l, x, len);
      AllSamePrefixed(t.r, x, len);
      SeqLeaves(t.r);
      forall y | y in Leaves(t) ensures SamePrefix(y, t.n) {
        AgreeVia(y, t.n, x, x.key.pfx);
      }
    }
  }

  /** A further entry with the prefix all of t has. */
  lemma SamePrefixInserted(t: Tree<Prefix>, x: Entry, len: nat)
    requires Prefixed(t, len) && OwnBelow(t) && KeyOk(x, len) && StopsAbove(t, x) && NewBit(t, x) == -1
    ensures Prefixed(Insert(t, x), len) && Insert(t, x).Inner? && Insert(t, x).bit < 0
    ensures forall y | y in Leaves(t) :: SamePrefix(y, x)
  {
    TopIsLeaf(t);
    PrefixedKeys(t, len);
    forall y | y in Leaves(t) ensures SamePrefix(y, x) {
      TopAgrees(t, len, y);
      AgreeVia(y, x, t.n, x.key.pfx);
    }
    InsertLeaves(t, x);
    var u := Insert(t, x);
    if t.Inner? {
      InsertLastShape(t, x);
    } else {
      assert DupShape(t) && DupShape(Leaf(x)) && First(Leaf(x)) == x;
    }
    AllSamePrefixed(u, x, len);
  }

  /** A cover node put above t: the single prefix of t is a shorter prefix of x. */
  lemma CoveredPrefixed(t: Tree<Prefix>, x: Entry, len: nat)
    requires Prefixed(t, len) && KeyOk(x, len) && (t.Leaf? || t.bit < 0) && t.n.key.pfx < x.key.pfx
    requires forall y | y in Leaves(t) :: Agree(y, x, t.n.key.pfx) && y.key.pfx == t.n.key.pfx
    ensures Prefixed(Graft(x, 2 * t.n.key.pfx, t, true), len)
  {
    assert Prefixed(Leaf(x), len) && Leaves(Leaf(x)) == {x};
  }

  lemma GraftPrefixed(t: Tree<Prefix>, x: Entry, len: nat)
    requires Prefixed(t, len) && OwnBelow(t) && KeyOk(x, len) && StopsAbove(t, x) && NewBit(t, x) != -1
    ensures Prefixed(Graft(x, NewBit(t, x), t, OnRight(t, x)), len)
  {
    hide Prefixed, OwnBelow, StopsAbove, KeyOk, Agree, Leaves;
    if Differ(t, x) {
      DifferAll(t, x, len);
      SpanPrefixed(t, x, Shared(t, x), len);
    } else if (t.Inner? && t.bit >= 0) || x.key.pfx < t.n.key.pfx {
      ShorterAll(t, x, len);
      CoverPrefixed(t, x, len);
    } else {
      LongerAll(t, x, len);
      CoveredPrefixed(t, x, len);
    }
  }

  /** Where the descent stops because x ends, x covers all of t. */
  lemma ShorterAll(t: Tree<Prefix>, x: Entry, len: nat)
    requires Prefixed(t, len) && OwnBelow(t) && KeyOk(x, len) && StopsAbove(t, x) && !Differ(t, x)
    requires (t.Inner? && t.bit >= 0) || x.key.pfx < t.n.key.pfx
    ensures x.key.pfx < 8 * len && (t.Inner? && t.bit >= 0 ==> t.bit > 2 * x.key.pfx)
    ensures forall y | y in Leaves(t) :: Agree(y, x, x.key.pfx) && y.key.pfx > x.key.pfx
  {
    TopIsLeaf(t);
    forall y | y in Leaves(t) ensures Agree(y, x, x.key.pfx) && y.key.pfx > x.key.pfx {
      TopAgrees(t, len, y);
      AgreeVia(y, x, t.n, x.key.pfx);
    }
    TopAgrees(t, len, t.n);
  }

  /** Where the descent stops because t ends, the single prefix of t covers x. */
  lemma LongerAll(t: Tree<Prefix>, x: Entry, len: nat)
    requires Prefixed(t, len) && OwnBelow(t) && KeyOk(x, len) && (t.Leaf? || t.bit < 0) && !Differ(t, x)
    requires x.key.pfx > t.n.key.pfx
    ensures forall y | y in Leaves(t) :: Agree(y, x, t.n.key.pfx) && y.key.pfx == t.n.key.pfx
  {
    TopIsLeaf(t);
    forall y | y in Leaves(t) ensures Agree(y, x, t.n.key.pfx) && y.key.pfx == t.n.key.pfx {
      TopAgrees(t, len, y);
      AgreeVia(y, x, t.n, t.n.key.pfx);
    }
  }

  /** The bit of a node put above t is above the bit of the node t hangs from. */
  lemma InsertTop(t: Tree<Prefix>, x: Entry, bit: nat, len: nat)
    requires Prefixed(t, len) && OwnBelow(t) && KeyOk(x, len) && (t.Inner? && t.bit >= 0 ==> t.bit > bit)
    requires x.key.pfx > bit / 2 && t.n.key.pfx > bit / 2 && Agree(x, t.n, (bit + 1) / 2)
    ensures Insert(t, x).Inner? && (Insert(t, x).bit >= 0 ==> Insert(t, x).bit > bit)
  {
    TopIsLeaf(t);
    TopAgrees(t, len, t.n);
    if StopsAbove(t, x) && NewBit(t, x) == -1 {
      SamePrefixInserted(t, x, len);
    } else if StopsAbove(t, x) && Differ(t, x) {
      DifferAll(t, x, len);
    }
  }

  /** Replacing a branch by one with an extra entry that belongs there. */
  lemma BranchPrefixed(t: Tree<Prefix>, u: Tree<Prefix>, x: Entry, len: nat, right: bool)
    requires t.Inner? && t.bit >= 0 && Prefixed(t, len) && Prefixed(u, len)
    requires u.Inner? && u.bit >= 0 ==> u.bit > t.bit
    requires Leaves(u) <= Leaves(if right then t.r else t.l) + {x} && Agree(x, t.n, t.bit / 2)
    requires if t.bit % 2 == 0 then
               if right then x.key.pfx > t.bit / 2 else x.key.pfx == t.bit / 2 && (u.Leaf? || u.bit < 0)
             else x.key.pfx > t.bit / 2 && KeyBit(x, t.bit / 2) == if right then 1 else 0
    ensures Prefixed(if right then t.(r := u) else t.(l := u), len)
  {
  }

  /** Below a cover node, the left branch is a single prefix: that of an x that goes there. */
  lemma CoverLeft(t: Tree<Prefix>, x: Entry, len: nat)
    requires Prefixed(t, len) && OwnBelow(t) && KeyOk(x, len) && t.Inner? && t.bit >= 0 && t.bit % 2 == 0
    requires !StopsAbove(t, x) && !ToRight(t, x)
    ensures StopsAbove(t.l, x) && NewBit(t.l, x) == -1
  {
    Continues(t, x);
    TopIsLeaf(t.l);
    AgreeVia(x, t.l.n, t.n, x.key.pfx);
  }

  /** Elsewhere, x agrees with the branch it goes to one bit further. */
  lemma FurtherDown(t: Tree<Prefix>, x: Entry, len: nat)
    requires Prefixed(t, len) && OwnBelow(t) && KeyOk(x, len) && t.Inner? && t.bit >= 0
    requires !StopsAbove(t, x) && (t.bit % 2 == 1 || ToRight(t, x))
    ensures var s := if ToRight(t, x) then t.r else t.l;
      Agree(x, s.n, (t.bit + 1) / 2) && s.n.key.pfx > t.bit / 2 && x.key.pfx > t.bit / 2
    ensures t.bit % 2 == 1 ==> KeyBit(x, t.bit / 2) == if ToRight(t, x) then 1 else 0
  {
    Continues(t, x);
    var s := if ToRight(t, x) then t.r else t.l;
    TopIsLeaf(s);
    AgreeVia(x, s.n, t.n, t.bit / 2);
    PrefixedKeys(t, len);
    if t.bit % 2 == 1 {
      AgreeMore(x, s.n, t.bit / 2);
    }
  }

  /** Insertion keeps the invariant. */
  lemma {:induction false} InsertPrefixed(t: Tree<Prefix>, x: Entry, len: nat)
    requires Prefixed(t, len) && OwnBelow(t) && KeyOk(x, len)
    ensures Prefixed(Insert(t, x), len)
  {
    hide Agree, SamePrefix, KeyBit, Shared, Differ, DupShape;
    if StopsAbove(t, x) {
      if NewBit(t, x) == -1 {
        SamePrefixInserted(t, x, len);
      } else {
        GraftPrefixed(t, x, len);
      }
    } else {
      Continues(t, x);
      var right := ToRight(t, x);
      var s := if right then t.r else t.l;
      InsertPrefixed(s, x, len);
      InsertLeaves(s, x);
      if t.bit % 2 == 1 || right {
        FurtherDown(t, x, len);
        InsertTop(s, x, t.bit, len);
      } else {
        CoverLeft(t, x, len);
        SamePrefixInserted(s, x, len);
      }
      BranchPrefixed(t, Insert(s, x), x, len, right);
    }
  }

  // ---------------------------------------------------------------------------
  // Walking order

  ghost predicate HasPrefix(t: Tree<Prefix>, x: Entry) {
    exists y | y in Leaves(t) :: SamePrefix(y, x)
  }

  /** Where the descent stops, t has the prefix of x only as its single prefix. */
  lemma StopFinds(t: Tree<Prefix>, x: Entry, len: nat)
    requires Prefixed(t, len) && OwnBelow(t) && KeyOk(x, len) && StopsAbove(t, x)
    ensures NewBit(t, x) == -1 ==> forall y | y in Leaves(t) :: SamePrefix(y, x)
    ensures NewBit(t, x) != -1 ==> forall y | y in Leaves(t) :: !SamePrefix(y, x)
    ensures HasPrefix(t, x) <==> NewBit(t, x) == -1
    ensures NewBit(t, x) == -1 ==> SamePrefix(t.n, x) && (t.Leaf? || t.bit < 0)
  {
    TopIsLeaf(t);
    if NewBit(t, x) == -1 {
      SamePrefixInserted(t, x, len);
      assert SamePrefix(t.n, x);
    } else if Differ(t, x) {
      DifferAll(t, x, len);
      var b := Shared(t, x);
      forall y | y in Leaves(t) ensures !SamePrefix(y, x) {
        assert Agree(y, t.n, b + 1);
        assert BitAt(y.key.bytes, b) == BitAt(t.n.key.bytes, b);
        NotAgree(y, x, b, y.key.pfx);
      }
    } else if (t.Inner? && t.bit >= 0) || x.key.pfx < t.n.key.pfx {
      ShorterAll(t, x, len);
    } else {
      LongerAll(t, x, len);
    }
  }

  /** The branch x does not go to does not have its prefix. */
  lemma OtherBranch(t: Tree<Prefix>, x: Entry, len: nat)
    requires Prefixed(t, len) && OwnBelow(t) && KeyOk(x, len) && t.Inner? && t.bit >= 0 && !StopsAbove(t, x)
    ensures forall y | y in Leaves(if ToRight(t, x) then t.l else t.r) :: !SamePrefix(y, x)
    ensures HasPrefix(t, x) <==> HasPrefix(if ToRight(t, x) then t.r else t.l, x)
  {
    Continues(t, x);
    PrefixedKeys(t, len);
    var n := t.bit / 2;
    forall y | y in Leaves(if ToRight(t, x) then t.l else t.r) ensures !SamePrefix(y, x) {
      if t.bit % 2 == 1 {
        NotAgree(y, x, n, y.key.pfx);
      }
    }
  }

  ghost predicate NoneSame(s: seq<Entry>, x: Entry) {
    forall i | 0 <= i < |s| :: !SamePrefix(s[i], x)
  }

  lemma NoneSameIn(t: Tree<Prefix>, x: Entry)
    requires forall y | y in Leaves(t) :: !SamePrefix(y, x)
    ensures NoneSame(Seq(t), x)
  {
    SeqLeaves(t);
    assert forall i | 0 <= i < |Seq(t)| :: Seq(t)[i] in Leaves(t);
  }

  lemma StopSplits(t: Tree<Prefix>, x: Entry, len: nat) returns (a: seq<Entry>, b: seq<Entry>)
    requires Prefixed(t, len) && OwnBelow(t) && KeyOk(x, len) && StopsAbove(t, x)
    ensures Seq(t) == a + b && Seq(Insert(t, x)) == a + [x] + b && NoneSame(b, x)
  {
    hide Prefixed, OwnBelow, StopsAbove;
    StopFinds(t, x, len);
    if t.Inner? {
      InsertLastSeq(t, x);
    }
    if NewBit(t, x) == -1 || OnRight(t, x) {
      a, b := Seq(t), [];
    } else {
      a, b := [], Seq(t);
      NoneSameIn(t, x);
    }
  }

  lemma JoinRight<T>(l: seq<T>, a: seq<T>, x: T, b: seq<T>)
    ensures l + (a + [x] + b) == (l + a) + [x] + b && l + (a + b) == (l + a) + b
  {
  }

  lemma JoinLeft<T>(a: seq<T>, x: T, b: seq<T>, r: seq<T>)
    ensures (a + [x] + b) + r == a + [x] + (b + r) && (a + b) + r == a + (b + r)
  {
  }

  /** The new entry comes after every entry with the same prefix, and nothing else moves. */
  lemma {:induction false} InsertSplits(t: Tree<Prefix>, x: Entry, len: nat) returns (a: seq<Entry>, b: seq<Entry>)
    requires Prefixed(t, len) && OwnBelow(t) && KeyOk(x, len)
    ensures Seq(t) == a + b && Seq(Insert(t, x)) == a + [x] + b && NoneSame(b, x)
  {
    hide StopsAbove, ToRight, SamePrefix, KeyOk, Agree, KeyBit, DupShape;
    if StopsAbove(t, x) {
      a, b := StopSplits(t, x, len);
    } else {
      StopsAtLeaf(t, x);
      OtherBranch(t, x, len);
      if ToRight(t, x) {
        a, b := InsertSplits(t.r, x, len);
        JoinRight(Seq(t.l), a, x, b);
        a := Seq(t.l) + a;
      } else {
        a, b := InsertSplits(t.l, x, len);
        NoneSameIn(t.r, x);
        JoinLeft(a, x, b, Seq(t.r));
        b := b + Seq(t.r);
      }
    }
  }

  lemma StopsAtLeaf(t: Tree<Prefix>, x: Entry)
    requires !StopsAbove(t, x)
    ensures t.Inner? && t.bit >= 0
  {
  }

  // ---------------------------------------------------------------------------
  // Groups

  /** The bits of a prefix, without those that do not matter. */
  ghost function BitsOf(p: Prefix): (s: seq<nat>)
    ensures p.pfx <= 8 * |p.bytes| ==> |s| == p.pfx && forall i | 0 <= i < p.pfx :: s[i] == BitAt(p.bytes, i)
  {
    if p.pfx > 8 * |p.bytes| then [] else seq(p.pfx, i requires 0 <= i < p.pfx => BitAt(p.bytes, i))
  }

  lemma SameBitsOf(x: Entry, y: Entry, len: nat)
    requires KeyOk(x, len) && KeyOk(y, len)
    ensures SamePrefix(x, y) <==> BitsOf(x.key) == BitsOf(y.key)
  {
    if BitsOf(x.key) == BitsOf(y.key) {
      forall i | 0 <= i < x.key.pfx ensures BitAt(x.key.bytes, i) == BitAt(y.key.bytes, i) {
        assert BitsOf(x.key)[i] == BitsOf(y.key)[i];
      }
    }
  }

  /** Entries for the same prefix sit in the same duplicate tree, so the duplicate and unique walks apply,
      whatever the bits past the prefixes. */
  lemma {:induction false} PrefixGrouped(t: Tree<Prefix>, len: nat)
    requires Prefixed(t, len) && OwnBelow(t)
    ensures Grouped(t, BitsOf)
  {
    if t.Inner? {
      hide SamePrefix, Agree, BitsOf;
      PrefixGrouped(t.l, len);
      PrefixGrouped(t.r, len);
      PrefixedKeys(t, len);
      TopIsLeaf(t);
      if t.bit < 0 {
        assert DupShape(t.l) && DupShape(t.r);
        forall x | x in Leaves(t) ensures BitsOf(x.key) == BitsOf(t.n.key) {
          SameBitsOf(x, t.n, len);
        }
      } else {
        forall x, y | x in Leaves(t.l) && y in Leaves(t.r) ensures BitsOf(x.key) != BitsOf(y.key) {
          BranchesApart(t, x, y, len);
        }
      }
    }
  }

  lemma BranchesApart(t: Tree<Prefix>, x: Entry, y: Entry, len: nat)
    requires Prefixed(t, len) && t.Inner? && t.bit >= 0 && x in Leaves(t.l) && y in Leaves(t.r)
    requires KeyOk(x, len) && KeyOk(y, len)
    ensures BitsOf(x.key) != BitsOf(y.key)
  {
    if t.bit % 2 == 1 {
      var n := t.bit / 2;
      assert BitsOf(x.key)[n] == KeyBit(x, n) && BitsOf(y.key)[n] == KeyBit(y, n);
    }
  }

  // ---------------------------------------------------------------------------
  // Deletion

  /** Dropping one entry from a branch, and naming the node after another entry below it. */
  lemma ThinnedPrefixed(t: Tree<Prefix>, p: Entry, l: Tree<Prefix>, r: Tree<Prefix>, len: nat)
    requires t.Inner? && t.bit >= 0 && Prefixed(t, len) && p in Leaves(t)
    requires Prefixed(l, len) && Prefixed(r, len) && Leaves(l) <= Leaves(t.l) && Leaves(r) <= Leaves(t.r)
    requires (l.Inner? && l.bit >= 0 ==> l.bit > t.bit) && (r.Inner? && r.bit >= 0 ==> r.bit > t.bit)
    requires t.bit % 2 == 0 ==> l.Leaf? || l.bit < 0
    ensures Prefixed(Inner(p, t.bit, l, r), len)
  {
    forall x | x in Leaves(l) + Leaves(r) ensures Agree(x, p, t.bit / 2) {
      assert x in Leaves(t);
      AgreeVia(x, p, t.n, t.bit / 2);
    }
  }

  /** Deletion keeps the invariant, whatever node is recycled. */
  lemma {:induction false} DeletedPrefixed(t: Tree<Prefix>, x: Entry, len: nat)
    requires Prefixed(t, len) && Apart(t) && OwnBelow(t) && t.Inner? && x in Leaves(t)
    ensures var u := Deleted(t, x).t;
      && Prefixed(u, len)
      && (t.bit < 0 ==> u.Leaf? || u.bit < 0)
      && (u.Inner? && u.bit >= 0 ==> u.bit >= t.bit)
  {
    hide Agree, SamePrefix, KeyOk, KeyBit, DupShape;
    DeletedStep(t, x);
    DeletedLeaves(t, x);
    if t.bit < 0 {
      DeletedSingle(t, x, len);
    } else if x in Leaves(t.l) && t.l.Inner? {
      DeletedPrefixed(t.l, x, len);
      DeletedLeaves(t.l, x);
      ThinnedPrefixed(t, if t.n == x then LeafParent(t.l, x) else t.n, Deleted(t.l, x).t, t.r, len);
    } else if x in Leaves(t.r) && t.r.Inner? {
      DeletedPrefixed(t.r, x, len);
      DeletedLeaves(t.r, x);
      ThinnedPrefixed(t, if t.n == x then LeafParent(t.r, x) else t.n, t.l, Deleted(t.r, x).t, len);
    }
  }

  lemma DeletedSingle(t: Tree<Prefix>, x: Entry, len: nat)
    requires Prefixed(t, len) && Apart(t) && OwnBelow(t) && t.Inner? && t.bit < 0 && x in Leaves(t)
    ensures var u := Deleted(t, x).t; Prefixed(u, len) && (u.Leaf? || u.bit < 0)
  {
    DeletedDup(t, x);
    DeletedLeaves(t, x);
    PrefixedKeys(t, len);
    TopIsLeaf(t);
    AllSamePrefixed(Deleted(t, x).t, t.n, len);
  }

  // ---------------------------------------------------------------------------
  // Whole trees

  ghost function Inserted(s: Shape<Prefix>, x: Entry, unique: bool): Shape<Prefix> {
    if s.Empty? then Full(Leaf(x))
    else if unique && HasPrefix(s.t, x) then s
    else Full(Insert(s.t, x))
  }

  /** A sequence of entries with unique prefixes refuses a prefix it has. */
  ghost predicate Refuses(e: seq<Entry>, x: Entry, unique: bool) {
    unique && !NoneSame(e, x)
  }

  /** e' is e with x added behind every entry that has its prefix. */
  ghost predicate AddedLast(e: seq<Entry>, x: Entry, e': seq<Entry>) {
    exists i | 0 <= i <= |e| :: e' == e[..i] + [x] + e[i..] && NoneSame(e[i..], x)
  }

  ghost predicate DistinctPrefixes(e: seq<Entry>) {
    forall i, j | 0 <= i < j < |e| :: !SamePrefix(e[i], e[j])
  }

  lemma SameSwap(x: Entry, y: Entry)
    ensures SamePrefix(x, y) <==> SamePrefix(y, x)
  {
  }

  lemma AddedDistinct(e: seq<Entry>, x: Entry, a: seq<Entry>, b: seq<Entry>)
    requires DistinctPrefixes(e) && NoneSame(e, x) && e == a + b
    ensures DistinctPrefixes(a + [x] + b)
  {
    var u := a + [x] + b;
    forall i, j | 0 <= i < j < |u| ensures !SamePrefix(u[i], u[j]) {
      if i != |a| && j != |a| {
        var i', j' := if i < |a| then i else i - 1, if j < |a| then j else j - 1;
        assert u[i] == e[i'] && u[j] == e[j'];
      } else if i == |a| {
        assert u[j] == e[j - 1];
        SameSwap(u[j], x);
      } else {
        assert u[i] == e[i];
      }
    }
  }

  lemma InsertedKeeps(s: Shape<Prefix>, x: Entry, unique: bool, len: nat)
    requires KeyOk(x, len) && (s.Full? ==> Prefixed(s.t, len) && OwnBelow(s.t))
    requires s.Full? && unique ==> DistinctPrefixes(Seq(s.t))
    ensures Inserted(s, x, unique).Full? && Prefixed(Inserted(s, x, unique).t, len)
    ensures unique ==> DistinctPrefixes(Seq(Inserted(s, x, unique).t))
    ensures var e, e' := if s.Empty? then [] else Seq(s.t), Seq(Inserted(s, x, unique).t);
      if Refuses(e, x, unique) then e' == e else AddedLast(e, x, e')
    ensures s.Full? ==> (Refuses(Seq(s.t), x, unique) <==> unique && HasPrefix(s.t, x))
  {
    if s.Empty? {
      assert Prefixed(Leaf(x), len);
      var e: seq<Entry> := [];
      assert Seq(Leaf(x)) == e[..0] + [x] + e[0..];
    } else {
      var e := Seq(s.t);
      SeqLeaves(s.t);
      if !HasPrefix(s.t, x) {
        NoneSameIn(s.t, x);
      } else {
        var y :| y in Leaves(s.t) && SamePrefix(y, x);
        assert y in e;
      }
      InsertPrefixed(s.t, x, len);
      var a, b := InsertSplits(s.t, x, len);
      assert e[..|a|] == a && e[|a|..] == b;
      if unique && !HasPrefix(s.t, x) {
        AddedDistinct(e, x, a, b);
      }
    }
  }
}
