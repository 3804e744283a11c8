/** Results about several insertions in a row. */
module EbRuns {
  import opened Bits
  import opened Sifting
  import opened EbTree
  import opened EbSplice
  import opened EbDup
  import opened EbScalar
  import opened EbWalk
  import opened Eb32Lookup

  /** The tree made of the given entries inserted one after another. */
  ghost function InsertAll(s: seq<EbNode<nat>>, o: Order): Shape<nat> {
    if s == [] then Empty else Inserted(InsertAll(s[..|s| - 1], o), s[|s| - 1], o, false)
  }

  // ---------------------------------------------------------------------------
  // Duplicates among any keys

  ghost function KeyIs(k: nat): EbNode<nat> -> bool {
    (x: EbNode<nat>) => x.key == k
  }

  /** The entries with key k, in order. */
  ghost function OfKey(s: seq<EbNode<nat>>, k: nat): seq<EbNode<nat>> {
    Those(s, KeyIs(k))
  }

  /** Sorted insertion adds an entry last among those with its key. */
  lemma {:induction false} OfKeyPlaced(s: seq<EbNode<nat>>, x: EbNode<nat>, o: Order, k: nat)
    requires Sorted(s, o)
    ensures OfKey(Placed(s, x, o), k) == OfKey(s, k) + OfKey([x], k)
  {
    hide Those;
    if s == [] || Key(s[0], o) > Key(x, o) {
      ThoseConcat([x], s, KeyIs(k));
      if x.key == k {
        forall i | 0 <= i < |s| ensures s[i].key != k {
          assert i > 0 ==> Key(s[0], o) <= Key(s[i], o);
        }
        ThoseNone(s, KeyIs(k));
      } else {
        ThoseNone([x], KeyIs(k));
      }
    } else {
      OfKeyPlaced(s[1..], x, o, k);
      ThoseStep(s[0], Placed(s[1..], x, o), KeyIs(k));
      ThoseStep(s[0], s[1..], KeyIs(k));
      assert s == [s[0]] + s[1..];
    }
  }

  lemma {:induction false} InsertOwn(t: Tree<nat>, x: EbNode<nat>, o: Order)
    requires OwnBelow(t)
    ensures OwnBelow(Insert(t, x, o))
  {
    if StopsAbove(t, x) {
      if t.Inner? {
        InsertLastOwn(t, x);
      }
    } else if Bit(Key(x, o), t.bit) == 0 {
      InsertLeaves(t.l, x, o);
      InsertOwn(t.l, x, o);
    } else {
      InsertLeaves(t.r, x, o);
      InsertOwn(t.r, x, o);
    }
  }

  lemma GraftOwn<K>(t: Tree<K>, x: EbNode<K>, bit: int)
    requires OwnBelow(t)
    ensures OwnBelow(Graft(x, bit, t, true)) && Leaves(Graft(x, bit, t, true)) == Leaves(t) + {x}
  {
  }

  lemma {:induction false} InsertLastOwn<K>(t: Tree<K>, x: EbNode<K>)
    requires OwnBelow(t) && t.Inner?
    ensures OwnBelow(InsertLast(t, x))
  {
    GraftOwn(t.r, x, -1);
    GraftOwn(t, x, t.bit - 1);
    if t.r.Inner? {
      GraftOwn(t.r, x, t.r.bit - 1);
      InsertLastSeq(t.r, x);
      InsertLastOwn(t.r, x);
    }
  }

  /** Every duplicate tree found from the top is filled like a counter. */
  ghost predicate DupsCounted(t: Tree<nat>) {
    t.Inner? ==> if t.bit < 0 then Counted(t) else DupsCounted(t.l) && DupsCounted(t.r)
  }

  lemma {:induction false} InsertDupsCounted(t: Tree<nat>, x: EbNode<nat>, o: Order)
    requires DupsCounted(t)
    ensures DupsCounted(Insert(t, x, o))
  {
    if StopsAbove(t, x) {
      if x.key != t.n.key {
        NewBitMeans(t, x, o);
      } else if t.Inner? {
        EqualGoesDown(t, x);
        InsertLastCounted(t, x);
      } else {
        assert Pow2(0) == 1;
      }
    } else if Bit(Key(x, o), t.bit) == 0 {
      InsertDupsCounted(t.l, x, o);
    } else {
      InsertDupsCounted(t.r, x, o);
    }
  }

  /** What any run of insertions makes: entries with the same key stay in insertion order. */
  lemma {:induction false} RunKeeps(s: seq<EbNode<nat>>, o: Order, k: nat)
    requires s != []
    ensures InsertAll(s, o).Full?
    ensures var t := InsertAll(s, o).t; Radix(t, o) && OwnBelow(t) && DupsCounted(t) && OfKey(Seq(t), k) == OfKey(s, k)
  {
    hide Radix, OwnBelow, DupsCounted, Insert, Seq;
    var r, x := s[..|s| - 1], s[|s| - 1];
    assert s == r + [x];
    ThoseConcat(r, [x], KeyIs(k));
    if r == [] {
      SingleKeeps(x, o);
    } else {
      RunKeeps(r, o, k);
      var t := InsertAll(r, o).t;
      InsertedKeeps(Full(t), x, o, false);
      InsertOwn(t, x, o);
      InsertDupsCounted(t, x, o);
      RadixSorted(t, o);
      OfKeyPlaced(Seq(t), x, o, k);
    }
  }

  lemma SingleKeeps(x: EbNode<nat>, o: Order)
    ensures Radix(Leaf(x), o) && OwnBelow(Leaf(x)) && DupsCounted(Leaf(x)) && Seq(Leaf(x)) == [x]
    ensures InsertAll([], o) == Empty
  {
  }

  /** A subtree with a negative bit that does not hang inside another one is filled like a counter. */
  lemma {:induction false} CountedBelow(c: Ctx<nat>, u: Tree<nat>)
    requires DupsCounted(Plug(c, u)) && (c.Top? || c.bit >= 0)
    requires Grouped(Plug(c, u), Whole)
    ensures DupsCounted(u)
  {
    if !c.Top? {
      GroupedBelow(c.up, Grow(c, u), Whole);
      if !c.up.Top? {
        GroupedBelow(c.up.up, Grow(c.up, Grow(c, u)), Whole);
      }
      CountedBelow(c.up, Grow(c, u));
    }
  }

  /** Whatever else is inserted, in whatever order and without deletion: a duplicate tree holds all the entries
      with its key, in insertion order, at a depth of log2 of their number rounded up at most. */
  lemma DuplicatesAreShallow(s: seq<EbNode<nat>>, o: Order, c: Ctx<nat>, u: Tree<nat>)
    requires InsertAll(s, o) == Full(Plug(c, u)) && u.Inner? && u.bit < 0 && (c.Top? || c.bit >= 0)
    ensures Seq(u) == OfKey(s, u.n.key)
    ensures Depth(u) <= Log2Up(|OfKey(s, u.n.key)|)
  {
    hide Radix, OwnBelow, OfKey, Those, Log2Up, Depth, Leaves, Seq;
    var k := u.n.key;
    RunKeeps(s, o, k);
    RadixGrouped(Plug(c, u), o);
    CountedBelow(c, u);
    OnlyHere(c, u, k);
    CountedDepth(u);
    Log2UpBound(|Seq(u)|, -u.bit - 1);
  }

  /** Nothing outside a duplicate tree has its key. */
  lemma OnlyHere(c: Ctx<nat>, u: Tree<nat>, k: nat)
    requires Grouped(Plug(c, u), Whole) && OwnBelow(Plug(c, u))
    requires u.Inner? && u.bit < 0 && (c.Top? || c.bit >= 0) && k == u.n.key
    ensures OfKey(Seq(Plug(c, u)), k) == Seq(u)
  {
    GroupedBelow(c, u, Whole);
    GroupedOutside(c, u, Whole);
    OutsideLeaves(c);
    OwnInside(c, u);
    TopIsLeaf(u);
    SeqLeaves(u);
    PlugSeq(c, u);
    ThoseNone(Before(c), KeyIs(k));
    ThoseNone(After(c), KeyIs(k));
    assert forall i | 0 <= i < |Seq(u)| :: Seq(u)[i] in Leaves(u);
    ThoseAll(Seq(u), KeyIs(k));
    ThoseConcat(Before(c), Seq(u), KeyIs(k));
    ThoseConcat(Before(c) + Seq(u), After(c), KeyIs(k));
  }

  /** And every key inserted twice or more has such a tree. */
  lemma {:induction false} RepeatedKey(c: Ctx<nat>, t: Tree<nat>, o: Order, k: nat) returns (cu: Ctx<nat>, u: Tree<nat>)
    requires Radix(t, o) && OwnBelow(t) && |OfKey(Seq(t), k)| >= 2 && (c.Top? || c.bit >= 0)
    ensures Plug(cu, u) == Plug(c, t) && u.Inner? && u.bit < 0 && (cu.Top? || cu.bit >= 0) && u.n.key == k
    decreases t
  {
    if t.bit < 0 {
      cu, u := c, t;
      SeqLeaves(t);
      if t.n.key != k {
        assert forall i | 0 <= i < |Seq(t)| :: Seq(t)[i] in Leaves(t);
        ThoseNone(Seq(t), KeyIs(k));
      }
    } else {
      OneBranch(t, o, k);
      ThoseConcat(Seq(t.l), Seq(t.r), KeyIs(k));
      if OfKey(Seq(t.r), k) == [] {
        cu, u := RepeatedKey(InLeft(c, t.n, t.bit, t.r), t.l, o, k);
      } else {
        cu, u := RepeatedKey(InRight(c, t.n, t.bit, t.l), t.r, o, k);
      }
    }
  }

  lemma OneBranch(t: Tree<nat>, o: Order, k: nat)
    requires Radix(t, o) && t.Inner? && t.bit >= 0
    ensures OfKey(Seq(t.l), k) == [] || OfKey(Seq(t.r), k) == []
  {
    RadixGrouped(t, o);
    SeqLeaves(t.l);
    SeqLeaves(t.r);
    if i :| 0 <= i < |Seq(t.l)| && Seq(t.l)[i].key == k {
      assert Seq(t.l)[i] in Leaves(t.l);
      assert forall j | 0 <= j < |Seq(t.r)| :: Seq(t.r)[j] in Leaves(t.r);
      ThoseNone(Seq(t.r), KeyIs(k));
    } else {
      ThoseNone(Seq(t.l), KeyIs(k));
    }
  }

  /** Entries that all have the same key make a single duplicate tree, that of its own insertions. */
  lemma {:induction false} SameKeyRun(s: seq<EbNode<nat>>, k: nat, o: Order)
    requires |s| >= 2 && forall i | 0 <= i < |s| :: s[i].key == k
    ensures InsertAll(s, o) == Full(Fill(s))
    ensures Seq(Fill(s)) == s && Depth(Fill(s)) <= Log2Up(|s|)
  {
    FillIsShallow(s);
    var r, x := s[..|s| - 1], s[|s| - 1];
    if |s| == 2 {
      assert r == [s[0]] && r[..0] == [];
      assert InsertAll([], o) == Empty;
      assert InsertAll(r, o) == Full(Leaf(s[0]));
    } else {
      SameKeyRun(r, k, o);
      FillIsShallow(r);
      FillHasKey(r, k);
    }
  }

  lemma {:induction false} FillHasKey(s: seq<EbNode<nat>>, k: nat)
    requires |s| >= 2 && forall i | 0 <= i < |s| :: s[i].key == k
    ensures Fill(s).n.key == k && Fill(s).bit < 0
  {
    FillIsShallow(s);
    SeqLeaves(Fill(s).r);
    SeqLeaves(Fill(s));
    assert Fill(s).n in Leaves(Fill(s));
  }

  // ---------------------------------------------------------------------------
  // Signed keys

  /** The two trees have the same shape and bits, and each key of the second is the matching key of the
      first with its sign bit inverted. */
  ghost predicate Mirrors(t: Tree<nat>, u: Tree<nat>, w: nat)
    requires w > 0
  {
    && u.n.key == Flip(t.n.key, w)
    && (t.Leaf? <==> u.Leaf?)
    && (t.Inner? ==> t.bit == u.bit && Mirrors(t.l, u.l, w) && Mirrors(t.r, u.r, w))
  }

  lemma {:induction false} MirrorsDup(t: Tree<nat>, u: Tree<nat>, x: EbNode<nat>, y: EbNode<nat>, w: nat)
    requires w > 0 && t.Inner? && Mirrors(t, u, w) && y.key == Flip(x.key, w)
    ensures HasHole(t) == HasHole(u) && Mirrors(InsertLast(t, x), InsertLast(u, y), w)
  {
    assert Mirrors(Leaf(x), Leaf(y), w);
    if t.r.Inner? {
      MirrorsDup(t.r, u.r, x, y, w);
    }
  }

  /** Inserting signed keys builds the tree that inserting the flipped keys as unsigned ones builds. */
  lemma {:induction false} SignedIsFlipped(t: Tree<nat>, u: Tree<nat>, x: EbNode<nat>, y: EbNode<nat>, w: nat)
    requires w > 0 && Mirrors(t, u, w) && y.key == Flip(x.key, w)
    ensures Mirrors(Insert(t, x, TwosComplement(w)), Insert(u, y, Unsigned), w)
  {
    var o := TwosComplement(w);
    WordXor(x.key, t.n.key, o);
    assert Key(x, o) == y.key && Key(t.n, o) == u.n.key;
    assert StopsAbove(t, x) <==> StopsAbove(u, y);
    if StopsAbove(t, x) {
      assert Mirrors(Leaf(x), Leaf(y), w);
      if t.Inner? {
        MirrorsDup(t, u, x, y, w);
      }
    } else if Bit(y.key, t.bit) == 0 {
      SignedIsFlipped(t.l, u.l, x, y, w);
    } else {
      SignedIsFlipped(t.r, u.r, x, y, w);
    }
  }

  /** Walking a tree of signed keys gives them in the order of their two's complement values. */
  lemma SignedOrder(t: Tree<nat>, w: nat)
    requires w > 0 && Radix(t, TwosComplement(w)) && forall x | x in Seq(t) :: x.key < Pow2(w)
    ensures forall i, j | 0 <= i < j < |Seq(t)| :: Signed(Seq(t)[i].key, w) <= Signed(Seq(t)[j].key, w)
  {
    RadixSorted(t, TwosComplement(w));
    forall i, j | 0 <= i < j < |Seq(t)| ensures Signed(Seq(t)[i].key, w) <= Signed(Seq(t)[j].key, w) {
      FlipAdds(Seq(t)[i].key, w);
      FlipAdds(Seq(t)[j].key, w);
    }
  }

  lemma {:induction false} MirrorsSeq(t: Tree<nat>, u: Tree<nat>, w: nat)
    requires w > 0 && Mirrors(t, u, w)
    ensures |Seq(u)| == |Seq(t)| && forall i | 0 <= i < |Seq(t)| :: Seq(u)[i].key == Flip(Seq(t)[i].key, w)
  {
    if t.Inner? {
      MirrorsSeq(t.l, u.l, w);
      MirrorsSeq(t.r, u.r, w);
    }
  }

  /** Looking for a signed key finds the entry at the place where looking for the flipped key, as an unsigned
      one, finds its own in the tree of flipped keys. */
  lemma SignedLookupIsFlipped(t: Tree<nat>, u: Tree<nat>, w: nat, x: nat, r: EbNode?<nat>, q: EbNode?<nat>)
    requires w > 0 && Mirrors(t, u, w) && FirstMatch(Seq(t), x, r) && FirstMatch(Seq(u), Flip(x, w), q)
    ensures r == null <==> q == null
    ensures r != null ==> exists i | 0 <= i < |Seq(t)| && i < |Seq(u)| :: Seq(t)[i] == r && Seq(u)[i] == q
  {
    MirrorsSeq(t, u, w);
    forall k: nat ensures Flip(k, w) == Flip(x, w) <==> k == x {
      FlipXor(k, x, w);
      XorZero(Flip(k, w), Flip(x, w));
      XorZero(k, x);
    }
    hide Flip, Seq, Mirrors;
  }
}
