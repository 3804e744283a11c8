/** Trees on integer keys, as functions: bits decrease downwards, keys below a node agree on all bits
    above its bit. The same definitions serve unsigned and signed keys of any width. */
module EbScalar {
  import opened Bits
  import opened EbTree
  import opened EbSplice
  import opened EbDup
  import opened EbDelete
  import opened EbWalk

  /** How keys are ordered: as unsigned words, or as two's complement words of w bits. */
  datatype Order = Unsigned | TwosComplement(w: nat)

  /** The unsigned word that stands for a key: a signed key with its sign bit inverted. */
  ghost function Word(k: nat, o: Order): nat {
    if o.TwosComplement? && o.w > 0 then Flip(k, o.w) else k
  }

  ghost function Key(x: EbNode<nat>, o: Order): nat {
    Word(x.key, o)
  }

  /** Key invariant of a linked tree. */
  ghost predicate Radix(t: Tree<nat>, o: Order) {
    match t
    case Leaf(_) => true
    case Inner(n, bit, l, r) =>
      && Radix(l, o) && Radix(r, o)
      && if bit < 0 then
           DupShape(t) && forall x | x in Leaves(t) :: x.key == n.key
         else
           && (l.Inner? ==> l.bit < bit) && (r.Inner? ==> r.bit < bit)
           && (forall x | x in Leaves(l) :: Shr(Key(x, o), bit) == 2 * Shr(Key(n, o), bit + 1))
           && (forall x | x in Leaves(r) :: Shr(Key(x, o), bit) == 2 * Shr(Key(n, o), bit + 1) + 1)
  }

  /** All leaves below a node agree with it above its bit. */
  lemma RadixAgrees(t: Tree<nat>, o: Order, x: EbNode<nat>)
    requires Radix(t, o) && x in Leaves(t)
    ensures t.Leaf? || t.bit < 0 ==> x.key == t.n.key
    ensures t.Inner? && t.bit >= 0 ==> Shr(Key(x, o), t.bit + 1) == Shr(Key(t.n, o), t.bit + 1)
  {
    if t.Inner? && t.bit >= 0 {
      ShrStep(Key(x, o), t.bit);
    }
  }

  // ---------------------------------------------------------------------------
  // Insertion

  /** x cannot be below t: t is a leaf, a duplicate tree, or its keys differ above its bit. */
  ghost predicate StopsAbove(t: Tree<nat>, x: EbNode<nat>) {
    t.Leaf? || t.bit < 0 || Shr(Xor(x.key, t.n.key), t.bit) >= 2
  }

  /** The bit of a node put above t for x. */
  ghost function NewBit(t: Tree<nat>, x: EbNode<nat>): int {
    if x.key == t.n.key then -1 else Fls(Xor(x.key, t.n.key)) - 1
  }

  ghost function Insert(t: Tree<nat>, x: EbNode<nat>, o: Order): Tree<nat> {
    if StopsAbove(t, x) then
      if t.Inner? && x.key == t.n.key then InsertLast(t, x)
      else Graft(x, NewBit(t, x), t, Key(x, o) >= Key(t.n, o))
    else if Bit(Key(x, o), t.bit) == 0 then t.(l := Insert(t.l, x, o))
    else t.(r := Insert(t.r, x, o))
  }

  /** x and y agree on all bits from b up. */
  ghost predicate Agree(x: EbNode<nat>, y: EbNode<nat>, b: nat, o: Order) {
    Shr(Key(x, o), b) == Shr(Key(y, o), b)
  }

  /** Keys differ as their words do, whatever the order. */
  lemma WordXor(k: nat, k': nat, o: Order)
    ensures Xor(Word(k, o), Word(k', o)) == Xor(k, k')
    ensures Word(k, o) == Word(k', o) <==> k == k'
  {
    if o.TwosComplement? && o.w > 0 {
      FlipXor(k, k', o.w);
    }
    XorZero(k, k');
    XorZero(Word(k, o), Word(k', o));
  }

  lemma KeyXor(x: EbNode<nat>, y: EbNode<nat>, o: Order)
    ensures Xor(Key(x, o), Key(y, o)) == Xor(x.key, y.key)
    ensures Key(x, o) == Key(y, o) <==> x.key == y.key
  {
    WordXor(x.key, y.key, o);
  }

  /** What the descent test means. */
  lemma StopMeans(t: Tree<nat>, x: EbNode<nat>, o: Order)
    requires t.Inner? && t.bit >= 0
    ensures StopsAbove(t, x) <==> !Agree(x, t.n, t.bit + 1, o)
  {
    KeyXor(x, t.n, o);
    XorBelowTwo(Key(x, o), Key(t.n, o), t.bit);
  }

  lemma EqualGoesDown(t: Tree<nat>, x: EbNode<nat>)
    requires t.Inner? && StopsAbove(t, x) && x.key == t.n.key
    ensures t.bit < 0
  {
    if t.bit >= 0 {
      XorZero(x.key, t.n.key);
      ShrZero(t.bit);
    }
  }

  /** What the new bit means. */
  lemma NewBitMeans(t: Tree<nat>, x: EbNode<nat>, o: Order)
    requires x.key != t.n.key
    ensures var b := NewBit(t, x);
      && b >= 0 && Agree(x, t.n, b + 1, o)
      && Bit(Key(x, o), b) == (if Key(x, o) > Key(t.n, o) then 1 else 0)
      && Bit(Key(t.n, o), b) == (if Key(x, o) > Key(t.n, o) then 0 else 1)
  {
    KeyXor(x, t.n, o);
    FlsXor(Key(x, o), Key(t.n, o));
  }

  /** The new node fits above t: its bit is above all bits of t, and all keys of t are on the side of
      t.n at that bit. */
  lemma NewBitFits(t: Tree<nat>, x: EbNode<nat>, o: Order)
    requires Radix(t, o) && StopsAbove(t, x) && x.key != t.n.key
    ensures NewBit(t, x) >= 0 && (t.Inner? ==> t.bit < NewBit(t, x))
    ensures forall y | y in Leaves(t) :: Agree(y, t.n, NewBit(t, x), o)
  {
    var b := NewBit(t, x);
    NewBitMeans(t, x, o);
    if t.Inner? && t.bit >= 0 {
      StopMeans(t, x, o);
      if b <= t.bit {
        ShrAgree(Key(x, o), Key(t.n, o), b + 1, t.bit + 1);
      }
    }
    forall y | y in Leaves(t) ensures Agree(y, t.n, b, o) {
      RadixAgrees(t, o, y);
      if t.Inner? && t.bit >= 0 {
        ShrAgree(Key(y, o), Key(t.n, o), t.bit + 1, b);
      }
    }
  }

  lemma GraftRadix(t: Tree<nat>, x: EbNode<nat>, o: Order)
    requires Radix(t, o) && StopsAbove(t, x) && (t.Inner? ==> x.key != t.n.key)
    ensures Radix(Graft(x, NewBit(t, x), t, Key(x, o) >= Key(t.n, o)), o)
  {
    var b := NewBit(t, x);
    KeyXor(x, t.n, o);
    if x.key == t.n.key {
      var g := Graft(x, -1, t, true);
      assert DupShape(t) && DupShape(Leaf(x)) && First(Leaf(x)) == x;
      assert DupShape(g) && Leaves(g) == {t.n, x};
      AllEqualRadix(g, o, x.key);
    } else {
      NewBitMeans(t, x, o);
      NewBitFits(t, x, o);
      SpanRadix(t, x, o, b, Key(x, o) > Key(t.n, o));
    }
  }

  lemma SpanRadix(t: Tree<nat>, x: EbNode<nat>, o: Order, b: nat, right: bool)
    requires Radix(t, o) && (t.Inner? ==> t.bit < b) && forall y | y in Leaves(t) :: Agree(y, t.n, b, o)
    requires Agree(x, t.n, b + 1, o)
    requires Bit(Key(x, o), b) == (if right then 1 else 0) && Bit(Key(t.n, o), b) == if right then 0 else 1
    ensures Radix(Graft(x, b, t, right), o)
  {
    ShrSplit(Key(x, o), b);
    ShrSplit(Key(t.n, o), b);
    var g := Graft(x, b, t, right);
    forall y | y in Leaves(t) ensures Shr(Key(y, o), b) == 2 * Shr(Key(x, o), b + 1) + if right then 0 else 1 {
      assert Agree(y, t.n, b, o);
    }
    assert Radix(Leaf(x), o) && Leaves(Leaf(x)) == {x};
  }

  /** A tree none of whose keys leaves the range an outer branch stands for keeps its bits below. */
  lemma {:induction false} InsertTop(t: Tree<nat>, x: EbNode<nat>, o: Order, b: nat)
    requires Radix(t, o) && Agree(x, t.n, b, o) && (t.Inner? ==> t.bit < b)
    ensures Insert(t, x, o).Inner? && Insert(t, x, o).bit < b
  {
    if StopsAbove(t, x) && x.key != t.n.key {
      NewBitMeans(t, x, o);
      if b <= NewBit(t, x) {
        ShrAgree(Key(x, o), Key(t.n, o), b, NewBit(t, x));
      }
    } else if StopsAbove(t, x) && t.Inner? {
      EqualGoesDown(t, x);
      InsertLastShape(t, x);
    }
  }

  lemma {:induction false} InsertLeaves(t: Tree<nat>, x: EbNode<nat>, o: Order)
    ensures Leaves(Insert(t, x, o)) == Leaves(t) + {x}
  {
    if StopsAbove(t, x) {
      if t.Inner? {
        InsertLastSeq(t, x);
      }
    } else if Bit(Key(x, o), t.bit) == 0 {
      InsertLeaves(t.l, x, o);
    } else {
      InsertLeaves(t.r, x, o);
    }
  }

  /** Where x goes below a node it agrees with. */
  lemma Side(t: Tree<nat>, x: EbNode<nat>, o: Order)
    requires t.Inner? && Radix(t, o) && !StopsAbove(t, x)
    ensures t.bit >= 0 && Shr(Key(x, o), t.bit) == 2 * Shr(Key(t.n, o), t.bit + 1) + Bit(Key(x, o), t.bit)
  {
    StopMeans(t, x, o);
    ShrSplit(Key(x, o), t.bit);
  }

  /** Replacing a branch by one with an extra leaf that belongs there. */
  lemma BranchRadix(t: Tree<nat>, s: Tree<nat>, x: EbNode<nat>, o: Order, right: bool)
    requires t.Inner? && t.bit >= 0 && Radix(t, o) && Radix(s, o) && (s.Inner? ==> s.bit < t.bit)
    requires Leaves(s) <= Leaves(if right then t.r else t.l) + {x}
    requires Shr(Key(x, o), t.bit) == 2 * Shr(Key(t.n, o), t.bit + 1) + if right then 1 else 0
    ensures Radix(if right then t.(r := s) else t.(l := s), o)
  {
  }

  /** Insertion keeps the key invariant. */
  lemma {:induction false} InsertRadix(t: Tree<nat>, x: EbNode<nat>, o: Order)
    requires Radix(t, o) && OwnBelow(t)
    ensures Radix(Insert(t, x, o), o)
  {
    if StopsAbove(t, x) {
      if t.Inner? && x.key == t.n.key {
        EqualGoesDown(t, x);
        InsertLastRadix(t, x, o);
      } else {
        GraftRadix(t, x, o);
      }
    } else {
      Side(t, x, o);
      var right := Bit(Key(x, o), t.bit) != 0;
      var s := if right then t.r else t.l;
      TopIsLeaf(s);
      InsertRadix(s, x, o);
      InsertLeaves(s, x, o);
      InsertTop(s, x, o, t.bit);
      BranchRadix(t, Insert(s, x, o), x, o, right);
    }
  }

  lemma TopIsLeaf<K>(t: Tree<K>)
    requires OwnBelow(t)
    ensures t.n in Leaves(t)
  {
  }

  lemma {:induction false} InsertLastRadix(t: Tree<nat>, x: EbNode<nat>, o: Order)
    requires Radix(t, o) && t.Inner? && t.bit < 0 && x.key == t.n.key
    ensures Radix(InsertLast(t, x), o)
  {
    InsertLastShape(t, x);
    InsertLastSeq(t, x);
    AllEqualRadix(InsertLast(t, x), o, x.key);
  }

  lemma {:induction false} AllEqualRadix(t: Tree<nat>, o: Order, k: nat)
    requires DupShape(t) && forall x | x in Leaves(t) :: x.key == k
    ensures Radix(t, o)
  {
    if t.Inner? {
      AllEqualRadix(t.l, o, k);
      AllEqualRadix(t.r, o, k);
      SeqLeaves(t.r);
    }
  }

  // ---------------------------------------------------------------------------
  // Walking order

  ghost predicate Sorted(s: seq<EbNode<nat>>, o: Order) {
    forall i, j | 0 <= i < j < |s| :: Key(s[i], o) <= Key(s[j], o)
  }

  ghost predicate AllAtMost(s: seq<EbNode<nat>>, k: nat, o: Order) {
    forall i | 0 <= i < |s| :: Key(s[i], o) <= k
  }

  ghost predicate AllAbove(s: seq<EbNode<nat>>, k: nat, o: Order) {
    forall i | 0 <= i < |s| :: Key(s[i], o) > k
  }

  /** All keys of the left branch are below all keys of the right branch. */
  lemma BranchesOrdered(t: Tree<nat>, o: Order, x: EbNode<nat>, y: EbNode<nat>)
    requires Radix(t, o) && t.Inner? && t.bit >= 0 && x in Leaves(t.l) && y in Leaves(t.r)
    ensures Key(x, o) < Key(y, o)
  {
    if Key(y, o) <= Key(x, o) {
      ShrMonotone(Key(y, o), Key(x, o), t.bit);
    }
  }

  lemma {:induction false} RadixSorted(t: Tree<nat>, o: Order)
    requires Radix(t, o)
    ensures Sorted(Seq(t), o)
  {
    if t.Inner? {
      var s := Seq(t);
      SeqLeaves(t.l);
      SeqLeaves(t.r);
      RadixSorted(t.l, o);
      RadixSorted(t.r, o);
      forall i, j | 0 <= i < j < |s| ensures Key(s[i], o) <= Key(s[j], o) {
        if i < |Seq(t.l)| <= j {
          assert s[i] in Leaves(t.l) && s[j] == Seq(t.r)[j - |Seq(t.l)|] && s[j] in Leaves(t.r);
          if t.bit >= 0 {
            BranchesOrdered(t, o, s[i], s[j]);
          }
        } else if |Seq(t.l)| <= i {
          assert s[i] == Seq(t.r)[i - |Seq(t.l)|] && s[j] == Seq(t.r)[j - |Seq(t.l)|];
        } else {
          assert s[i] == Seq(t.l)[i] && s[j] == Seq(t.l)[j];
        }
      }
    }
  }

  /** Stable sorted insertion: after every entry whose key is not above. */
  ghost function Placed(s: seq<EbNode<nat>>, x: EbNode<nat>, o: Order): seq<EbNode<nat>> {
    if s == [] || Key(s[0], o) > Key(x, o) then [x] + s else [s[0]] + Placed(s[1..], x, o)
  }

  lemma {:induction false} PlacedAfter(a: seq<EbNode<nat>>, s: seq<EbNode<nat>>, x: EbNode<nat>, o: Order)
    requires AllAtMost(a, Key(x, o), o)
    ensures Placed(a + s, x, o) == a + Placed(s, x, o)
  {
    if a == [] {
      assert a + s == s;
    } else {
      assert (a + s)[1..] == a[1..] + s;
      PlacedAfter(a[1..], s, x, o);
    }
  }

  lemma {:induction false} PlacedBefore(s: seq<EbNode<nat>>, b: seq<EbNode<nat>>, x: EbNode<nat>, o: Order)
    requires AllAbove(b, Key(x, o), o)
    ensures Placed(s + b, x, o) == Placed(s, x, o) + b
  {
    if s == [] {
      assert s + b == b;
    } else {
      assert (s + b)[1..] == s[1..] + b;
      PlacedBefore(s[1..], b, x, o);
    }
  }

  /** All leaves of t are on one side of x when x stops above t. */
  lemma StopSide(t: Tree<nat>, x: EbNode<nat>, o: Order)
    requires Radix(t, o) && StopsAbove(t, x)
    ensures Key(x, o) >= Key(t.n, o) ==> AllAtMost(Seq(t), Key(x, o), o)
    ensures Key(x, o) < Key(t.n, o) ==> AllAbove(Seq(t), Key(x, o), o)
  {
    SeqLeaves(t);
    KeyXor(x, t.n, o);
    if x.key == t.n.key {
      if t.Inner? {
        EqualGoesDown(t, x);
      }
      forall y | y in Seq(t) ensures Key(y, o) == Key(x, o) {
        assert y in Leaves(t);
        RadixAgrees(t, o, y);
      }
    } else {
      NewBitMeans(t, x, o);
      NewBitFits(t, x, o);
      var b := NewBit(t, x);
      ShrSplit(Key(x, o), b);
      ShrSplit(Key(t.n, o), b);
      forall y | y in Seq(t) ensures Key(y, o) < Key(x, o) <==> Key(t.n, o) < Key(x, o) {
        assert y in Leaves(t) && Agree(y, t.n, b, o);
        if Key(y, o) < Key(x, o) {
          ShrMonotone(Key(y, o), Key(x, o), b);
        } else {
          ShrMonotone(Key(x, o), Key(y, o), b);
        }
      }
      forall y | y in Seq(t) ensures Key(y, o) != Key(x, o) {
        assert y in Leaves(t) && Agree(y, t.n, b, o);
      }
    }
  }

  lemma RightAbove(t: Tree<nat>, x: EbNode<nat>, o: Order)
    requires Radix(t, o) && t.Inner? && t.bit >= 0 && Shr(Key(x, o), t.bit) == 2 * Shr(Key(t.n, o), t.bit + 1)
    ensures AllAbove(Seq(t.r), Key(x, o), o)
  {
    SeqLeaves(t.r);
    forall y | y in Seq(t.r) ensures Key(y, o) > Key(x, o) {
      assert y in Leaves(t.r);
      if Key(y, o) <= Key(x, o) {
        ShrMonotone(Key(y, o), Key(x, o), t.bit);
      }
    }
  }

  lemma LeftBelow(t: Tree<nat>, x: EbNode<nat>, o: Order)
    requires Radix(t, o) && t.Inner? && t.bit >= 0 && Shr(Key(x, o), t.bit) == 2 * Shr(Key(t.n, o), t.bit + 1) + 1
    ensures forall i | 0 <= i < |Seq(t.l)| :: Key(Seq(t.l)[i], o) < Key(x, o)
  {
    SeqLeaves(t.l);
    forall y | y in Seq(t.l) ensures Key(y, o) < Key(x, o) {
      assert y in Leaves(t.l);
      if Key(x, o) <= Key(y, o) {
        ShrMonotone(Key(x, o), Key(y, o), t.bit);
      }
    }
  }

  lemma StopIsPlaced(t: Tree<nat>, x: EbNode<nat>, o: Order)
    requires Radix(t, o) && StopsAbove(t, x)
    ensures Seq(Insert(t, x, o)) == Placed(Seq(t), x, o)
  {
    StopSide(t, x, o);
    KeyXor(x, t.n, o);
    if Key(x, o) >= Key(t.n, o) {
      PlacedAfter(Seq(t), [], x, o);
      assert Seq(t) + [] == Seq(t);
    }
    if t.Inner? && x.key == t.n.key {
      InsertLastSeq(t, x);
    }
  }

  /** Insertion is stable sorted insertion on the walking order. */
  lemma {:induction false} InsertIsPlaced(t: Tree<nat>, x: EbNode<nat>, o: Order)
    requires Radix(t, o)
    ensures Seq(Insert(t, x, o)) == Placed(Seq(t), x, o)
  {
    if StopsAbove(t, x) {
      StopIsPlaced(t, x, o);
    } else {
      Side(t, x, o);
      if Bit(Key(x, o), t.bit) == 0 {
        InsertIsPlaced(t.l, x, o);
        RightAbove(t, x, o);
        PlacedBefore(Seq(t.l), Seq(t.r), x, o);
      } else {
        InsertIsPlaced(t.r, x, o);
        LeftBelow(t, x, o);
        PlacedAfter(Seq(t.l), Seq(t.r), x, o);
      }
    }
  }

  /** Equal keys are grouped, so the duplicate and unique walks apply. */
  lemma {:induction false} RadixGrouped(t: Tree<nat>, o: Order)
    requires Radix(t, o)
    ensures Grouped(t, Whole)
  {
    if t.Inner? {
      RadixGrouped(t.l, o);
      RadixGrouped(t.r, o);
      if t.bit < 0 {
        assert DupShape(t.l) && DupShape(t.r);
      } else {
        forall x, y | x in Leaves(t.l) && y in Leaves(t.r) ensures Whole(x.key) != Whole(y.key) {
          BranchesOrdered(t, o, x, y);
          KeyXor(x, y, o);
        }
      }
    }
  }

  /** An entry whose node part is unused below t is the first of its key there. */
  lemma {:induction false} FirstOfKey(t: Tree<nat>, y: EbNode<nat>, o: Order)
    returns (a: seq<EbNode<nat>>, b: seq<EbNode<nat>>)
    requires Radix(t, o) && Apart(t) && y in Leaves(t) && y !in Inners(t)
    ensures Seq(t) == a + [y] + b
    ensures forall i | 0 <= i < |a| :: a[i].key != y.key
  {
    if t.Leaf? {
      a, b := [], [];
    } else if t.bit < 0 {
      DupNodeParts(t);
      SeqLeaves(t);
      a, b := [], Seq(t)[1..];
    } else if y in Leaves(t.l) {
      a, b := FirstOfKey(t.l, y, o);
      assert a + [y] + b + Seq(t.r) == a + [y] + (b + Seq(t.r));
      b := b + Seq(t.r);
    } else {
      a, b := FirstOfKey(t.r, y, o);
      SeqLeaves(t.l);
      forall z | z in Seq(t.l) ensures z.key != y.key {
        assert z in Leaves(t.l);
        BranchesOrdered(t, o, z, y);
        KeyXor(z, y, o);
      }
      assert Seq(t.l) + (a + [y] + b) == (Seq(t.l) + a) + [y] + b;
      a := Seq(t.l) + a;
    }
  }

  // ---------------------------------------------------------------------------
  // Deletion

  lemma {:induction false} FirstParent<K>(t: Tree<K>, x: EbNode<K>)
    requires DupShape(t) && Apart(t) && t.Inner? && x == First(t)
    ensures x in Leaves(t) && First(Remove(t, x)) == LeafParent(t, x)
  {
    SeqLeaves(t.l);
    if t.l.Inner? {
      FirstParent(t.l, x);
    }
  }

  lemma {:induction false} FirstKept<K>(t: Tree<K>, x: EbNode<K>)
    requires Apart(t) && t.Inner? && x in Leaves(t) && x != First(t)
    ensures First(Remove(t, x)) == First(t)
  {
    SeqLeaves(t.l);
    if x in Leaves(t.l) && t.l.Inner? {
      FirstKept(t.l, x);
    }
  }

  lemma {:induction false} RenameFirst<K>(t: Tree<K>, x: EbNode<K>, p: EbNode<K>)
    ensures First(Rename(t, x, p)) == First(t)
  {
    if t.Inner? {
      RenameFirst(t.l, x, p);
    }
  }

  /** Deletion keeps the shape of a duplicate tree, and its bits only rise. */
  lemma {:induction false} DeletedDup<K>(t: Tree<K>, x: EbNode<K>)
    requires DupShape(t) && Apart(t) && OwnBelow(t) && t.Inner? && x in Leaves(t)
    ensures DupShape(Deleted(t, x).t)
    ensures Deleted(t, x).t.Inner? ==> t.bit <= Deleted(t, x).t.bit < 0
  {
    DeletedStep(t, x);
    SeqLeaves(t.l);
    SeqLeaves(t.r);
    if x in Leaves(t.l) && t.l.Inner? {
      DeletedDup(t.l, x);
    } else if x in Leaves(t.r) && t.r.Inner? {
      DeletedDup(t.r, x);
      RenameFirst(Remove(t.r, x), x, LeafParent(t.r, x));
      if x == First(t.r) {
        FirstParent(t.r, x);
      } else {
        FirstKept(t.r, x);
      }
    }
  }

  /** Deletion keeps the key invariant, whatever node is recycled. */
  lemma {:induction false} DeletedRadix(t: Tree<nat>, x: EbNode<nat>, o: Order)
    requires Radix(t, o) && Apart(t) && OwnBelow(t) && t.Inner? && x in Leaves(t)
    ensures Radix(Deleted(t, x).t, o)
    ensures Deleted(t, x).t.Inner? ==> Deleted(t, x).t.bit < 0 || Deleted(t, x).t.bit <= t.bit
  {
    DeletedStep(t, x);
    DeletedLeaves(t, x);
    if t.bit < 0 {
      DeletedDup(t, x);
      AllEqualRadix(Deleted(t, x).t, o, t.n.key);
    } else if x in Leaves(t.l) && t.l.Inner? {
      DeletedRadix(t.l, x, o);
      DeletedLeaves(t.l, x);
      RadixAgrees(t, o, LeafParent(t.l, x));
    } else if x in Leaves(t.r) && t.r.Inner? {
      DeletedRadix(t.r, x, o);
      DeletedLeaves(t.r, x);
      RadixAgrees(t, o, LeafParent(t.r, x));
    }
  }

  // ---------------------------------------------------------------------------
  // Whole trees

  ghost predicate HasKey(t: Tree<nat>, k: nat) {
    exists y | y in Leaves(t) :: y.key == k
  }

  /** A tree of unique keys refuses a key it has; any other insertion goes through. */
  ghost function Inserted(s: Shape<nat>, x: EbNode<nat>, o: Order, unique: bool): Shape<nat> {
    if s.Empty? then Full(Leaf(x))
    else if unique && HasKey(s.t, x.key) then s
    else Full(Insert(s.t, x, o))
  }

  /** The state of a linked tree of integers. */
  ghost predicate Holds(tree: EbTree<nat>, o: Order)
    reads tree, tree.Objects()
  {
    && tree.Valid()
    && (tree.model.Full? ==> Radix(tree.model.t, o))
    && (tree.IsUnique() ==> DistinctKeys(tree.Elements()))
  }

  /** A sequence of entries with unique keys refuses a key it has. */
  ghost predicate Refuses(e: seq<EbNode<nat>>, k: nat, unique: bool) {
    unique && exists y | y in e :: y.key == k
  }

  /** An entry with a new key keeps keys distinct. */
  lemma PlacedDistinct(s: seq<EbNode<nat>>, x: EbNode<nat>, o: Order)
    requires DistinctKeys(s) && forall i | 0 <= i < |s| :: s[i].key != x.key
    ensures DistinctKeys(Placed(s, x, o))
    ensures forall y | y in Placed(s, x, o) :: y == x || y in s
  {
    if s != [] && Key(s[0], o) <= Key(x, o) {
      PlacedDistinct(s[1..], x, o);
      var p := Placed(s[1..], x, o);
      forall j | 0 <= j < |p| ensures p[j].key != s[0].key {
        assert p[j] in p;
      }
    }
  }

  /** What every insertion promises. */
  lemma InsertedKeeps(s: Shape<nat>, x: EbNode<nat>, o: Order, unique: bool)
    requires s.Full? ==> Radix(s.t, o) && OwnBelow(s.t)
    requires s.Full? && unique ==> DistinctKeys(Seq(s.t))
    ensures Inserted(s, x, o, unique).Full?
    ensures var t' := Inserted(s, x, o, unique).t;
      && Radix(t', o) && (unique ==> DistinctKeys(Seq(t')))
      && Seq(t') == (if s.Empty? then [x]
                     else if unique && HasKey(s.t, x.key) then Seq(s.t)
                     else Placed(Seq(s.t), x, o))
  {
    if s.Full? {
      SeqLeaves(s.t);
      InsertRadix(s.t, x, o);
      InsertIsPlaced(s.t, x, o);
      if unique && !HasKey(s.t, x.key) {
        assert forall i | 0 <= i < |Seq(s.t)| :: Seq(s.t)[i] in Leaves(s.t);
        PlacedDistinct(Seq(s.t), x, o);
      }
    }
  }

  /** Where the descent stops, the top of the tree has the key if any leaf below has it. */
  lemma StopFinds(t: Tree<nat>, x: EbNode<nat>, o: Order)
    requires Radix(t, o) && OwnBelow(t) && StopsAbove(t, x)
    ensures HasKey(t, x.key) <==> t.n.key == x.key
  {
    TopIsLeaf(t);
    if HasKey(t, x.key) {
      var y :| y in Leaves(t) && y.key == x.key;
      RadixAgrees(t, o, y);
      if t.Inner? && t.bit >= 0 {
        KeyXor(x, y, o);
        StopMeans(t, x, o);
      }
    }
  }

  /** Further up, the key can only be on the side the descent takes. */
  lemma SideFinds(t: Tree<nat>, x: EbNode<nat>, o: Order)
    requires Radix(t, o) && t.Inner? && !StopsAbove(t, x)
    ensures t.bit >= 0
    ensures HasKey(t, x.key) <==> HasKey(if Bit(Key(x, o), t.bit) == 0 then t.l else t.r, x.key)
  {
    Side(t, x, o);
    forall y | y in Leaves(if Bit(Key(x, o), t.bit) == 0 then t.r else t.l) ensures y.key != x.key {
      KeyXor(x, y, o);
    }
  }
}
