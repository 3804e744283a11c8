/** Trees on byte keys, as functions: bits increase downwards, keys below a node agree on all bits before
    its bit. Keys are either of one fixed length or terminated by their only zero. */
module EbBytes {
  import opened Bits
  import opened Bytes
  import opened EbTree
  import opened EbSplice
  import opened EbDup
  import opened EbDelete
  import opened EbWalk
  import opened EbScalar

  type Text = seq<nat>

  datatype Kind = Fixed(len: nat) | Terminated

  ghost predicate KeyOk(a: Text, k: Kind) {
    IsBytes(a) && match k
      case Fixed(len) => |a| == len
      case Terminated => a != [] && a[|a| - 1] == 0 && forall i | 0 <= i < |a| - 1 :: a[i] != 0
  }

  ghost function Shortest(a: Text, b: Text): nat {
    if |a| < |b| then 8 * |a| else 8 * |b|
  }

  /** How many leading bits of a and b are the same, up to the shorter of them. */
  ghost function Common(a: Text, b: Text): (r: nat)
    ensures r <= Shortest(a, b) && SameBits(a, b, r)
    ensures r < Shortest(a, b) ==> BitAt(a, r) != BitAt(b, r)
  {
    CommonUpTo(a, b, Shortest(a, b))
  }

  /** Whatever tells how far two keys agree tells the same. */
  lemma CommonIs(a: Text, b: Text, r: nat)
    requires r < Shortest(a, b) && SameBits(a, b, r) && BitAt(a, r) != BitAt(b, r)
    ensures Common(a, b) == r
  {
  }

  lemma CommonAtLeast(a: Text, b: Text, n: nat)
    requires n <= Shortest(a, b)
    ensures Common(a, b) >= n <==> SameBits(a, b, n)
  {
  }

  lemma {:induction false} SameBytes(a: Text, b: Text, i: nat)
    requires IsBytes(a) && IsBytes(b) && i <= |a| && i <= |b|
    ensures SameBits(a, b, 8 * i) <==> a[..i] == b[..i]
  {
    if i > 0 {
      SameBytes(a, b, i - 1);
      SameBitsByte(a, b, i - 1);
      assert a[..i] == a[..i - 1] + [a[i - 1]] && b[..i] == b[..i - 1] + [b[i - 1]];
    } else {
      assert a[..0] == b[..0];
    }
  }

  /** No key is the start of another one. */
  lemma PrefixFree(a: Text, b: Text, k: Kind)
    requires KeyOk(a, k) && KeyOk(b, k) && |a| <= |b| && a == b[..|a|]
    ensures a == b
  {
    if k.Terminated? {
      assert b[|a| - 1] == a[|a| - 1];
    }
    assert b[..|b|] == b;
  }

  /** Different keys differ before the end of either. */
  lemma Differ(a: Text, b: Text, k: Kind)
    requires KeyOk(a, k) && KeyOk(b, k)
    ensures Common(a, b) == Shortest(a, b) <==> a == b
  {
    if Common(a, b) == Shortest(a, b) {
      SameBytes(a, b, Shortest(a, b) / 8);
      assert a[..|a|] == a && b[..|b|] == b;
      if |a| <= |b| {
        PrefixFree(a, b, k);
      } else {
        PrefixFree(b, a, k);
      }
    } else if a == b {
      CommonAtLeast(a, b, Shortest(a, b));
    }
  }

  /** A key does not end where another one, which it agrees with so far, goes on. */
  lemma LongEnough(a: Text, b: Text, k: Kind, n: nat)
    requires KeyOk(a, k) && KeyOk(b, k) && n < 8 * |b| && Common(a, b) >= n
    ensures n < 8 * |a|
  {
    Differ(a, b, k);
  }

  // ---------------------------------------------------------------------------
  // The order of keys

  /** The first bit that differs is lower in a. */
  ghost predicate Less(a: Text, b: Text) {
    Common(a, b) < Shortest(a, b) && BitAt(a, Common(a, b)) < BitAt(b, Common(a, b))
  }

  /** Which is the order of memcmp and of strcmp on unsigned bytes: the first byte that differs is lower. */
  ghost predicate ByteLess(a: Text, b: Text) {
    exists i | 0 <= i < |a| && i < |b| :: a[..i] == b[..i] && a[i] < b[i]
  }

  lemma SwapBits(a: Text, b: Text, n: nat)
    requires n <= 8 * |a| && n <= 8 * |b|
    ensures SameBits(a, b, n) <==> SameBits(b, a, n)
  {
  }

  lemma CommonSwap(a: Text, b: Text)
    ensures Common(a, b) == Common(b, a)
  {
    SwapBits(a, b, Common(a, b));
    if Common(a, b) < Shortest(a, b) {
      CommonIs(b, a, Common(a, b));
    } else {
      CommonAtLeast(b, a, Common(a, b));
    }
  }

  /** Keys are equal or one comes before the other, and not both. */
  lemma OneOrTheOther(a: Text, b: Text, k: Kind)
    requires KeyOk(a, k) && KeyOk(b, k)
    ensures a == b || Less(a, b) || Less(b, a)
    ensures !(Less(a, b) && Less(b, a)) && (a == b ==> !Less(a, b))
  {
    CommonSwap(a, b);
    Differ(a, b, k);
  }

  lemma ByteOrder(x: nat, y: nat)
    requires x < 256 && y < 256 && x != y
    ensures var p := 8 - Fls(Xor(x, y)); 0 <= p < 8 && (x < y <==> BitOf(x, p) < BitOf(y, p))
  {
    FirstDifference(x, y);
    FlsXor(x, y);
    hide Bit, Shr, Xor, Fls;
  }

  lemma DifferAt(a: Text, b: Text, i: nat)
    requires IsBytes(a) && IsBytes(b) && i < |a| && i < |b| && a[..i] == b[..i] && a[i] != b[i]
    ensures Common(a, b) < Shortest(a, b) && (Less(a, b) <==> a[i] < b[i])
  {
    hide Bit, Shr, Xor, Fls, SameStart, SameBits, Common;
    SameBytes(a, b, i);
    FirstDifference(a[i], b[i]);
    ByteOrder(a[i], b[i]);
    var p := 8 - Fls(Xor(a[i], b[i]));
    SameBitsStep(a, b, i, p);
    assert BitAt(a, 8 * i + p) == BitOf(a[i], p) && BitAt(b, 8 * i + p) == BitOf(b[i], p);
    CommonIs(a, b, 8 * i + p);
  }

  lemma LessIsByteLess(a: Text, b: Text)
    requires IsBytes(a) && IsBytes(b)
    ensures Less(a, b) <==> ByteLess(a, b)
  {
    hide Bit, SameStart, SameBits, Less;
    if ByteLess(a, b) {
      var i :| 0 <= i < |a| && i < |b| && a[..i] == b[..i] && a[i] < b[i];
      DifferAt(a, b, i);
    }
    if Common(a, b) < Shortest(a, b) {
      FirstByte(a, b);
      DifferAt(a, b, Common(a, b) / 8);
    }
    LessDiffers(a, b);
  }

  lemma LessDiffers(a: Text, b: Text)
    ensures Less(a, b) ==> Common(a, b) < Shortest(a, b)
  {
  }

  lemma FirstByte(a: Text, b: Text)
    requires IsBytes(a) && IsBytes(b) && Common(a, b) < Shortest(a, b)
    ensures var i := Common(a, b) / 8; i < |a| && i < |b| && a[..i] == b[..i] && a[i] != b[i]
  {
    var c := Common(a, b);
    hide Bit, SameStart, Common;
    assert SameBits(a, b, 8 * (c / 8));
    SameBytes(a, b, c / 8);
  }

  // ---------------------------------------------------------------------------
  // Trees

  type Entry = EbNode<Text>

  ghost function KeyBit(a: Text, i: nat): (b: nat)
    ensures b < 2
  {
    if i < 8 * |a| then BitAt(a, i) else 0
  }

  /** a goes on after n bits, which it shares with b. */
  ghost predicate Agree(a: Text, b: Text, n: nat) {
    n < 8 * |a| && n <= Common(a, b)
  }

  /** Invariant of a linked tree of byte keys. */
  ghost predicate BitTree(t: Tree<Text>, k: Kind) {
    match t
    case Leaf(n) => KeyOk(n.key, k)
    case Inner(n, bit, l, r) =>
      && BitTree(l, k) && BitTree(r, k)
      && if bit < 0 then
           DupShape(t) && forall x | x in Leaves(t) :: x.key == n.key
         else
           && (l.Inner? && l.bit >= 0 ==> l.bit > bit) && (r.Inner? && r.bit >= 0 ==> r.bit > bit)
           && (forall x | x in Leaves(t) :: Agree(x.key, n.key, bit))
           && (forall x | x in Leaves(l) :: KeyBit(x.key, bit) == 0)
           && (forall x | x in Leaves(r) :: KeyBit(x.key, bit) == 1)
  }

  lemma {:induction false} TreeKeys(t: Tree<Text>, k: Kind)
    requires BitTree(t, k)
    ensures forall x | x in Leaves(t) :: KeyOk(x.key, k)
  {
    if t.Inner? {
      TreeKeys(t.l, k);
      TreeKeys(t.r, k);
    }
  }

  lemma AgreeVia(a: Text, b: Text, c: Text, n: nat)
    requires Agree(a, c, n) && Agree(b, c, n)
    ensures Agree(a, b, n)
  {
    CommonAtLeast(a, c, n);
    CommonAtLeast(b, c, n);
    CommonAtLeast(a, b, n);
    forall i | 0 <= i < n ensures BitAt(a, i) == BitAt(b, i) {
      assert BitAt(a, i) == BitAt(c, i);
      assert BitAt(b, i) == BitAt(c, i);
    }
  }

  /** What a longer agreement tells about single bits. */
  lemma AgreeBit(a: Text, b: Text, n: nat, i: nat)
    requires n <= Common(a, b) && i < n
    ensures KeyBit(a, i) == KeyBit(b, i)
  {
    assert SameBits(a, b, Common(a, b));
  }

  lemma AgreeMore(a: Text, b: Text, n: nat)
    requires Agree(a, b, n) && n < 8 * |b| && KeyBit(a, n) == KeyBit(b, n)
    ensures Common(a, b) >= n + 1
  {
  }

  // ---------------------------------------------------------------------------
  // Insertion

  /** x cannot be below t: t holds a single key, or differs from x before the bits it decides on. */
  ghost predicate StopsAbove(t: Tree<Text>, a: Text) {
    t.Leaf? || t.bit < 0 || Common(a, t.n.key) < t.bit
  }

  ghost function NewBit(t: Tree<Text>, a: Text): int {
    if a == t.n.key then -1 else Common(a, t.n.key)
  }

  ghost predicate OnRight(t: Tree<Text>, a: Text) {
    !Less(a, t.n.key)
  }

  ghost predicate ToRight(t: Tree<Text>, a: Text)
    requires t.Inner? && t.bit >= 0
  {
    KeyBit(a, t.bit) == 1
  }

  ghost function Insert(t: Tree<Text>, x: Entry): Tree<Text> {
    if StopsAbove(t, x.key) then
      if t.Inner? && NewBit(t, x.key) == -1 then InsertLast(t, x) else Graft(x, NewBit(t, x.key), t, OnRight(t, x.key))
    else if ToRight(t, x.key) then t.(r := Insert(t.r, x))
    else t.(l := Insert(t.l, x))
  }

  lemma {:induction false} InsertLeaves(t: Tree<Text>, x: Entry)
    ensures Leaves(Insert(t, x)) == Leaves(t) + {x}
  {
    hide Common, Less;
    if StopsAbove(t, x.key) {
      if t.Inner? {
        InsertLastSeq(t, x);
      }
    } else if ToRight(t, x.key) {
      InsertLeaves(t.r, x);
    } else {
      InsertLeaves(t.l, x);
    }
  }

  /** Where the descent goes on, x is long enough and agrees with t. */
  lemma Continues(t: Tree<Text>, a: Text, k: Kind)
    requires BitTree(t, k) && OwnBelow(t) && KeyOk(a, k) && !StopsAbove(t, a)
    ensures t.Inner? && t.bit >= 0 && Agree(a, t.n.key, t.bit) && t.bit < 8 * |t.n.key|
  {
    TopIsLeaf(t);
    TreeKeys(t, k);
    assert Agree(t.n.key, t.n.key, t.bit);
    LongEnough(a, t.n.key, k, t.bit);
  }

  /** Where it stops on a difference, all of t differs from x in the same way. */
  lemma DifferAll(t: Tree<Text>, a: Text, k: Kind)
    requires BitTree(t, k) && OwnBelow(t) && KeyOk(a, k) && StopsAbove(t, a) && a != t.n.key
    ensures var b := Common(a, t.n.key);
      && b < 8 * |a| && KeyBit(a, b) != KeyBit(t.n.key, b) && (t.Inner? && t.bit >= 0 ==> t.bit > b)
      && (OnRight(t, a) <==> KeyBit(a, b) == 1)
      && forall y | y in Leaves(t) :: Agree(y.key, a, b) && KeyBit(y.key, b) == KeyBit(t.n.key, b)
  {
    TopIsLeaf(t);
    TreeKeys(t, k);
    var b := Common(a, t.n.key);
    Differ(a, t.n.key, k);
    CommonSwap(a, t.n.key);
    forall y | y in Leaves(t) ensures Agree(y.key, a, b) && KeyBit(y.key, b) == KeyBit(t.n.key, b) {
      if t.Inner? && t.bit >= 0 {
        AgreeBit(y.key, t.n.key, t.bit, b);
        AgreeVia(y.key, a, t.n.key, b);
      }
    }
  }

  lemma AllEqualTree(t: Tree<Text>, a: Text, k: Kind)
    requires DupShape(t) && KeyOk(a, k) && forall y | y in Leaves(t) :: y.key == a
    ensures BitTree(t, k)
  {
    if t.Inner? {
      AllEqualTree(t.l, a, k);
      AllEqualTree(t.r, a, k);
      SeqLeaves(t.r);
    }
  }

  /** An equal key is only met on a leaf or on a duplicate tree. */
  lemma EqualGoesDown(t: Tree<Text>, a: Text, k: Kind)
    requires BitTree(t, k) && OwnBelow(t) && KeyOk(a, k) && StopsAbove(t, a) && a == t.n.key
    ensures (t.Leaf? || t.bit < 0) && forall y | y in Leaves(t) :: y.key == a
  {
    TopIsLeaf(t);
    Differ(a, t.n.key, k);
    hide Common;
  }

  lemma SameKeyInserted(t: Tree<Text>, x: Entry, k: Kind)
    requires BitTree(t, k) && OwnBelow(t) && KeyOk(x.key, k) && StopsAbove(t, x.key) && x.key == t.n.key
    ensures BitTree(Insert(t, x), k) && Insert(t, x).Inner? && Insert(t, x).bit < 0
  {
    EqualGoesDown(t, x.key, k);
    InsertLeaves(t, x);
    NotLessItself(x.key);
    hide Common, Less;
    var u := Insert(t, x);
    if t.Inner? {
      InsertLastShape(t, x);
    } else {
      assert DupShape(t) && DupShape(Leaf(x)) && First(Leaf(x)) == x;
    }
    AllEqualTree(u, x.key, k);
  }

  lemma NotLessItself(a: Text)
    ensures !Less(a, a)
  {
  }

  lemma GraftTree(t: Tree<Text>, x: Entry, k: Kind)
    requires BitTree(t, k) && OwnBelow(t) && KeyOk(x.key, k) && StopsAbove(t, x.key) && x.key != t.n.key
    ensures BitTree(Graft(x, NewBit(t, x.key), t, OnRight(t, x.key)), k)
  {
    DifferAll(t, x.key, k);
    TopIsLeaf(t);
    CommonAtLeast(x.key, x.key, Common(x.key, t.n.key));
    hide Common, Less;
    assert BitTree(Leaf(x), k) && Leaves(Leaf(x)) == {x};
  }

  /** The bit of a node put above t is below the bit of the node t hangs from. */
  lemma InsertTop(t: Tree<Text>, x: Entry, bit: nat, k: Kind)
    requires BitTree(t, k) && OwnBelow(t) && KeyOk(x.key, k) && (t.Inner? && t.bit >= 0 ==> t.bit > bit)
    requires Common(x.key, t.n.key) > bit
    ensures Insert(t, x).Inner? && (Insert(t, x).bit >= 0 ==> Insert(t, x).bit > bit)
  {
    if StopsAbove(t, x.key) && x.key == t.n.key {
      SameKeyInserted(t, x, k);
    }
  }

  lemma BranchTree(t: Tree<Text>, u: Tree<Text>, x: Entry, k: Kind, right: bool)
    requires t.Inner? && t.bit >= 0 && BitTree(t, k) && BitTree(u, k) && (u.Inner? && u.bit >= 0 ==> u.bit > t.bit)
    requires Leaves(u) <= Leaves(if right then t.r else t.l) + {x} && Agree(x.key, t.n.key, t.bit)
    requires KeyBit(x.key, t.bit) == if right then 1 else 0
    ensures BitTree(if right then t.(r := u) else t.(l := u), k)
  {
  }

  /** On the side it goes to, x agrees one bit further. */
  lemma FurtherDown(t: Tree<Text>, a: Text, k: Kind)
    requires BitTree(t, k) && OwnBelow(t) && KeyOk(a, k) && !StopsAbove(t, a)
    ensures t.Inner? && t.bit >= 0 && Common(a, (if ToRight(t, a) then t.r else t.l).n.key) > t.bit
  {
    Continues(t, a, k);
    var s := if ToRight(t, a) then t.r else t.l;
    TopIsLeaf(s);
    assert Agree(s.n.key, t.n.key, t.bit);
    AgreeVia(a, s.n.key, t.n.key, t.bit);
    AgreeMore(a, s.n.key, t.bit);
  }

  /** Insertion keeps the invariant. */
  lemma {:induction false} InsertTree(t: Tree<Text>, x: Entry, k: Kind)
    requires BitTree(t, k) && OwnBelow(t) && KeyOk(x.key, k)
    ensures BitTree(Insert(t, x), k)
  {
    hide Common, Less, KeyBit, Agree, DupShape;
    if StopsAbove(t, x.key) {
      if x.key == t.n.key {
        SameKeyInserted(t, x, k);
      } else {
        GraftTree(t, x, k);
      }
    } else {
      Continues(t, x.key, k);
      var right := ToRight(t, x.key);
      var s := if right then t.r else t.l;
      FurtherDown(t, x.key, k);
      InsertTree(s, x, k);
      InsertLeaves(s, x);
      InsertTop(s, x, t.bit, k);
      BitsOnly(x.key, t.bit);
      BranchTree(t, Insert(s, x), x, k, right);
    }
  }

  lemma BitsOnly(a: Text, i: nat)
    ensures KeyBit(a, i) == 0 || KeyBit(a, i) == 1
  {
  }

  // ---------------------------------------------------------------------------
  // Walking order

  ghost predicate HasKey(t: Tree<Text>, a: Text) {
    exists y | y in Leaves(t) :: y.key == a
  }

  /** Where the descent stops, the top has the key if any leaf below has it. */
  lemma StopFinds(t: Tree<Text>, a: Text, k: Kind)
    requires BitTree(t, k) && OwnBelow(t) && KeyOk(a, k) && StopsAbove(t, a)
    ensures HasKey(t, a) <==> a == t.n.key
  {
    TopIsLeaf(t);
    if a != t.n.key {
      DifferAll(t, a, k);
      hide Common, Less;
      forall y | y in Leaves(t) ensures y.key != a {
        assert KeyBit(y.key, Common(a, t.n.key)) == KeyBit(t.n.key, Common(a, t.n.key));
      }
    }
  }

  /** Further up, the key can only be on the side the descent takes. */
  lemma SideFinds(t: Tree<Text>, a: Text)
    requires t.Inner? && t.bit >= 0 && !StopsAbove(t, a)
    requires forall y | y in Leaves(t.l) :: KeyBit(y.key, t.bit) == 0
    requires forall y | y in Leaves(t.r) :: KeyBit(y.key, t.bit) == 1
    ensures HasKey(t, a) <==> HasKey(if ToRight(t, a) then t.r else t.l, a)
  {
    hide Common;
  }

  /** Which of two keys comes first is told by the first bit that differs. */
  lemma LessByBit(a: Text, b: Text, i: nat)
    requires Agree(a, b, i) && i < 8 * |b| && KeyBit(a, i) != KeyBit(b, i)
    ensures Less(a, b) <==> KeyBit(a, i) == 0
    ensures Less(b, a) <==> KeyBit(a, i) == 1
  {
    CommonAtLeast(a, b, i);
    CommonIs(a, b, i);
    CommonSwap(a, b);
  }

  ghost predicate NoneAbove(s: seq<Entry>, a: Text) {
    forall i | 0 <= i < |s| :: !Less(a, s[i].key)
  }

  ghost predicate AllAbove(s: seq<Entry>, a: Text) {
    forall i | 0 <= i < |s| :: Less(a, s[i].key)
  }

  ghost predicate Sorted(s: seq<Entry>) {
    forall i, j | 0 <= i < j < |s| :: !Less(s[j].key, s[i].key)
  }

  /** Stable sorted insertion: after every entry whose key is not above. */
  ghost function Placed(s: seq<Entry>, x: Entry): seq<Entry> {
    if s == [] || Less(x.key, s[0].key) then [x] + s else [s[0]] + Placed(s[1..], x)
  }

  lemma {:induction false} PlacedAfter(a: seq<Entry>, s: seq<Entry>, x: Entry)
    requires NoneAbove(a, x.key)
    ensures Placed(a + s, x) == a + Placed(s, x)
  {
    hide Less;
    if a == [] {
      assert a + s == s;
    } else {
      assert (a + s)[1..] == a[1..] + s;
      PlacedAfter(a[1..], s, x);
    }
  }

  lemma {:induction false} PlacedBefore(s: seq<Entry>, b: seq<Entry>, x: Entry)
    requires AllAbove(b, x.key)
    ensures Placed(s + b, x) == Placed(s, x) + b
  {
    hide Less;
    if s == [] {
      assert s + b == b;
    } else {
      assert (s + b)[1..] == s[1..] + b;
      PlacedBefore(s[1..], b, x);
    }
  }

  /** All leaves of t are on one side of x when x stops above t. */
  lemma StopSide(t: Tree<Text>, x: Entry, k: Kind)
    requires BitTree(t, k) && OwnBelow(t) && KeyOk(x.key, k) && StopsAbove(t, x.key)
    ensures if OnRight(t, x.key) then NoneAbove(Seq(t), x.key) else AllAbove(Seq(t), x.key)
  {
    SeqLeaves(t);
    if x.key == t.n.key {
      EqualGoesDown(t, x.key, k);
      NotLessItself(x.key);
    } else {
      DifferAll(t, x.key, k);
      var b := Common(x.key, t.n.key);
      forall y | y in Seq(t) ensures Less(x.key, y.key) <==> !OnRight(t, x.key) {
        assert y in Leaves(t);
        LessByBit(y.key, x.key, b);
      }
    }
    hide Common, Less;
  }

  lemma OtherSide(t: Tree<Text>, x: Entry, k: Kind)
    requires BitTree(t, k) && OwnBelow(t) && KeyOk(x.key, k) && !StopsAbove(t, x.key) && t.Inner? && t.bit >= 0
    ensures if ToRight(t, x.key) then NoneAbove(Seq(t.l), x.key) else AllAbove(Seq(t.r), x.key)
  {
    Continues(t, x.key, k);
    var u := if ToRight(t, x.key) then t.l else t.r;
    SeqLeaves(u);
    BitsOnly(x.key, t.bit);
    forall y | y in Seq(u) ensures Less(x.key, y.key) <==> !ToRight(t, x.key) {
      assert y in Leaves(u);
      assert Agree(y.key, t.n.key, t.bit);
      AgreeVia(y.key, x.key, t.n.key, t.bit);
      LessByBit(y.key, x.key, t.bit);
    }
    hide Common, Less;
  }

  /** Insertion is stable sorted insertion on the walking order. */
  lemma {:induction false} InsertIsPlaced(t: Tree<Text>, x: Entry, k: Kind)
    requires BitTree(t, k) && OwnBelow(t) && KeyOk(x.key, k)
    ensures Seq(Insert(t, x)) == Placed(Seq(t), x)
  {
    hide Common, Less, KeyBit, Agree, DupShape, KeyOk;
    if StopsAbove(t, x.key) {
      StopSide(t, x, k);
      PlacedAfterAll(Seq(t), x);
      NotLessItself(x.key);
      if t.Inner? {
        InsertLastSeq(t, x);
      }
    } else {
      Continues(t, x.key, k);
      OtherSide(t, x, k);
      if ToRight(t, x.key) {
        InsertIsPlaced(t.r, x, k);
        PlacedAfter(Seq(t.l), Seq(t.r), x);
      } else {
        InsertIsPlaced(t.l, x, k);
        PlacedBefore(Seq(t.l), Seq(t.r), x);
      }
    }
  }

  lemma PlacedAfterAll(s: seq<Entry>, x: Entry)
    ensures NoneAbove(s, x.key) ==> Placed(s, x) == s + [x]
    ensures s != [] && AllAbove(s, x.key) ==> Placed(s, x) == [x] + s
  {
    if NoneAbove(s, x.key) {
      PlacedAfter(s, [], x);
      assert s + [] == s;
    }
  }

  lemma {:induction false} TreeSorted(t: Tree<Text>, k: Kind)
    requires BitTree(t, k)
    ensures Sorted(Seq(t))
  {
    hide Common, Less, KeyBit, Agree, DupShape, KeyOk;
    if t.Inner? {
      var s := Seq(t);
      SeqLeaves(t.l);
      SeqLeaves(t.r);
      TreeSorted(t.l, k);
      TreeSorted(t.r, k);
      forall i, j | 0 <= i < j < |s| ensures !Less(s[j].key, s[i].key) {
        if i < |Seq(t.l)| <= j {
          assert s[i] in Leaves(t.l) && s[j] == Seq(t.r)[j - |Seq(t.l)|] && s[j] in Leaves(t.r);
          BranchesOrdered(t, s[i], s[j], k);
        } else if |Seq(t.l)| <= i {
          assert s[i] == Seq(t.r)[i - |Seq(t.l)|] && s[j] == Seq(t.r)[j - |Seq(t.l)|];
        } else {
          assert s[i] == Seq(t.l)[i] && s[j] == Seq(t.l)[j];
        }
      }
    }
  }

  lemma BranchesOrdered(t: Tree<Text>, x: Entry, y: Entry, k: Kind)
    requires BitTree(t, k) && t.Inner? && x in Leaves(t.l) && y in Leaves(t.r)
    ensures !Less(y.key, x.key) && (t.bit >= 0 ==> Less(x.key, y.key))
  {
    if t.bit < 0 {
      NotLessItself(x.key);
    } else {
      assert Agree(x.key, t.n.key, t.bit) && Agree(y.key, t.n.key, t.bit);
      AgreeVia(x.key, y.key, t.n.key, t.bit);
      LessByBit(x.key, y.key, t.bit);
    }
  }

  /** Equal keys sit in the same duplicate tree, so the duplicate and unique walks apply. */
  lemma {:induction false} TreeGrouped(t: Tree<Text>, k: Kind)
    requires BitTree(t, k)
    ensures Grouped(t, Whole)
  {
    if t.Inner? {
      TreeGrouped(t.l, k);
      TreeGrouped(t.r, k);
      if t.bit < 0 {
        assert DupShape(t.l) && DupShape(t.r);
      } else {
        forall x, y | x in Leaves(t.l) && y in Leaves(t.r) ensures Whole(x.key) != Whole(y.key) {
          assert KeyBit(x.key, t.bit) == 0 && KeyBit(y.key, t.bit) == 1;
        }
      }
    }
  }

  // ---------------------------------------------------------------------------
  // Deletion

  /** Dropping one entry from a branch, and naming the node after another entry below it. */
  lemma ThinnedTree(t: Tree<Text>, p: Entry, l: Tree<Text>, r: Tree<Text>, k: Kind)
    requires t.Inner? && t.bit >= 0 && BitTree(t, k) && p in Leaves(t)
    requires BitTree(l, k) && BitTree(r, k) && Leaves(l) <= Leaves(t.l) && Leaves(r) <= Leaves(t.r)
    requires (l.Inner? && l.bit >= 0 ==> l.bit > t.bit) && (r.Inner? && r.bit >= 0 ==> r.bit > t.bit)
    ensures BitTree(Inner(p, t.bit, l, r), k)
  {
    hide Common, KeyBit;
    forall x | x in Leaves(l) + Leaves(r) ensures Agree(x.key, p.key, t.bit) {
      assert x in Leaves(t);
      AgreeVia(x.key, p.key, t.n.key, t.bit);
    }
  }

  /** Deletion keeps the invariant, whatever node is recycled. */
  lemma {:induction false} DeletedTree(t: Tree<Text>, x: Entry, k: Kind)
    requires BitTree(t, k) && Apart(t) && OwnBelow(t) && t.Inner? && x in Leaves(t)
    ensures var u := Deleted(t, x).t;
      && BitTree(u, k)
      && (t.bit < 0 ==> u.Leaf? || u.bit < 0)
      && (u.Inner? && u.bit >= 0 ==> u.bit >= t.bit)
  {
    hide Common, KeyBit, Agree, KeyOk, DupShape;
    DeletedStep(t, x);
    DeletedLeaves(t, x);
    if t.bit < 0 {
      DeletedSingle(t, x, k);
    } else if x in Leaves(t.l) && t.l.Inner? {
      DeletedTree(t.l, x, k);
      DeletedLeaves(t.l, x);
      ThinnedTree(t, if t.n == x then LeafParent(t.l, x) else t.n, Deleted(t.l, x).t, t.r, k);
    } else if x in Leaves(t.r) && t.r.Inner? {
      DeletedTree(t.r, x, k);
      DeletedLeaves(t.r, x);
      ThinnedTree(t, if t.n == x then LeafParent(t.r, x) else t.n, t.l, Deleted(t.r, x).t, k);
    }
  }

  lemma DeletedSingle(t: Tree<Text>, x: Entry, k: Kind)
    requires BitTree(t, k) && Apart(t) && OwnBelow(t) && t.Inner? && t.bit < 0 && x in Leaves(t)
    ensures var u := Deleted(t, x).t; BitTree(u, k) && (u.Leaf? || u.bit < 0)
  {
    hide Common, KeyBit, Agree;
    DeletedDup(t, x);
    DeletedLeaves(t, x);
    TreeKeys(t, k);
    TopIsLeaf(t);
    AllEqualTree(Deleted(t, x).t, t.n.key, k);
  }

  // ---------------------------------------------------------------------------
  // Whole trees

  ghost function Inserted(s: Shape<Text>, x: Entry, unique: bool): Shape<Text> {
    if s.Empty? then Full(Leaf(x))
    else if unique && HasKey(s.t, x.key) then s
    else Full(Insert(s.t, x))
  }

  /** A sequence of entries with unique keys refuses a key it has. */
  ghost predicate Refuses(e: seq<Entry>, a: Text, unique: bool) {
    unique && exists i | 0 <= i < |e| :: e[i].key == a
  }

  lemma PlacedDistinct(s: seq<Entry>, x: Entry)
    requires DistinctKeys(s) && forall i | 0 <= i < |s| :: s[i].key != x.key
    ensures DistinctKeys(Placed(s, x))
    ensures forall y | y in Placed(s, x) :: y == x || y in s
  {
    hide Less;
    if s != [] && !Less(x.key, s[0].key) {
      PlacedDistinct(s[1..], x);
      var p := Placed(s[1..], x);
      forall j | 0 <= j < |p| ensures p[j].key != s[0].key {
        assert p[j] in p;
      }
    }
  }

  lemma HasKeyInSeq(t: Tree<Text>, a: Text)
    ensures HasKey(t, a) <==> exists i | 0 <= i < |Seq(t)| :: Seq(t)[i].key == a
  {
    SeqLeaves(t);
    if HasKey(t, a) {
      var y :| y in Leaves(t) && y.key == a;
      assert y in Seq(t);
    }
    if i: nat :| i < |Seq(t)| && Seq(t)[i].key == a {
      assert Seq(t)[i] in Leaves(t);
    }
  }

  /** What every insertion promises. */
  lemma InsertedKeeps(s: Shape<Text>, x: Entry, unique: bool, k: Kind)
    requires KeyOk(x.key, k) && (s.Full? ==> BitTree(s.t, k) && OwnBelow(s.t))
    requires s.Full? && unique ==> DistinctKeys(Seq(s.t))
    ensures Inserted(s, x, unique).Full? && BitTree(Inserted(s, x, unique).t, k)
    ensures unique ==> DistinctKeys(Seq(Inserted(s, x, unique).t))
    ensures var e := if s.Empty? then [] else Seq(s.t);
      Seq(Inserted(s, x, unique).t) == if Refuses(e, x.key, unique) then e else Placed(e, x)
    ensures s.Full? ==> (Refuses(Seq(s.t), x.key, unique) <==> unique && HasKey(s.t, x.key))
  {
    hide Common, Less, Insert, HasKey;
    if s.Full? {
      HasKeyInSeq(s.t, x.key);
      InsertTree(s.t, x, k);
      InsertIsPlaced(s.t, x, k);
      if unique && !HasKey(s.t, x.key) {
        PlacedDistinct(Seq(s.t), x);
      }
    }
  }

  /** The state of a linked tree of byte keys. */
  ghost predicate Holds(tree: EbTree<Text>, k: Kind)
    reads tree, tree.Objects()
  {
    && tree.Valid()
    && (tree.model.Full? ==> BitTree(tree.model.t, k))
    && (tree.IsUnique() ==> DistinctKeys(tree.Elements()))
  }

  /** Removing an entry leaves the others in order, with distinct keys when they were. */
  lemma RemovedDistinct(e: seq<Entry>, i: nat, unique: bool)
    requires i < |e| && (unique ==> DistinctKeys(e))
    ensures unique ==> DistinctKeys(e[..i] + e[i + 1..])
  {
    var u := e[..i] + e[i + 1..];
    assert forall j | 0 <= j < |u| :: u[j] == e[if j < i then j else j + 1];
  }

  lemma WithoutTree(s: Shape<Text>, x: Entry, k: Kind)
    requires s.Full? ==> BitTree(s.t, k) && Apart(s.t) && OwnBelow(s.t)
    ensures Without(s, x).Full? ==> BitTree(Without(s, x).t, k)
  {
    hide Common, KeyBit, Agree;
    if s.Full? && s.t.Inner? && x in Leaves(s.t) {
      DeletedTree(s.t, x, k);
    }
  }
}
