/** Trees of zero-terminated strings on linked objects. The position of the first difference is carried down
    as a hint, so that no byte is compared twice; a negative hint tells that the whole string was met. */
module Ebst {
  import opened Bits
  import opened Bytes
  import opened EbTree
  import opened EbSplice
  import opened EbDup
  import opened EbWalk
  import opened EbBytes
  import EbScalar
  import EbmbBytes
  import EbmbSearch

  /** string_equal_bits: where the strings first differ, or -1 when they are equal. */
  method StringEqualBits(a: Text, b: Text, ignore: nat) returns (r: int)
    requires KeyOk(a, Terminated) && KeyOk(b, Terminated) && ignore <= Common(a, b) && ignore < Shortest(a, b)
    ensures r == if a == b then -1 else Common(a, b)
  {
    hide Common, Xor, Fls, Shr, Bit;
    var beg := ignore / 8;
    StartFrom(a, b, ignore);
    while true
      invariant beg < |a| && beg < |b| && a[..beg] == b[..beg]
      decreases |a| - beg
    {
      var d := b[beg];
      var c := Xor(a[beg], d);
      XorZero(a[beg], d);
      beg := beg + 1;
      if c != 0 {
        DifferenceAt(a, b, beg - 1);
        return 8 * beg - Fls(c);
      }
      assert a[..beg] == a[..beg - 1] + [a[beg - 1]] && b[..beg] == b[..beg - 1] + [b[beg - 1]];
      if d == 0 {
        assert a[..|a|] == a && b[..|b|] == b;
        return -1;
      }
    }
  }

  lemma StartFrom(a: Text, b: Text, ignore: nat)
    requires IsBytes(a) && IsBytes(b) && ignore <= Common(a, b) && ignore < Shortest(a, b)
    ensures a[..ignore / 8] == b[..ignore / 8]
  {
    CommonAtLeast(a, b, 8 * (ignore / 8));
    SameBytes(a, b, ignore / 8);
  }

  lemma DifferenceAt(a: Text, b: Text, i: nat)
    requires IsBytes(a) && IsBytes(b) && i < |a| && i < |b| && a[..i] == b[..i] && a[i] != b[i]
    ensures Common(a, b) == 8 * i + 8 - Fls(Xor(a[i], b[i]))
  {
    hide Bit, Shr, Xor, Fls, SameStart, SameBits, Common;
    SameBytes(a, b, i);
    FirstDifference(a[i], b[i]);
    var p := 8 - Fls(Xor(a[i], b[i]));
    SameBitsStep(a, b, i, p);
    assert BitAt(a, 8 * i + p) == BitOf(a[i], p) && BitAt(b, 8 * i + p) == BitOf(b[i], p);
    CommonIs(a, b, 8 * i + p);
  }

  // ---------------------------------------------------------------------------
  // The hint of the insertion

  /** Some key below t shares that many bits with x, or is x when the hint is negative. */
  ghost predicate Hint(t: Tree<Text>, a: Text, bit: int) {
    exists w | w in Leaves(t) :: if bit < 0 then w.key == a else bit <= Common(a, w.key)
  }

  /** A hint that does not go beyond the bit of a node is right about its own key. */
  lemma HintAtTop(t: Tree<Text>, a: Text, bit: int)
    requires BitTree(t, Terminated) && OwnBelow(t) && KeyOk(a, Terminated) && Hint(t, a, bit)
    requires t.Inner? && t.bit >= 0 ==> bit <= t.bit
    ensures bit >= 0 ==> bit <= Common(a, t.n.key)
    ensures bit < 0 && (t.Leaf? || t.bit < 0) ==> t.n.key == a
  {
    var w :| w in Leaves(t) && if bit < 0 then w.key == a else bit <= Common(a, w.key);
    if t.Inner? && t.bit >= 0 && bit >= 0 {
      Chain(a, w.key, t.n.key, bit, t.bit);
    }
    hide Common;
  }

  lemma Chain(a: Text, b: Text, c: Text, n: nat, m: nat)
    requires n <= Common(a, b) && Agree(b, c, m) && n <= m
    ensures n <= Common(a, c)
  {
    assert SameBits(a, b, Common(a, b)) && SameBits(b, c, Common(b, c));
    CommonAtLeast(a, c, n);
    hide BitAt;
    assert forall i | 0 <= i < n :: BitAt(a, i) == BitAt(b, i) && BitAt(b, i) == BitAt(c, i);
  }

  /** A hint that goes beyond the bit of a node tells that the node is not where to stop. */
  lemma HintBeyond(t: Tree<Text>, a: Text, bit: int)
    requires BitTree(t, Terminated) && OwnBelow(t) && KeyOk(a, Terminated) && Hint(t, a, bit)
    requires t.Inner? && t.bit >= 0 && (bit < 0 || bit >= t.bit)
    ensures Common(a, t.n.key) >= t.bit
  {
    var w :| w in Leaves(t) && if bit < 0 then w.key == a else bit <= Common(a, w.key);
    if bit < 0 {
      CommonSwap(a, t.n.key);
      assert Agree(w.key, t.n.key, t.bit);
    } else {
      Chain(a, w.key, t.n.key, t.bit, t.bit);
    }
  }

  /** The hint stays right on the side x goes to, without being bounded by the bit of the node passed. */
  lemma HintDown(t: Tree<Text>, a: Text, bit: int)
    requires BitTree(t, Terminated) && OwnBelow(t) && KeyOk(a, Terminated) && !StopsAbove(t, a)
    requires Hint(t, a, bit) && (bit < 0 || (t.Inner? && bit >= t.bit))
    ensures t.Inner? && t.bit >= 0 && Hint(if ToRight(t, a) then t.r else t.l, a, bit)
  {
    Continues(t, a, Terminated);
    FurtherDown(t, a, Terminated);
    var s := if ToRight(t, a) then t.r else t.l;
    EbScalar.TopIsLeaf(s);
    var w :| w in Leaves(t) && if bit < 0 then w.key == a else bit <= Common(a, w.key);
    BitsOnly(a, t.bit);
    if 0 <= bit <= t.bit {
      assert bit <= Common(a, s.n.key);
    } else {
      if bit > t.bit {
        AgreeBit(a, w.key, bit, t.bit);
      }
      hide Common;
      assert w in Leaves(s);
    }
  }

  lemma HintFits(t: Tree<Text>, a: Text, bit: nat)
    requires BitTree(t, Terminated) && OwnBelow(t) && KeyOk(a, Terminated)
    requires bit <= Common(a, t.n.key) && bit < 8 * |a|
    ensures KeyOk(t.n.key, Terminated) && bit < Shortest(a, t.n.key)
  {
    EbScalar.TopIsLeaf(t);
    TreeKeys(t, Terminated);
    CommonSwap(a, t.n.key);
    LongEnough(t.n.key, a, Terminated, bit);
  }

  /** What the comparison with the top of t tells. */
  lemma Verdict(t: Tree<Text>, a: Text, bit: int)
    requires BitTree(t, Terminated) && OwnBelow(t) && KeyOk(a, Terminated)
    requires bit == if a == t.n.key then -1 else Common(a, t.n.key)
    ensures Hint(t, a, bit) && bit < 8 * |a| && bit == NewBit(t, a)
    ensures t.Inner? && t.bit >= 0 ==> (StopsAbove(t, a) <==> 0 <= bit < t.bit)
    ensures t.Leaf? || t.bit < 0 ==> StopsAbove(t, a)
  {
    EbScalar.TopIsLeaf(t);
    TreeKeys(t, Terminated);
    Differ(a, t.n.key, Terminated);
    if t.Inner? && t.bit >= 0 {
      assert Agree(t.n.key, t.n.key, t.bit);
    }
    hide Common;
    assert t.n in Leaves(t) && if bit < 0 then t.n.key == a else bit <= Common(a, t.n.key);
  }

  lemma HintStart(t: Tree<Text>, a: Text)
    requires OwnBelow(t) && KeyOk(a, Terminated)
    ensures Hint(t, a, 0) && 0 < 8 * |a|
  {
    EbScalar.TopIsLeaf(t);
    hide Common;
    assert t.n in Leaves(t) && 0 <= Common(a, t.n.key);
  }

  /** Without a comparison: the hint decides alone. */
  lemma Passes(t: Tree<Text>, a: Text, bit: int)
    requires BitTree(t, Terminated) && OwnBelow(t) && KeyOk(a, Terminated) && Hint(t, a, bit)
    requires t.Inner? && t.bit >= 0 && (bit < 0 || bit >= t.bit)
    ensures !StopsAbove(t, a)
  {
    HintBeyond(t, a, bit);
    hide Common;
  }

  /** A negative hint above a single key */
  lemma Met(t: Tree<Text>, a: Text)
    requires BitTree(t, Terminated) && OwnBelow(t) && KeyOk(a, Terminated) && Hint(t, a, -1)
    requires t.Leaf? || t.bit < 0
    ensures t.n.key == a && StopsAbove(t, a) && NewBit(t, a) == -1
  {
    HintAtTop(t, a, -1);
    hide Common;
  }

  /** The descent of __ebst_insert: bit is where x first differs from what it stops above, or -1. */
  method Descend(x: Entry, top: Entry, ghost m: Mem<Text>, ghost t: Tree<Text>)
    returns (root: Entry, side: bool, troot: Ref<Text>, bit: int, ghost c: Ctx<Text>, ghost s: Tree<Text>)
    requires Represents(m, top, t) && m == Snap(m.Keys) && BitTree(t, Terminated) && KeyOk(x.key, Terminated)
    ensures Plug(c, s) == t && Plug(c, Insert(s, x)) == Insert(t, x)
    ensures StopsAbove(s, x.key) && BitTree(s, Terminated) && OwnBelow(s)
    ensures troot == Down(s) && To(root, side) == Up(c, top)
    ensures HasKey(t, x.key) <==> HasKey(s, x.key)
    ensures bit == if x.key == s.n.key then -1 else Common(x.key, s.n.key)
  {
    hide Represents, Linked, LinkedCtx, BitTree, Agree, HasKey, Leaves, Inners, OwnBelow, KeyOk, Common, Hint, Shortest;
    hide Insert, OnRight, ToRight, StopsAbove;
    root, side, troot := top, LEFT, top.b0;
    bit := 0;
    c, s := Top, t;
    EbmbBytes.DescendStart(m, top, t);
    HintStart(t, x.key);
    while true
      invariant m == Snap(m.Keys)
      invariant Plug(c, s) == t && Plug(c, Insert(s, x)) == Insert(t, x)
      invariant BitTree(s, Terminated) && OwnBelow(s)
      invariant troot == Down(s) && To(root, side) == Up(c, top)
      invariant HasKey(t, x.key) <==> HasKey(s, x.key)
      invariant Hint(s, x.key, bit) && -1 <= bit < 8 * |x.key|
      decreases s
    {
      LinkedAt(m, top, c, s);
      var node := troot.node;
      assert m[node].bit == node.bit;
      if troot.tag == LEAF {
        if bit >= 0 {
          bit := Compare(x, node, bit, s);
        } else {
          Met(s, x.key);
        }
        return;
      }
      var nodeBit := node.bit;
      if bit >= 0 && (bit < nodeBit || nodeBit < 0) {
        bit := Compare(x, node, bit, s);
        if nodeBit < 0 || 0 <= bit < nodeBit {
          return;
        }
      } else if bit < 0 && nodeBit < 0 {
        Met(s, x.key);
        return;
      } else {
        Passes(s, x.key, bit);
      }
      EbmbBytes.DownStep(s, x, Terminated);
      HintDown(s, x.key, bit);
      root := node;
      side := BitAt(x.key, nodeBit) == 1;
      troot := root.Branch(side);
      c := if side then InRight(c, s.n, s.bit, s.l) else InLeft(c, s.n, s.bit, s.r);
      s := if side then s.r else s.l;
    }
  }

  /** The comparison with the key of a node from the hint on */
  method Compare(x: Entry, node: Entry, hint: nat, ghost s: Tree<Text>) returns (bit: int)
    requires BitTree(s, Terminated) && OwnBelow(s) && KeyOk(x.key, Terminated) && s.n == node
    requires Hint(s, x.key, hint) && hint < 8 * |x.key| && (s.Inner? && s.bit >= 0 ==> hint <= s.bit)
    ensures bit == if x.key == node.key then -1 else Common(x.key, node.key)
    ensures Hint(s, x.key, bit) && -1 <= bit < 8 * |x.key| && bit == NewBit(s, x.key)
    ensures s.Inner? && s.bit >= 0 ==> (StopsAbove(s, x.key) <==> 0 <= bit < s.bit)
    ensures s.Leaf? || s.bit < 0 ==> StopsAbove(s, x.key)
  {
    HintAtTop(s, x.key, hint);
    HintFits(s, x.key, hint);
    hide BitTree, KeyOk, Common, Hint, Shortest, StopsAbove;
    bit := StringEqualBits(x.key, node.key, hint);
    Verdict(s, x.key, bit);
  }

  lemma SingleKey(s: Tree<Text>)
    requires BitTree(s, Terminated) && s.Inner? && s.bit < 0
    ensures forall x | x in Leaves(s) :: x.key == s.n.key
  {
  }

  /** __ebst_insert */
  method EbstInsert(tree: EbTree<Text>, x: Entry) returns (r: Entry)
    requires Holds(tree, Terminated) && IsNew(tree, x) && KeyOk(x.key, Terminated)
    modifies tree, tree.Objects(), x
    ensures Holds(tree, Terminated) && tree.IsUnique() == old(tree.IsUnique())
    ensures tree.model == Inserted(old(tree.model), x, tree.IsUnique())
    ensures var e := old(tree.Elements());
      if Refuses(e, x.key, tree.IsUnique()) then r in e && r.key == x.key && tree.Elements() == e
      else r == x && tree.Elements() == Placed(e, x)
  {
    hide Represents, BitTree, Insert, HasKey, Leaves, Inners, Apart, StopsAbove, Linked, Plug, Placed, KeyOk;
    hide DistinctKeys, Common;
    EbmbBytes.Prepare(tree, x, Terminated);
    var rootRight := tree.head.b1;
    if tree.head.b0.Null? {
      InsertFirst(tree, x);
      return x;
    }
    ghost var t, m := tree.model.t, Snap(tree.Objects() + {x});
    var root, side, troot, bit;
    ghost var c, s;
    root, side, troot, bit, c, s := Descend(x, tree.head, m, t);
    if rootRight.tag && s.Inner? && s.bit < 0 {
      SingleKey(s);
      DuplicatesRepeat(c, s);
    }
    EbmbBytes.InsertAtStop(s, x, Terminated);
    r := Conclude(tree, x, root, side, troot, rootRight, bit, c, s);
  }

  method Conclude(tree: EbTree<Text>, x: Entry, root: Entry, side: bool, troot: Ref<Text>, rootRight: Ref<Text>,
                  bit: int, ghost c: Ctx<Text>, ghost s: Tree<Text>) returns (r: Entry)
    requires tree.Valid() && tree.model == Full(Plug(c, s)) && x !in tree.Objects() && x !in Leaves(Plug(c, s))
    requires Represents(Snap(tree.Objects() + {x}), tree.head, Plug(c, s)) && KeyOk(x.key, Terminated)
    requires StopsAbove(s, x.key) && BitTree(s, Terminated) && OwnBelow(s)
    requires troot == Down(s) && To(root, side) == Up(c, tree.head) && rootRight == tree.head.b1
    requires bit == if x.key == s.n.key then -1 else Common(x.key, s.n.key)
    requires rootRight.tag && s.Inner? ==> x.key != s.n.key
    modifies tree, tree.Objects(), x
    ensures tree.Valid() && tree.head.b1.tag == old(tree.head.b1.tag)
    ensures if rootRight.tag && HasKey(s, x.key) then
              tree.model == old(tree.model) && r in Leaves(Plug(c, s)) && r.key == x.key
            else
              tree.model == Full(Plug(c, Insert(s, x))) && r == x
  {
    hide Represents, BitTree, HasKey, Leaves, Inners, StopsAbove, Linked, Plug, OnRight, NewBit, KeyOk, Common;
    hide Insert, CmpBits;
    EbmbBytes.InsertAtStop(s, x, Terminated);
    LinkedAt(Snap(tree.Objects() + {x}), tree.head, c, s);
    var node, diff := troot.node, 0;
    if troot.tag == LEAF {
      x.nodeP := node.leafP;
      if bit < 0 {
        if rootRight.tag {
          return node;
        }
      } else {
        diff := CmpBits(x.key, node.key, bit);
      }
    } else {
      if bit < 0 {
        r := EbInsertDup(tree, node, x, c, s);
        return;
      }
      x.nodeP := node.nodeP;
      diff := CmpBits(x.key, node.key, bit);
    }
    x.bit := bit;
    Attach(tree, x, root, side, troot, diff >= 0, c, s);
    r := x;
  }

  // ---------------------------------------------------------------------------
  // Search

  /** r is the first entry with the key, or null when there is none. */
  ghost predicate FirstKey(e: seq<Entry>, a: Text, r: EbNode?<Text>) {
    if r == null then forall i | 0 <= i < |e| :: e[i].key != a
    else exists i | 0 <= i < |e| :: e[i] == r && r.key == a && forall j | 0 <= j < i :: e[j].key != a
  }

  ghost predicate NoneOutside(c: Ctx<Text>, a: Text) {
    && (forall i | 0 <= i < |Before(c)| :: Before(c)[i].key != a)
    && (forall i | 0 <= i < |After(c)| :: After(c)[i].key != a)
  }

  lemma FirstAt(e: seq<Entry>, i: nat, a: Text)
    requires i < |e| && e[i].key == a && forall j | 0 <= j < i :: e[j].key != a
    ensures FirstKey(e, a, e[i])
  {
  }

  /** All entries of s have the key: the first one answers. */
  lemma FirstHere(t: Tree<Text>, c: Ctx<Text>, s: Tree<Text>, a: Text)
    requires Plug(c, s) == t && NoneOutside(c, a) && First(s).key == a
    ensures FirstKey(Seq(t), a, First(s)) && (s.Inner? ==> First(s.l) == First(s))
  {
    PlugSeq(c, s);
    SeqLeaves(s);
    EbmbSearch.FirstIsLeft(s);
    hide Leaves, Seq, First, Plug, FirstKey;
    var e, i := Before(c) + Seq(s) + After(c), |Before(c)|;
    assert e[i] == Seq(s)[0];
    forall j | 0 <= j < i ensures e[j].key != a {
      assert e[j] == Before(c)[j];
    }
    hide Before, After;
    FirstAt(e, i, a);
  }

  lemma Nowhere(t: Tree<Text>, c: Ctx<Text>, s: Tree<Text>, a: Text)
    requires Plug(c, s) == t && NoneOutside(c, a) && !HasKey(s, a)
    ensures FirstKey(Seq(t), a, null)
  {
    PlugSeq(c, s);
    SeqLeaves(s);
    var e := Seq(t);
    forall i | 0 <= i < |e| ensures e[i].key != a {
      if |Before(c)| <= i < |Before(c)| + |Seq(s)| {
        assert e[i] == Seq(s)[i - |Before(c)|] && e[i] in Leaves(s);
      } else if i >= |Before(c)| {
        assert e[i] == After(c)[i - |Before(c)| - |Seq(s)|];
      }
    }
  }

  /** With distinct keys, any entry with the key is the first. */
  lemma OnlyOne(t: Tree<Text>, c: Ctx<Text>, s: Tree<Text>, y: Entry)
    requires Plug(c, s) == t && y in Leaves(s) && DistinctKeys(Seq(t))
    ensures FirstKey(Seq(t), y.key, y)
  {
    PlugSeq(c, s);
    SeqLeaves(s);
    hide Leaves, Seq, Plug, Before, After, FirstKey;
    var e := Before(c) + Seq(s) + After(c);
    assert y in Seq(s);
    var k: nat :| k < |Seq(s)| && Seq(s)[k] == y;
    assert e[|Before(c)| + k] == y;
    FirstAt(e, |Before(c)| + k, y.key);
  }

  /** The side the string does not go to does not have it. */
  lemma OutsideGrows(c: Ctx<Text>, s: Tree<Text>, a: Text)
    requires BitTree(s, Terminated) && OwnBelow(s) && KeyOk(a, Terminated) && NoneOutside(c, a)
    requires s.Inner? && s.bit >= 0 && !StopsAbove(s, a)
    ensures if ToRight(s, a) then NoneOutside(InRight(c, s.n, s.bit, s.l), a)
      else NoneOutside(InLeft(c, s.n, s.bit, s.r), a)
  {
    var other := if ToRight(s, a) then s.l else s.r;
    BitsOnly(a, s.bit);
    SeqLeaves(other);
    forall i | 0 <= i < |Seq(other)| ensures Seq(other)[i].key != a {
      assert Seq(other)[i] in Leaves(other);
    }
    hide Common;
    assert Before(InRight(c, s.n, s.bit, s.l)) == Before(c) + Seq(s.l);
    assert After(InRight(c, s.n, s.bit, s.l)) == After(c);
    assert Before(InLeft(c, s.n, s.bit, s.r)) == Before(c) && After(InLeft(c, s.n, s.bit, s.r)) == Seq(s.r) + After(c);
  }

  /** The walk is at s. The hint is what the string is known to share with the top of s, or it is negative:
      the string was met, and the walk looks for its first entry. */
  ghost predicate Seeking(c: Ctx<Text>, s: Tree<Text>, bit: int, t: Tree<Text>, a: Text) {
    && Plug(c, s) == t && BitTree(s, Terminated) && OwnBelow(s) && KeyOk(a, Terminated) && NoneOutside(c, a)
    && (if bit < 0 then HasKey(s, a) else bit <= Common(a, s.n.key) && bit < 8 * |a|)
  }

  lemma SeekFacts(c: Ctx<Text>, s: Tree<Text>, bit: int, t: Tree<Text>, a: Text)
    requires Seeking(c, s, bit, t, a)
    ensures Plug(c, s) == t && KeyOk(a, Terminated) && KeyOk(s.n.key, Terminated)
    ensures bit >= 0 ==> bit <= Common(a, s.n.key) && bit < Shortest(a, s.n.key)
  {
    EbScalar.TopIsLeaf(s);
    TreeKeys(s, Terminated);
    if bit >= 0 {
      HintFits(s, a, bit);
    }
    hide Common;
  }

  /** On a leaf or a duplicate tree, its only key decides. */
  lemma SeekSingle(c: Ctx<Text>, s: Tree<Text>, bit: int, t: Tree<Text>, a: Text)
    requires Seeking(c, s, bit, t, a) && (s.Leaf? || s.bit < 0)
    ensures if s.n.key == a then FirstKey(Seq(t), a, First(s)) && (s.Inner? ==> First(s.l) == First(s))
      else FirstKey(Seq(t), a, null)
  {
    SeqLeaves(s);
    if s.n.key == a {
      assert First(s) in Leaves(s);
      FirstHere(t, c, s, a);
    } else {
      Nowhere(t, c, s, a);
    }
    hide Common;
  }

  /** A difference before the bit of the node: the string is nowhere. */
  lemma SeekDiffers(c: Ctx<Text>, s: Tree<Text>, bit: int, t: Tree<Text>, a: Text)
    requires Seeking(c, s, bit, t, a) && s.Inner? && s.bit >= 0 && Common(a, s.n.key) < s.bit && s.n.key != a
    ensures FirstKey(Seq(t), a, null)
  {
    StopFinds(s, a, Terminated);
    Nowhere(t, c, s, a);
    hide Common;
  }

  /** Down on the side of the string: the hint is bounded by the bit of the node, unless the string was met. */
  lemma SeekGoesOn(c: Ctx<Text>, s: Tree<Text>, bit: int, t: Tree<Text>, a: Text, met: bool)
    requires Seeking(c, s, bit, t, a) && s.Inner? && s.bit >= 0
    requires if met then bit < 0 || s.n.key == a else Common(a, s.n.key) >= s.bit
    ensures s.bit < 8 * |a|
    ensures var next := if met then -1 else s.bit;
      if BitAt(a, s.bit) == 1 then Seeking(InRight(c, s.n, s.bit, s.l), s.r, next, t, a)
      else Seeking(InLeft(c, s.n, s.bit, s.r), s.l, next, t, a)
  {
    if met {
      MetGoesOn(s, a, bit);
    }
    Continues(s, a, Terminated);
    FurtherDown(s, a, Terminated);
    OutsideGrows(c, s, a);
    SideFinds(s, a);
    BitsOnly(a, s.bit);
    EbScalar.TopIsLeaf(s);
    hide Common, NoneOutside;
  }

  lemma MetGoesOn(s: Tree<Text>, a: Text, bit: int)
    requires BitTree(s, Terminated) && OwnBelow(s) && KeyOk(a, Terminated) && s.Inner? && s.bit >= 0
    requires (bit < 0 && HasKey(s, a)) || s.n.key == a
    ensures Common(a, s.n.key) >= s.bit && HasKey(s, a)
  {
    EbScalar.TopIsLeaf(s);
    var y :| y in Leaves(s) && y.key == a;
    assert Agree(y.key, s.n.key, s.bit);
    hide Common;
  }

  /** __ebst_lookup: the first entry with the string, exactly when it is present. */
  method EbstLookup(tree: EbTree<Text>, a: Text) returns (r: EbNode?<Text>)
    requires Holds(tree, Terminated) && KeyOk(a, Terminated)
    ensures FirstKey(tree.Elements(), a, r)
  {
    var troot := tree.head.b0;
    if troot.Null? {
      return null;
    }
    SeekStart(tree.model.t, a);
    r := SearchString(troot, a, tree.head.b1.tag, Snap(tree.Objects()), tree.head, tree.model.t);
  }

  lemma SeekStart(t: Tree<Text>, a: Text)
    requires BitTree(t, Terminated) && OwnBelow(t) && KeyOk(a, Terminated)
    ensures Seeking(Top, t, 0, t, a)
  {
    hide Common;
  }

  method SearchString(start: Ref<Text>, a: Text, unique: bool, ghost m: Mem<Text>, ghost head: Entry,
                      ghost t: Tree<Text>)
    returns (r: EbNode?<Text>)
    requires Represents(m, head, t) && m == Snap(m.Keys) && start == Down(t) && Seeking(Top, t, 0, t, a)
    requires unique ==> DistinctKeys(Seq(t))
    ensures FirstKey(Seq(t), a, r)
  {
    hide Represents, Linked, LinkedCtx, BitTree, Inners, OwnBelow, Seeking, FirstKey, Common, KeyOk, Shortest;
    hide DistinctKeys, BitAt;
    var troot, bit := start, 0;
    ghost var c, s := Top, t;
    SeekFacts(c, s, bit, t, a);
    while true
      invariant m == Snap(m.Keys) && Plug(c, s) == t
      invariant troot == Down(s) && Seeking(c, s, bit, t, a)
      decreases s
    {
      LinkedAt(m, head, c, s);
      SeekFacts(c, s, bit, t, a);
      var node := troot.node;
      assert m[node].bit == node.bit && m[node].b0 == node.b0;
      if troot.tag == LEAF {
        SeekSingle(c, s, bit, t, a);
        if node.key == a {
          return node;
        } else {
          return null;
        }
      }
      var nodeBit := node.bit;
      if nodeBit < 0 {
        SeekSingle(c, s, bit, t, a);
        if node.key != a {
          return null;
        }
        r := WalkDown(node.b0, LEFT, m, s.l, To(node, LEFT));
        return;
      }
      ghost var met := bit < 0;
      if bit >= 0 {
        var e := StringEqualBits(a, node.key, bit);
        if e < nodeBit {
          if e >= 0 {
            SeekDiffers(c, s, bit, t, a);
            return null;
          }
          if unique {
            NodeIsLeaf(c, s, bit, t, a);
            OnlyOne(t, c, s, node);
            return node;
          }
          met := true;
        }
        SeekGoesOn(c, s, bit, t, a, met);
        bit := if e < nodeBit then e else nodeBit;
      } else {
        SeekGoesOn(c, s, bit, t, a, met);
      }
      var side := BitAt(a, nodeBit) == 1;
      troot := node.Branch(side);
      c := if side then InRight(c, s.n, s.bit, s.l) else InLeft(c, s.n, s.bit, s.r);
      s := if side then s.r else s.l;
      SeekNegative(c, s, bit, t, a, met);
    }
  }

  lemma NodeIsLeaf(c: Ctx<Text>, s: Tree<Text>, bit: int, t: Tree<Text>, a: Text)
    requires Seeking(c, s, bit, t, a)
    ensures s.n in Leaves(s)
  {
    EbScalar.TopIsLeaf(s);
  }

  /** Any negative hint says the same. */
  lemma SeekNegative(c: Ctx<Text>, s: Tree<Text>, bit: int, t: Tree<Text>, a: Text, met: bool)
    requires if met then bit < 0 && Seeking(c, s, -1, t, a) else Seeking(c, s, bit, t, a)
    ensures Seeking(c, s, bit, t, a) && Plug(c, s) == t
  {
  }
}
