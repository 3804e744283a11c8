/** Why the search of a string bounds the hint it carries: without the bound, the search of "W" in the tree made
    of "0", "WW", "W" and "S", in this order, answers "S". */
module EbstHint {
  import opened Bits
  import opened Bytes
  import opened EbTree
  import opened EbBytes
  import opened EbWalk
  import opened Ebst

  /** What string_equal_bits computes from byte i on, whatever is known of the bytes before. */
  ghost function EqualFrom(a: Text, b: Text, i: nat): int
    decreases |a| - i
  {
    if i >= |a| || i >= |b| then -1
    else if a[i] != b[i] then 8 * i + 8 - Fls(Xor(a[i], b[i]))
    else if b[i] == 0 then -1
    else EqualFrom(a, b, i + 1)
  }

  /** Where the hint is right this is the place of the first difference. */
  lemma {:induction false} EqualFromIs(a: Text, b: Text, i: nat)
    requires KeyOk(a, Terminated) && KeyOk(b, Terminated) && i < |a| && i < |b| && a[..i] == b[..i]
    ensures EqualFrom(a, b, i) == if a == b then -1 else Common(a, b)
    decreases |a| - i
  {
    hide Common, Xor, Fls;
    if a[i] != b[i] {
      DifferenceAt(a, b, i);
    } else {
      assert a[..i + 1] == a[..i] + [a[i]] && b[..i + 1] == b[..i] + [b[i]];
      if b[i] == 0 {
        assert a[..|a|] == a && b[..|b|] == b;
      } else {
        EqualFromIs(a, b, i + 1);
      }
    }
  }

  /** The walk of __ebst_lookup in a tree of unique keys, with or without bounding the hint by the bit of the node
      just passed. */
  ghost function SearchFrom(t: Tree<Text>, a: Text, bit: int, bounded: bool): EbNode?<Text> {
    if t.Leaf? || t.bit < 0 then if t.n.key == a then First(t) else null
    else
      var e := if bit < 0 then bit else EqualFrom(a, t.n.key, bit / 8);
      if bit >= 0 && 0 <= e < t.bit then null
      else if bit >= 0 && e < 0 then t.n
      else
        var hint := if bit >= 0 && bounded then t.bit else e;
        if KeyBit(a, t.bit) == 1 then SearchFrom(t.r, a, hint, bounded) else SearchFrom(t.l, a, hint, bounded)
  }

  /** From where the hint is right, the comparison gives what Common does. */
  lemma ComparedFrom(c: Ctx<Text>, s: Tree<Text>, bit: nat, t: Tree<Text>, a: Text)
    requires Seeking(c, s, bit, t, a)
    ensures EqualFrom(a, s.n.key, bit / 8) == if a == s.n.key then -1 else Common(a, s.n.key)
  {
    SeekFacts(c, s, bit, t, a);
    hide Common;
    StartFrom(a, s.n.key, bit);
    EqualFromIs(a, s.n.key, bit / 8);
  }

  /** With the bound, the walk finds the entry with the string, exactly when there is one. */
  lemma {:induction false} BoundedFinds(c: Ctx<Text>, s: Tree<Text>, bit: nat, t: Tree<Text>, a: Text)
    requires Seeking(c, s, bit, t, a) && DistinctKeys(Seq(t))
    ensures FirstKey(Seq(t), a, SearchFrom(s, a, bit, true))
    decreases s
  {
    hide Seeking, FirstKey, Common, DistinctKeys, BitAt;
    if s.Leaf? || s.bit < 0 {
      SeekSingle(c, s, bit, t, a);
    } else {
      ComparedFrom(c, s, bit, t, a);
      if a == s.n.key {
        NodeIsLeaf(c, s, bit, t, a);
        SeekFacts(c, s, bit, t, a);
        OnlyOne(t, c, s, s.n);
      } else if Common(a, s.n.key) < s.bit {
        SeekDiffers(c, s, bit, t, a);
      } else {
        SeekGoesOn(c, s, bit, t, a, false);
        if KeyBit(a, s.bit) == 1 {
          BoundedFinds(InRight(c, s.n, s.bit, s.l), s.r, s.bit, t, a);
        } else {
          BoundedFinds(InLeft(c, s.n, s.bit, s.r), s.l, s.bit, t, a);
        }
      }
    }
  }

  lemma OneFirst(e: seq<Entry>, a: Text, r: EbNode?<Text>, r': EbNode?<Text>)
    requires FirstKey(e, a, r) && FirstKey(e, a, r')
    ensures r == r'
  {
  }

  /** So it answers what the lookup in place does. */
  method LookupIsBounded(tree: EbTree<Text>, a: Text) returns (r: EbNode?<Text>)
    requires Holds(tree, Terminated) && tree.IsUnique() && tree.model.Full? && KeyOk(a, Terminated)
    ensures FirstKey(tree.Elements(), a, r) && r == SearchFrom(tree.model.t, a, 0, true)
  {
    r := EbstLookup(tree, a);
    SeekStart(tree.model.t, a);
    BoundedFinds(Top, tree.model.t, 0, tree.model.t, a);
    OneFirst(tree.Elements(), a, r, SearchFrom(tree.model.t, a, 0, true));
  }

  lemma Shifts(x: nat)
    ensures Shr(x, 2) == x / 4 && Shr(x, 3) == x / 8 && Shr(x, 6) == x / 64 && Shr(x, 7) == x / 128
  {
    var x1, x2, x3 := x / 2, x / 2 / 2, x / 2 / 2 / 2;
    assert Shr(x, 2) == Shr(x1, 1) == x2;
    assert Shr(x, 3) == Shr(x1, 2) == Shr(x2, 1) == x3;
    assert Shr(x3, 3) == x3 / 2 / 2 / 2;
    assert Shr(x, 6) == Shr(x1, 5) == Shr(x2, 4) == Shr(x3, 3);
    assert Shr(x3, 4) == Shr(x3 / 2, 3) == x3 / 2 / 2 / 2 / 2;
    assert Shr(x, 7) == Shr(x1, 6) == Shr(x2, 5) == Shr(x3, 4);
  }

  /** Bytes that differ on their bit p for the first time, after i common bytes */
  lemma CommonAt(a: Text, b: Text, i: nat, p: nat)
    requires IsBytes(a) && IsBytes(b) && i < |a| && i < |b| && a[..i] == b[..i] && 0 < p < 8
    requires Shr(a[i], 8 - p) == Shr(b[i], 8 - p) && Shr(a[i], 7 - p) % 2 != Shr(b[i], 7 - p) % 2
    ensures Common(a, b) == 8 * i + p
  {
    hide Shr, SameStart, SameBits, Common;
    SameHighBits(a[i], b[i], 8 - p);
    SameBytes(a, b, i);
    SameBitsStep(a, b, i, p);
    assert BitAt(a, 8 * i + p) == BitOf(a[i], p) && BitAt(b, 8 * i + p) == BitOf(b[i], p);
    CommonIs(a, b, 8 * i + p);
  }

  /** And how that bit orders them. */
  lemma DifferOn(a: Text, b: Text, i: nat, p: nat)
    requires IsBytes(a) && IsBytes(b) && i < |a| && i < |b| && a[..i] == b[..i] && 0 < p < 8
    requires Shr(a[i], 8 - p) == Shr(b[i], 8 - p) && Shr(a[i], 7 - p) % 2 != Shr(b[i], 7 - p) % 2
    ensures Common(a, b) == 8 * i + p && a != b
    ensures Less(a, b) <==> Shr(a[i], 7 - p) % 2 == 0
  {
    CommonAt(a, b, i, p);
    hide Shr, Common;
    assert BitAt(a, 8 * i + p) == BitOf(a[i], p) && BitAt(b, 8 * i + p) == BitOf(b[i], p);
  }

  lemma BitsOne(a: Text)
    requires IsBytes(a) && |a| > 0
    ensures KeyBit(a, 1) == a[0] / 64 % 2 && KeyBit(a, 5) == a[0] / 4 % 2
  {
    Shifts(a[0]);
    hide Shr;
    assert KeyBit(a, 1) == BitOf(a[0], 1) && KeyBit(a, 5) == BitOf(a[0], 5);
  }

  /** The strings "0", "W", "WW" and "S" */
  ghost predicate Strings(zero: Text, w: Text, ww: Text, s: Text) {
    zero == [48, 0] && w == [87, 0] && ww == [87, 87, 0] && s == [83, 0]
  }

  lemma Differences(zero: Text, w: Text, ww: Text, s: Text)
    requires Strings(zero, w, ww, s)
    ensures Common(ww, zero) == 1 && !Less(ww, zero)
    ensures Common(w, ww) == 9 && Less(w, ww)
    ensures Common(s, ww) == 5 && Common(s, w) == 5 && Less(s, w) && Common(w, s) == 5
    ensures KeyBit(w, 1) == KeyBit(s, 1) == KeyBit(w, 5) == 1
  {
    Shifts(48);
    Shifts(87);
    Shifts(83);
    Shifts(0);
    BitsOne(w);
    BitsOne(s);
    hide Shr, Common, Less, KeyBit;
    assert ww[..0] == zero[..0] && w[..1] == ww[..1] && s[..0] == ww[..0] == w[..0];
    DifferOn(ww, zero, 0, 1);
    DifferOn(w, ww, 1, 1);
    DifferOn(s, ww, 0, 5);
    DifferOn(s, w, 0, 5);
    CommonSwap(s, w);
  }

  /** What the four insertions make */
  lemma BuiltTree(zero: Entry, w: Entry, ww: Entry, s: Entry)
    requires Strings(zero.key, w.key, ww.key, s.key)
    ensures Insert(Insert(Insert(Leaf(zero), ww), w), s) ==
      Inner(ww, 1, Leaf(zero), Inner(s, 5, Leaf(s), Inner(w, 9, Leaf(w), Leaf(ww))))
  {
    Differences(zero.key, w.key, ww.key, s.key);
    hide Common, Less, KeyBit;
    assert Insert(Leaf(zero), ww) == Inner(ww, 1, Leaf(zero), Leaf(ww));
    assert Insert(Leaf(ww), w) == Inner(w, 9, Leaf(w), Leaf(ww));
    var t := Inner(w, 9, Leaf(w), Leaf(ww));
    assert Insert(Inner(ww, 1, Leaf(zero), Leaf(ww)), w) == Inner(ww, 1, Leaf(zero), t);
    assert Insert(t, s) == Inner(s, 5, Leaf(s), t);
  }

  lemma Compared(zero: Text, w: Text, ww: Text, s: Text)
    requires Strings(zero, w, ww, s)
    ensures EqualFrom(w, ww, 0) == 9 && EqualFrom(w, s, 0) == 5 && EqualFrom(w, w, 0) == EqualFrom(w, s, 1) == -1
  {
    Differences(zero, w, ww, s);
    hide Common, Less, KeyBit, Xor, Fls;
    assert KeyOk(w, Terminated) && KeyOk(ww, Terminated) && KeyOk(s, Terminated);
    hide KeyOk;
    assert w[..0] == ww[..0] == s[..0];
    EqualFromIs(w, ww, 0);
    EqualFromIs(w, s, 0);
    EqualFromIs(w, w, 0);
  }

  /** "W" is found with the bound; without it the comparison with "S" starts on the second byte, where both strings
      end, and "S" is taken for it. */
  lemma ClampNeeded(zero: Entry, w: Entry, ww: Entry, s: Entry)
    requires Strings(zero.key, w.key, ww.key, s.key)
    ensures var t := Insert(Insert(Insert(Leaf(zero), ww), w), s);
      SearchFrom(t, w.key, 0, true) == w && SearchFrom(t, w.key, 0, false) == s && s.key != w.key
  {
    BuiltTree(zero, w, ww, s);
    Differences(zero.key, w.key, ww.key, s.key);
    Compared(zero.key, w.key, ww.key, s.key);
    hide Common, Less, KeyBit, EqualFrom, Insert;
    var t2 := Inner(w, 9, Leaf(w), Leaf(ww));
    var t1 := Inner(s, 5, Leaf(s), t2);
    assert SearchFrom(t2, w.key, 5, true) == w;
    assert SearchFrom(t1, w.key, 1, true) == w;
    assert SearchFrom(t1, w.key, 9, false) == s;
  }
}
