/** The bit of a node is stored in 16 bits, and a negative one marks a duplicate tree: how long keys can be. */
module EbShort {
  import opened EbTree
  import opened EbBytes
  import EbPrefix

  /** No bit of t reads back as a negative one. */
  ghost predicate Short<K(!new)>(t: Tree<K>) {
    t.Inner? ==> t.bit < 0x8000 && Short(t.l) && Short(t.r)
  }

  /** Keys on both sides of a node share exactly what comes before its bit. */
  lemma PartAt(t: Tree<Text>, k: Kind, x: Entry, y: Entry)
    requires BitTree(t, k) && t.Inner? && t.bit >= 0 && x in Leaves(t.l) && y in Leaves(t.r)
    ensures x.key != y.key && Common(x.key, y.key) == t.bit
  {
    assert x in Leaves(t) && y in Leaves(t);
    AgreeVia(x.key, y.key, t.n.key, t.bit);
    assert t.bit < 8 * |x.key| && t.bit < 8 * |y.key|;
    CommonAtLeast(x.key, y.key, t.bit);
    CommonIs(x.key, y.key, t.bit);
  }

  /** No two different keys below t share 32768 bits. */
  ghost predicate PartEarly(t: Tree<Text>) {
    forall x, y | x in Leaves(t) && y in Leaves(t) && x.key != y.key :: Common(x.key, y.key) < 0x8000
  }

  /** All bits of a tree fit if and only if no two different keys of it share 4096 bytes. */
  lemma {:induction false} ShortExactly(t: Tree<Text>, k: Kind)
    requires BitTree(t, k)
    ensures Short(t) <==> PartEarly(t)
  {
    hide Common, Leaves, PartEarly;
    if t.Inner? {
      ShortExactly(t.l, k);
      ShortExactly(t.r, k);
      if t.bit < 0 {
        AllSame(t, k);
      } else {
        PartsAt(t, k);
      }
      hide BitTree;
      SomeLeaves(t);
      SidesPart(t);
    } else {
      OneLeaf(t);
    }
  }

  lemma SomeLeaves(t: Tree<Text>)
    requires t.Inner?
    ensures Leaves(t) == Leaves(t.l) + Leaves(t.r) && Leaves(t.l) != {} && Leaves(t.r) != {}
  {
    SeqLeaves(t.l);
    SeqLeaves(t.r);
  }

  lemma OneLeaf(t: Tree<Text>)
    requires t.Leaf?
    ensures PartEarly(t)
  {
  }

  /** What the two sides and their bit tell about the whole */
  lemma SidesPart(t: Tree<Text>)
    requires t.Inner? && Leaves(t) == Leaves(t.l) + Leaves(t.r) && Leaves(t.l) != {} && Leaves(t.r) != {}
    requires forall x, y | x in Leaves(t.l) && y in Leaves(t.r) ::
      if t.bit < 0 then x.key == y.key
      else x.key != y.key && Common(x.key, y.key) == Common(y.key, x.key) == t.bit
    ensures PartEarly(t) <==> t.bit < 0x8000 && PartEarly(t.l) && PartEarly(t.r)
  {
    hide Common, Leaves;
    if PartEarly(t) && t.bit >= 0 {
      var x :| x in Leaves(t.l);
      var y :| y in Leaves(t.r);
      assert Common(x.key, y.key) == t.bit;
    }
  }

  lemma AllSame(t: Tree<Text>, k: Kind)
    requires BitTree(t, k) && t.Inner? && t.bit < 0
    ensures forall x, y | x in Leaves(t.l) && y in Leaves(t.r) :: x.key == y.key
  {
    forall x, y | x in Leaves(t.l) && y in Leaves(t.r) ensures x.key == y.key {
      assert x in Leaves(t) && y in Leaves(t);
    }
  }

  lemma PartsAt(t: Tree<Text>, k: Kind)
    requires BitTree(t, k) && t.Inner? && t.bit >= 0
    ensures forall x, y | x in Leaves(t.l) && y in Leaves(t.r) ::
      x.key != y.key && Common(x.key, y.key) == Common(y.key, x.key) == t.bit
  {
    forall x, y | x in Leaves(t.l) && y in Leaves(t.r)
      ensures x.key != y.key && Common(x.key, y.key) == Common(y.key, x.key) == t.bit
    {
      PartAt(t, k, x, y);
      CommonSwap(x.key, y.key);
    }
  }

  /** So they do when keys have at most 4096 bytes. */
  lemma ShortKeys(t: Tree<Text>, k: Kind)
    requires BitTree(t, k) && forall x | x in Leaves(t) :: |x.key| <= 4096
    ensures Short(t)
  {
    TreeKeys(t, k);
    forall x, y | x in Leaves(t) && y in Leaves(t) && x.key != y.key ensures Common(x.key, y.key) < 0x8000 {
      Differ(x.key, y.key, k);
      hide Common;
    }
    ShortExactly(t, k);
  }

  /** Half-bits fit when prefixes have at most 2048 bytes. */
  lemma {:induction false} ShortPrefixes(t: Tree<EbPrefix.Prefix>, len: nat)
    requires EbPrefix.Prefixed(t, len) && len <= 2048
    ensures Short(t)
  {
    if t.Inner? {
      ShortPrefixes(t.l, len);
      ShortPrefixes(t.r, len);
    }
  }

  /** The one of two keys that share 4096 bytes is inserted above the other with a bit that does not fit. */
  lemma TooLong(x: Entry, y: Entry, k: Kind)
    requires KeyOk(x.key, k) && KeyOk(y.key, k) && x.key != y.key && x != y && 4096 < |x.key| && 4096 < |y.key|
    requires x.key[..4096] == y.key[..4096]
    ensures BitTree(Insert(Leaf(y), x), k) && !Short(Insert(Leaf(y), x))
  {
    InsertTree(Leaf(y), x, k);
    SameBytes(x.key, y.key, 4096);
    CommonAtLeast(x.key, y.key, 0x8000);
    hide Common;
    assert x in Leaves(Insert(Leaf(y), x)) && y in Leaves(Insert(Leaf(y), x));
    ShortExactly(Insert(Leaf(y), x), k);
  }
}
