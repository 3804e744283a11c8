/** Insertion of integer keys on linked objects: unsigned and signed 32-bit keys, and 64-bit keys. */
module Eb32 {
  import opened Bits
  import opened EbTree
  import opened EbSplice
  import opened EbDup
  import opened EbDelete
  import opened EbScalar
  import opened EbWalk

  /** The descent shared by the insertions: stops above a leaf, above a duplicate tree, or above a node
      whose key differs from x above its bit. newkey is the key as it directs the descent. */
  method Descend(x: EbNode<nat>, newkey: nat, top: EbNode<nat>, ghost m: Mem<nat>, ghost t: Tree<nat>, ghost o: Order)
    returns (root: EbNode<nat>, side: bool, troot: Ref<nat>, ghost c: Ctx<nat>, ghost s: Tree<nat>)
    requires Represents(m, top, t) && m == Snap(m.Keys) && Radix(t, o) && newkey == Key(x, o)
    ensures Plug(c, s) == t && Plug(c, Insert(s, x, o)) == Insert(t, x, o)
    ensures StopsAbove(s, x) && Radix(s, o) && OwnBelow(s)
    ensures troot == Down(s) && To(root, side) == Up(c, top)
    ensures HasKey(t, x.key) <==> HasKey(s, x.key)
  {
    root, side, troot := top, LEFT, top.b0;
    c, s := Top, t;
    while true
      invariant m == Snap(m.Keys)
      invariant Plug(c, s) == t && Plug(c, Insert(s, x, o)) == Insert(t, x, o)
      invariant Radix(s, o) && OwnBelow(s)
      invariant troot == Down(s) && To(root, side) == Up(c, top)
      invariant HasKey(t, x.key) <==> HasKey(s, x.key)
      decreases s
    {
      LinkedAt(m, top, c, s);
      if troot.tag == LEAF {
        return;
      }
      var node := troot.node;
      assert m[node].bit == node.bit;
      var nodeBit := node.bit;
      if nodeBit < 0 || Shr(Xor(x.key, node.key), nodeBit) >= 2 {
        return;
      }
      SideFinds(s, x, o);
      root := node;
      side := Shr(newkey, nodeBit) % 2 == 1;
      troot := root.Branch(side);
      c := if side then InRight(c, s.n, s.bit, s.l) else InLeft(c, s.n, s.bit, s.r);
      s := if side then s.r else s.l;
    }
  }

  /** What insertions need to know before they start. */
  lemma Prepare(tree: EbTree<nat>, x: EbNode<nat>, o: Order)
    requires Holds(tree, o) && IsNew(tree, x)
    ensures tree.head.b0.Null? <==> tree.model.Empty?
    ensures x !in tree.Objects()
    ensures Inserted(tree.model, x, o, tree.IsUnique()).Full?
    ensures Radix(Inserted(tree.model, x, o, tree.IsUnique()).t, o)
    ensures tree.IsUnique() ==> DistinctKeys(Seq(Inserted(tree.model, x, o, tree.IsUnique()).t))
    ensures tree.model.Empty? ==> !Refuses(tree.Elements(), x.key, tree.IsUnique())
    ensures tree.model.Full? ==>
      var t := tree.model.t;
      && (Refuses(tree.Elements(), x.key, tree.IsUnique()) <==> tree.IsUnique() && HasKey(t, x.key))
      && Leaves(t) == (set y | y in tree.Elements())
    ensures Seq(Inserted(tree.model, x, o, tree.IsUnique()).t) ==
      if Refuses(tree.Elements(), x.key, tree.IsUnique()) then tree.Elements() else Placed(tree.Elements(), x, o)
    ensures tree.model.Full? ==>
      var t := tree.model.t;
      Represents(Snap(tree.Objects() + {x}), tree.head, t) && OwnBelow(t) && Radix(t, o) && x !in Leaves(t)
  {
    InsertedKeeps(tree.model, x, o, tree.IsUnique());
    if tree.model.Full? {
      RepresentsStill(Snap(tree.Objects()), Snap(tree.Objects() + {x}), tree.head, tree.model.t);
      SeqLeaves(tree.model.t);
      InnersAreLeaves(tree.model.t);
    }
  }

  /** What the insertion does where the descent stops. */
  lemma InsertAtStop(s: Tree<nat>, x: EbNode<nat>, o: Order)
    requires StopsAbove(s, x) && Radix(s, o) && OwnBelow(s)
    ensures s.Inner? && x.key == s.n.key ==> Insert(s, x, o) == InsertLast(s, x)
    ensures s.Leaf? || x.key != s.n.key ==> Insert(s, x, o) == Graft(x, NewBit(s, x), s, Key(x, o) >= Key(s.n, o))
    ensures HasKey(s, x.key) <==> s.n.key == x.key
  {
    StopFinds(s, x, o);
  }

  /** The part the unsigned and the signed insertion share once the descent has stopped: sets the new bit,
      refuses a key of a unique tree, adds to a duplicate tree, or links x above the node reached. */
  method Conclude(tree: EbTree<nat>, x: EbNode<nat>, root: EbNode<nat>, side: bool, troot: Ref<nat>,
                  rootRight: Ref<nat>, right: bool,
                  ghost o: Order, ghost c: Ctx<nat>, ghost s: Tree<nat>) returns (r: EbNode<nat>)
    requires tree.Valid() && tree.model == Full(Plug(c, s)) && x !in tree.Objects() && x !in Leaves(Plug(c, s))
    requires Represents(Snap(tree.Objects() + {x}), tree.head, Plug(c, s))
    requires StopsAbove(s, x) && Radix(s, o) && OwnBelow(s) && right == (Key(x, o) >= Key(s.n, o))
    requires troot == Down(s) && To(root, side) == Up(c, tree.head) && rootRight == tree.head.b1
    modifies tree, tree.Objects(), x
    ensures tree.Valid() && tree.head.b1.tag == old(tree.head.b1.tag)
    ensures if rootRight.tag && HasKey(s, x.key) then
              tree.model == old(tree.model) && r in Leaves(Plug(c, s)) && r.key == x.key
            else
              tree.model == Full(Plug(c, Insert(s, x, o))) && r == x
  {
    hide Represents, Radix, Insert, HasKey, Leaves, Inners, StopsAbove, Linked, Plug;
    InsertAtStop(s, x, o);
    LinkedAt(Snap(tree.Objects() + {x}), tree.head, c, s);
    var node := troot.node;
    x.nodeP := if troot.tag == LEAF then node.leafP else node.nodeP;
    // flsnz has no defined value on equal keys, where its result is overwritten.
    if x.key != node.key {
      x.bit := Fls(Xor(x.key, node.key)) - 1;
    } else {
      x.bit := -1;
      if rootRight.tag {
        return node;
      }
      if troot.tag != LEAF {
        r := EbInsertDup(tree, node, x, c, s);
        return;
      }
    }
    Attach(tree, x, root, side, troot, right, c, s);
    r := x;
  }

  /** __eb32_insert */
  method Eb32Insert(tree: EbTree<nat>, x: EbNode<nat>) returns (r: EbNode<nat>)
    requires Holds(tree, Unsigned) && IsNew(tree, x)
    modifies tree, tree.Objects(), x
    ensures Holds(tree, Unsigned) && tree.IsUnique() == old(tree.IsUnique())
    ensures tree.model == Inserted(old(tree.model), x, Unsigned, tree.IsUnique())
    ensures var e := old(tree.Elements());
      if Refuses(e, x.key, tree.IsUnique()) then r in e && r.key == x.key && tree.Elements() == e
      else r == x && tree.Elements() == Placed(e, x, Unsigned)
  {
    hide Represents, Radix, Insert, HasKey, Leaves, Inners, Apart, StopsAbove, Linked, Plug;
    ghost var o := Unsigned;
    Prepare(tree, x, o);
    var rootRight := tree.head.b1;
    if tree.head.b0.Null? {
      InsertFirst(tree, x);
      return x;
    }
    ghost var t, m := tree.model.t, Snap(tree.Objects() + {x});
    var root, side, troot;
    ghost var c, s;
    root, side, troot, c, s := Descend(x, x.key, tree.head, m, t, o);
    var node := troot.node;
    r := Conclude(tree, x, root, side, troot, rootRight, x.key >= node.key, o, c, s);
  }

  /** __eb32i_insert: signed keys; the sign bit is shifted out when choosing a side. */
  method Eb32iInsert(tree: EbTree<nat>, x: EbNode<nat>) returns (r: EbNode<nat>)
    requires Holds(tree, TwosComplement(32)) && IsNew(tree, x)
    requires x.key < Pow2(32) && forall y | y in tree.Elements() :: y.key < Pow2(32)
    modifies tree, tree.Objects(), x
    ensures Holds(tree, TwosComplement(32)) && tree.IsUnique() == old(tree.IsUnique())
    ensures tree.model == Inserted(old(tree.model), x, TwosComplement(32), tree.IsUnique())
    ensures var e := old(tree.Elements());
      if Refuses(e, x.key, tree.IsUnique()) then r in e && r.key == x.key && tree.Elements() == e
      else r == x && tree.Elements() == Placed(e, x, TwosComplement(32))
  {
    hide Represents, Radix, Insert, HasKey, Leaves, Inners, Apart, StopsAbove, Linked, Plug, Pow2, Signed;
    ghost var o := TwosComplement(32);
    Prepare(tree, x, o);
    var rootRight := tree.head.b1;
    if tree.head.b0.Null? {
      InsertFirst(tree, x);
      return x;
    }
    ghost var t, m := tree.model.t, Snap(tree.Objects() + {x});
    var newkey := (x.key + 0x8000_0000) % 0x1_0000_0000;
    FlipWraps(x.key);
    var root, side, troot;
    ghost var c, s;
    root, side, troot, c, s := Descend(x, newkey, tree.head, m, t, o);
    LinkedAt(m, tree.head, c, s);
    var node := troot.node;
    FlipAdds(x.key, 32);
    FlipAdds(node.key, 32);
    r := Conclude(tree, x, root, side, troot, rootRight, Signed(x.key, 32) >= Signed(node.key, 32), o, c, s);
  }

  lemma Pow2Nibble(n: nat)
    ensures Pow2(n + 4) == 16 * Pow2(n)
  {
    assert Pow2(n + 2) == 4 * Pow2(n);
  }

  lemma WordSize()
    ensures Pow2(31) == 0x8000_0000 && Pow2(32) == 0x1_0000_0000
  {
    assert Pow2(0) == 1 && Pow2(32) == 2 * Pow2(31);
    hide Pow2;
    Pow2Nibble(0);
    Pow2Nibble(4);
    Pow2Nibble(8);
    Pow2Nibble(12);
    Pow2Nibble(16);
    Pow2Nibble(20);
    Pow2Nibble(24);
    Pow2Nibble(28);
  }

  /** Adding 0x80000000 to a 32-bit word inverts its sign bit. */
  lemma FlipWraps(k: nat)
    requires k < Pow2(32)
    ensures Flip(k, 32) == (k + 0x8000_0000) % 0x1_0000_0000
  {
    hide Pow2, Flip;
    FlipAdds(k, 32);
    WordSize();
  }

  /** With unique keys the descent meets an equal key on a leaf only. */
  lemma UniqueStop(c: Ctx<nat>, s: Tree<nat>, x: EbNode<nat>, o: Order)
    requires StopsAbove(s, x) && Radix(s, o) && DistinctKeys(Seq(Plug(c, s)))
    ensures s.Inner? ==> x.key != s.n.key
  {
    if s.Inner? && s.bit < 0 {
      DuplicatesRepeat(c, s);
    }
    if s.Inner? && x.key == s.n.key {
      EqualGoesDown(s, x);
    }
  }

  /** __eb64_insert: the same insertion, written with one case for leaves and one for nodes. */
  method Eb64Insert(tree: EbTree<nat>, x: EbNode<nat>) returns (r: EbNode<nat>)
    requires Holds(tree, Unsigned) && IsNew(tree, x)
    modifies tree, tree.Objects(), x
    ensures Holds(tree, Unsigned) && tree.IsUnique() == old(tree.IsUnique())
    ensures tree.model == Inserted(old(tree.model), x, Unsigned, tree.IsUnique())
    ensures var e := old(tree.Elements());
      if Refuses(e, x.key, tree.IsUnique()) then r in e && r.key == x.key && tree.Elements() == e
      else r == x && tree.Elements() == Placed(e, x, Unsigned)
  {
    hide Represents, Radix, Insert, HasKey, Leaves, Inners, Apart, StopsAbove, Linked, Plug;
    ghost var o := Unsigned;
    Prepare(tree, x, o);
    var rootRight := tree.head.b1;
    if tree.head.b0.Null? {
      InsertFirst(tree, x);
      return x;
    }
    ghost var t, m := tree.model.t, Snap(tree.Objects() + {x});
    var root, side, troot;
    ghost var c, s;
    root, side, troot, c, s := Descend(x, x.key, tree.head, m, t, o);
    InsertAtStop(s, x, o);
    if rootRight.tag {
      UniqueStop(c, s, x, o);
    }
    r := Conclude64(tree, x, root, side, troot, rootRight, c, s);
  }

  method Conclude64(tree: EbTree<nat>, x: EbNode<nat>, root: EbNode<nat>, side: bool, troot: Ref<nat>,
                    rootRight: Ref<nat>, ghost c: Ctx<nat>, ghost s: Tree<nat>) returns (r: EbNode<nat>)
    requires tree.Valid() && tree.model == Full(Plug(c, s)) && x !in tree.Objects() && x !in Leaves(Plug(c, s))
    requires Represents(Snap(tree.Objects() + {x}), tree.head, Plug(c, s))
    requires StopsAbove(s, x) && Radix(s, Unsigned) && OwnBelow(s) && rootRight == tree.head.b1
    requires rootRight.tag && s.Inner? ==> x.key != s.n.key
    requires troot == Down(s) && To(root, side) == Up(c, tree.head)
    modifies tree, tree.Objects(), x
    ensures tree.Valid() && tree.head.b1.tag == old(tree.head.b1.tag)
    ensures if rootRight.tag && HasKey(s, x.key) then
              tree.model == old(tree.model) && r in Leaves(Plug(c, s)) && r.key == x.key
            else
              tree.model == Full(Plug(c, Insert(s, x, Unsigned))) && r == x
  {
    hide Represents, Radix, Insert, HasKey, Leaves, Inners, StopsAbove, Linked, Plug, OwnBelow, Apart, Fls, Fls64;
    hide Xor, Shr;
    InsertAtStop(s, x, Unsigned);
    LinkedAt(Snap(tree.Objects() + {x}), tree.head, c, s);
    WideFls(x.key, troot.node.key);
    var node, right := troot.node, true;
    if troot.tag == LEAF {
      x.nodeP := node.leafP;
      if x.key < node.key {
        right := false;
      } else {
        if x.key == node.key && rootRight.tag {
          return node;
        }
        if x.key == node.key {
          x.bit := -1;
          Attach(tree, x, root, side, troot, true, c, s);
          return x;
        }
      }
    } else {
      x.nodeP := node.nodeP;
      if x.key < node.key {
        right := false;
      } else if x.key == node.key {
        r := EbInsertDup(tree, node, x, c, s);
        return;
      }
    }
    x.bit := Fls64(Xor(x.key, node.key)) - 1;
    Attach(tree, x, root, side, troot, right, c, s);
    r := x;
  }

  lemma WideFls(x: nat, y: nat)
    ensures Fls64(Xor(x, y)) == Fls(Xor(x, y))
  {
    if Shr(Xor(x, y), 32) != 0 {
      FlsShr(Xor(x, y), 32);
    }
  }

  /** eb32_delete: an entry that is linked is removed, and the tree keeps its keys in order whatever
      node is recycled; nothing happens to an entry that is not linked. */
  method Eb32Delete(tree: EbTree<nat>, x: EbNode<nat>, ghost o: Order)
    requires Holds(tree, o) && (x in tree.Elements() || x.leafP.Null?)
    modifies tree, tree.Objects(), x
    ensures Holds(tree, o) && tree.IsUnique() == old(tree.IsUnique())
    ensures x.leafP.Null? && tree.model == Without(old(tree.model), x)
    ensures tree.Elements() ==
      if x !in old(tree.Elements()) then old(tree.Elements())
      else old(tree.Elements()[..tree.Rank(x)] + tree.Elements()[tree.Rank(x) + 1..])
  {
    WithoutRadix(tree.model, x, o);
    hide Represents, Radix, Without;
    Delete(tree, x);
  }

  lemma WithoutRadix(s: Shape<nat>, x: EbNode<nat>, o: Order)
    requires s.Full? ==> Radix(s.t, o) && Apart(s.t) && OwnBelow(s.t)
    ensures Without(s, x).Full? ==> Radix(Without(s, x).t, o)
  {
    if s.Full? && s.t.Inner? && x in Leaves(s.t) {
      DeletedRadix(s.t, x, o);
    }
  }
}
