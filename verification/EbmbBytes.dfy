/** Trees of byte keys of one fixed length on linked objects: insertion, deletion, and the search of the
    first key that starts with given bytes. */
module EbmbBytes {
  import opened Bytes
  import opened EbTree
  import opened EbSplice
  import opened EbDup
  import opened EbDelete
  import opened EbWalk
  import opened EbBytes
  import EbScalar

  /** What insertions need to know before they start. */
  lemma Prepare(tree: EbTree<Text>, x: Entry, k: Kind)
    requires Holds(tree, k) && IsNew(tree, x) && KeyOk(x.key, k)
    ensures tree.head.b0.Null? <==> tree.model.Empty?
    ensures x !in tree.Objects()
    ensures var s := Inserted(tree.model, x, tree.IsUnique());
      && s.Full? && BitTree(s.t, k) && (tree.IsUnique() ==> DistinctKeys(Seq(s.t)))
      && Seq(s.t) == (if Refuses(tree.Elements(), x.key, tree.IsUnique()) then tree.Elements()
                      else Placed(tree.Elements(), x))
    ensures tree.model.Empty? ==> !Refuses(tree.Elements(), x.key, tree.IsUnique())
    ensures tree.model.Full? ==>
      var t := tree.model.t;
      && (Refuses(tree.Elements(), x.key, tree.IsUnique()) <==> tree.IsUnique() && HasKey(t, x.key))
      && Leaves(t) == (set y | y in tree.Elements())
      && Represents(Snap(tree.Objects() + {x}), tree.head, t) && OwnBelow(t) && BitTree(t, k) && x !in Leaves(t)
  {
    hide BitTree, Insert, HasKey, Leaves, Inners, Apart, Linked, LinkedCtx, KeyOk, Placed, DistinctKeys, OwnBelow;
    InsertedKeeps(tree.model, x, tree.IsUnique(), k);
    if tree.model.Full? {
      RepresentsStill(Snap(tree.Objects()), Snap(tree.Objects() + {x}), tree.head, tree.model.t);
      SeqLeaves(tree.model.t);
      InnersAreLeaves(tree.model.t);
    }
  }

  /** What the comparison of x with the node at the top of t decides, when asked up to n. */
  lemma Verdict(t: Tree<Text>, a: Text, k: Kind, n: nat, e: nat)
    requires BitTree(t, k) && OwnBelow(t) && KeyOk(a, k)
    requires n <= 8 * |a| && n <= 8 * |t.n.key| && Tells(a, t.n.key, n, e)
    ensures e < n ==> Common(a, t.n.key) == e && a != t.n.key
    ensures e >= n ==> Common(a, t.n.key) >= n
  {
    EbScalar.TopIsLeaf(t);
    TreeKeys(t, k);
    Differ(a, t.n.key, k);
    CommonAtLeast(a, t.n.key, n);
    if e < n {
      CommonIs(a, t.n.key, e);
    }
  }

  /** What is known one level down, on the side x goes to. */
  lemma DownStep(t: Tree<Text>, x: Entry, k: Kind)
    requires BitTree(t, k) && OwnBelow(t) && KeyOk(x.key, k) && t.Inner? && t.bit >= 0 && !StopsAbove(t, x.key)
    ensures BitTree(t.l, k) && BitTree(t.r, k) && OwnBelow(t.l) && OwnBelow(t.r)
    ensures t.bit < 8 * |x.key| && (ToRight(t, x.key) <==> BitAt(x.key, t.bit) == 1)
    ensures var s := if ToRight(t, x.key) then t.r else t.l;
      && Insert(t, x) == (if ToRight(t, x.key) then t.(r := Insert(t.r, x)) else t.(l := Insert(t.l, x)))
      && (HasKey(t, x.key) <==> HasKey(s, x.key)) && Common(x.key, s.n.key) > t.bit
  {
    Continues(t, x.key, k);
    FurtherDown(t, x.key, k);
    SideFinds(t, x.key);
    hide Common, HasKey;
  }

  /** The keys of the tops compared are long enough. */
  lemma Lengths(t: Tree<Text>, x: Entry, len: nat)
    requires BitTree(t, Fixed(len)) && OwnBelow(t) && KeyOk(x.key, Fixed(len))
    ensures |x.key| == len && KeyOk(t.n.key, Fixed(len)) && IsBytes(x.key) && IsBytes(t.n.key)
    ensures t.Inner? && t.bit >= 0 ==> t.bit < 8 * len
  {
    EbScalar.TopIsLeaf(t);
    TreeKeys(t, Fixed(len));
    hide Common;
    if t.Inner? && t.bit >= 0 {
      assert Agree(t.n.key, t.n.key, t.bit);
    }
  }

  lemma HintUsable(a: Text, b: Text, bit: nat, n: nat)
    requires bit <= Common(a, b) && n <= 8 * |a| && n <= 8 * |b|
    ensures SameBits(a, b, if bit < n then bit else n)
  {
  }

  /** The descent of __ebmb_insert. It stops above a node whose bits x does not follow, or above a leaf or a
      duplicate tree; bit is where x first differs from there, or past its end. */
  method Descend(x: Entry, top: Entry, len: nat, ghost m: Mem<Text>, ghost t: Tree<Text>)
    returns (root: Entry, side: bool, troot: Ref<Text>, bit: nat, ghost c: Ctx<Text>, ghost s: Tree<Text>)
    requires Represents(m, top, t) && m == Snap(m.Keys) && BitTree(t, Fixed(len)) && KeyOk(x.key, Fixed(len))
    ensures Plug(c, s) == t && Plug(c, Insert(s, x)) == Insert(t, x)
    ensures StopsAbove(s, x.key) && BitTree(s, Fixed(len)) && OwnBelow(s)
    ensures troot == Down(s) && To(root, side) == Up(c, top)
    ensures HasKey(t, x.key) <==> HasKey(s, x.key)
    ensures if bit < 8 * len then bit == Common(x.key, s.n.key) && x.key != s.n.key else x.key == s.n.key
  {
    hide Represents, Linked, LinkedCtx, BitTree, Agree, HasKey, Leaves, Inners, OwnBelow, KeyOk, Common;
    hide Insert, NewBit, OnRight, ToRight, Tells, SameBits, StopsAbove;
    root, side, troot := top, LEFT, top.b0;
    bit := 0;
    c, s := Top, t;
    DescendStart(m, top, t);
    while true
      invariant m == Snap(m.Keys)
      invariant Plug(c, s) == t && Plug(c, Insert(s, x)) == Insert(t, x)
      invariant BitTree(s, Fixed(len)) && OwnBelow(s)
      invariant troot == Down(s) && To(root, side) == Up(c, top)
      invariant HasKey(t, x.key) <==> HasKey(s, x.key)
      invariant bit <= Common(x.key, s.n.key)
      decreases s
    {
      LinkedAt(m, top, c, s);
      Lengths(s, x, len);
      FixedLengths(x.key, s.n.key, len);
      var node := troot.node;
      assert m[node].bit == node.bit;
      if troot.tag == LEAF || node.bit < 0 {
        HintUsable(x.key, node.key, bit, 8 * len);
        bit := EqualBits(x.key, node.key, bit, 8 * len);
        Verdict(s, x.key, Fixed(len), 8 * len, bit);
        StopsOnSingle(s, x.key, len);
        return;
      }
      var nodeBit: nat := node.bit;
      HintUsable(x.key, node.key, bit, nodeBit);
      bit := EqualBits(x.key, node.key, bit, nodeBit);
      Verdict(s, x.key, Fixed(len), nodeBit, bit);
      Stops(s, x.key);
      if bit < nodeBit {
        return;
      }
      bit := nodeBit + 1;
      DownStep(s, x, Fixed(len));
      root := node;
      side := BitAt(x.key, nodeBit) == 1;
      troot := root.Branch(side);
      c := if side then InRight(c, s.n, s.bit, s.l) else InLeft(c, s.n, s.bit, s.r);
      s := if side then s.r else s.l;
    }
  }

  lemma FixedLengths(a: Text, b: Text, len: nat)
    requires KeyOk(a, Fixed(len)) && KeyOk(b, Fixed(len))
    ensures |a| == |b| == len && (a == b <==> Common(a, b) >= 8 * len)
  {
    Differ(a, b, Fixed(len));
    hide Common;
  }

  lemma StopsOnSingle(t: Tree<Text>, a: Text, len: nat)
    requires t.Leaf? || t.bit < 0
    ensures StopsAbove(t, a)
  {
  }

  lemma Stops(t: Tree<Text>, a: Text)
    requires t.Inner? && t.bit >= 0
    ensures StopsAbove(t, a) <==> Common(a, t.n.key) < t.bit
  {
  }

  lemma DescendStart<K>(m: Mem<K>, top: EbNode<K>, t: Tree<K>)
    requires Represents(m, top, t) && m == Snap(m.Keys)
    ensures top.b0 == Down(t) && OwnBelow(t)
  {
    assert m[top].b0 == top.b0;
  }

  /** __ebmb_insert */
  method EbmbInsert(tree: EbTree<Text>, x: Entry, len: nat) returns (r: Entry)
    requires Holds(tree, Fixed(len)) && IsNew(tree, x) && KeyOk(x.key, Fixed(len))
    modifies tree, tree.Objects(), x
    ensures Holds(tree, Fixed(len)) && tree.IsUnique() == old(tree.IsUnique())
    ensures tree.model == Inserted(old(tree.model), x, tree.IsUnique())
    ensures var e := old(tree.Elements());
      if Refuses(e, x.key, tree.IsUnique()) then r in e && r.key == x.key && tree.Elements() == e
      else r == x && tree.Elements() == Placed(e, x)
  {
    hide Represents, BitTree, Insert, HasKey, Leaves, Inners, Apart, StopsAbove, Linked, Plug, Placed, KeyOk;
    hide DistinctKeys, Common;
    Prepare(tree, x, Fixed(len));
    var rootRight := tree.head.b1;
    if tree.head.b0.Null? {
      InsertFirst(tree, x);
      return x;
    }
    ghost var t, m := tree.model.t, Snap(tree.Objects() + {x});
    var root, side, troot, bit;
    ghost var c, s;
    root, side, troot, bit, c, s := Descend(x, tree.head, len, m, t);
    r := Conclude(tree, x, len, root, side, troot, rootRight, bit, c, s);
  }

  /** What the insertion does where the descent stops. */
  lemma InsertAtStop(s: Tree<Text>, x: Entry, k: Kind)
    requires StopsAbove(s, x.key) && BitTree(s, k) && OwnBelow(s) && KeyOk(x.key, k)
    ensures HasKey(s, x.key) <==> x.key == s.n.key
    ensures if x.key == s.n.key && s.Inner? then s.bit < 0 && Insert(s, x) == InsertLast(s, x)
      else Insert(s, x) == Graft(x, NewBit(s, x.key), s, OnRight(s, x.key))
    ensures x.key == s.n.key ==> OnRight(s, x.key) && NewBit(s, x.key) == -1
    ensures x.key != s.n.key ==>
      var b := Common(x.key, s.n.key);
      b < 8 * |x.key| && b < 8 * |s.n.key| && NewBit(s, x.key) == b
      && CmpBits(x.key, s.n.key, b) != 0 && (OnRight(s, x.key) <==> CmpBits(x.key, s.n.key, b) > 0)
  {
    StopFinds(s, x.key, k);
    EbScalar.TopIsLeaf(s);
    TreeKeys(s, k);
    NotLessItself(x.key);
    if x.key == s.n.key {
      EqualGoesDown(s, x.key, k);
    } else {
      Differ(x.key, s.n.key, k);
    }
    hide Common;
  }

  method Conclude(tree: EbTree<Text>, x: Entry, len: nat, root: Entry, side: bool, troot: Ref<Text>,
                  rootRight: Ref<Text>, bit: nat, ghost c: Ctx<Text>, ghost s: Tree<Text>) returns (r: Entry)
    requires tree.Valid() && tree.model == Full(Plug(c, s)) && x !in tree.Objects() && x !in Leaves(Plug(c, s))
    requires Represents(Snap(tree.Objects() + {x}), tree.head, Plug(c, s)) && KeyOk(x.key, Fixed(len))
    requires StopsAbove(s, x.key) && BitTree(s, Fixed(len)) && OwnBelow(s)
    requires troot == Down(s) && To(root, side) == Up(c, tree.head) && rootRight == tree.head.b1
    requires if bit < 8 * len then bit == Common(x.key, s.n.key) && x.key != s.n.key else x.key == s.n.key
    modifies tree, tree.Objects(), x
    ensures tree.Valid() && tree.head.b1.tag == old(tree.head.b1.tag)
    ensures if rootRight.tag && HasKey(s, x.key) then
              tree.model == old(tree.model) && r in Leaves(Plug(c, s)) && r.key == x.key
            else
              tree.model == Full(Plug(c, Insert(s, x))) && r == x
  {
    hide Represents, BitTree, HasKey, Leaves, Inners, StopsAbove, Linked, Plug, OnRight, NewBit, KeyOk, Common;
    hide Insert, CmpBits;
    InsertAtStop(s, x, Fixed(len));
    LinkedAt(Snap(tree.Objects() + {x}), tree.head, c, s);
    var node := troot.node;
    x.nodeP := if troot.tag == LEAF then node.leafP else node.nodeP;
    x.bit := bit;
    var diff := 0;
    if bit / 8 < len {
      diff := CmpBits(x.key, node.key, bit);
    }
    if diff == 0 {
      x.bit := -1;
      if rootRight.tag {
        return node;
      }
      if troot.tag != LEAF {
        r := EbInsertDup(tree, node, x, c, s);
        return;
      }
    }
    Attach(tree, x, root, side, troot, diff >= 0, c, s);
    r := x;
  }

  /** ebmb_delete */
  method EbmbDelete(tree: EbTree<Text>, x: Entry, ghost k: Kind)
    requires Holds(tree, k) && (x in tree.Elements() || x.leafP.Null?)
    modifies tree, tree.Objects(), x
    ensures Holds(tree, k) && tree.IsUnique() == old(tree.IsUnique())
    ensures x.leafP.Null? && tree.model == Without(old(tree.model), x)
    ensures tree.Elements() ==
      if x !in old(tree.Elements()) then old(tree.Elements())
      else old(tree.Elements()[..tree.Rank(x)] + tree.Elements()[tree.Rank(x) + 1..])
  {
    WithoutTree(tree.model, x, k);
    if x in tree.Elements() {
      RemovedDistinct(tree.Elements(), tree.Rank(x), tree.IsUnique());
    }
    hide Represents, BitTree, DistinctKeys, Without;
    Delete(tree, x);
  }

  /** Which makes the walks of duplicates and of unique keys apply to any tree of byte keys. */
  lemma HoldsGrouped(tree: EbTree<Text>, k: Kind)
    requires Holds(tree, k) && tree.Elements() != []
    ensures tree.model.Full? && Grouped(tree.model.t, Whole)
  {
    TreeGrouped(tree.model.t, k);
  }

  /** ebmb_next_dup: the entry that follows when it has the same key, or null. */
  method EbmbNextDup(ghost tree: EbTree<Text>, node: Entry, ghost k: Kind) returns (r: EbNode?<Text>)
    requires Holds(tree, k) && node in tree.Elements()
    ensures var e, i := tree.Elements(), tree.Rank(node);
      r == if i + 1 < |e| && e[i + 1].key == node.key then e[i + 1] else null
  {
    HoldsGrouped(tree, k);
    r := EbNextDup(tree, node, Whole);
  }
}
