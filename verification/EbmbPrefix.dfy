/** Prefix trees on linked objects: insertion, exact search, and longest-prefix match. */
module EbmbPrefix {
  import opened Bytes
  import opened EbTree
  import opened EbSplice
  import opened EbDup
  import opened EbDelete
  import opened EbWalk
  import opened EbPrefix
  import EbScalar

  /** The state of a linked tree of prefixes whose keys have len bytes. */
  ghost predicate Holds(tree: EbTree<Prefix>, len: nat)
    reads tree, tree.Objects()
  {
    && tree.Valid() && len > 0
    && (tree.model.Full? ==> Prefixed(tree.model.t, len))
    && (tree.IsUnique() ==> DistinctPrefixes(tree.Elements()))
  }

  /** What equal_bits returns, against what the tops share. */
  lemma TellsShared(t: Tree<Prefix>, x: Entry, n: nat, r: nat)
    requires n == (if t.Leaf? || t.bit < 0 then Shorter(x, t.n) else t.bit / 2)
    requires n <= 8 * |x.key.bytes| && n <= 8 * |t.n.key.bytes| && Tells(x.key.bytes, t.n.key.bytes, n, r)
    ensures Shared(t, x) == if r < n then r else n
  {
    TellsCommon(x.key.bytes, t.n.key.bytes, n, r);
  }

  /** The first bits of x are known to be those of the top of t, up to where they are compared. */
  ghost predicate Hint(t: Tree<Prefix>, x: Entry, bit: nat) {
    Agree(x, t.n, bit) || ((t.Leaf? || t.bit < 0) && StopsAbove(t, x) && NewBit(t, x) == -1)
  }

  lemma HintUsable(t: Tree<Prefix>, x: Entry, bit: nat, len: nat)
    requires Prefixed(t, len) && OwnBelow(t) && KeyOk(x, len) && Hint(t, x, bit)
    ensures KeyOk(t.n, len) && (t.Inner? && t.bit >= 0 ==> t.bit / 2 < 8 * len)
    ensures var n := if t.Leaf? || t.bit < 0 then Shorter(x, t.n) else t.bit / 2;
      n <= 8 * len && SameBits(x.key.bytes, t.n.key.bytes, if bit < n then bit else n)
  {
    EbScalar.TopIsLeaf(t);
    TopAgrees(t, len, t.n);
  }

  /** What the comparison of x with the node at the top of t decides. */
  lemma Verdict(t: Tree<Prefix>, x: Entry, e: nat, len: nat)
    requires t.Inner? && t.bit >= 0 && t.bit / 2 < 8 * len && KeyOk(x, len) && KeyOk(t.n, len)
    requires Tells(x.key.bytes, t.n.key.bytes, t.bit / 2, e)
    ensures 2 * e + 1 >= 2 * x.key.pfx && 2 * x.key.pfx < t.bit ==>
      StopsAbove(t, x) && NewBit(t, x) == 2 * x.key.pfx && !OnRight(t, x)
    ensures !(2 * e + 1 >= 2 * x.key.pfx && 2 * x.key.pfx < t.bit) && 2 * e + 1 < t.bit ==>
      && StopsAbove(t, x) && NewBit(t, x) == 2 * e + 1 && e < 8 * len
      && OnRight(t, x) == (CmpBits(x.key.bytes, t.n.key.bytes, e) >= 0)
    ensures !(2 * e + 1 >= 2 * x.key.pfx && 2 * x.key.pfx < t.bit) && 2 * e + 1 >= t.bit ==> !StopsAbove(t, x)
  {
    TellsShared(t, x, t.bit / 2, e);
  }

  /** What is known one level down, on the side x goes to. */
  lemma DownStep(t: Tree<Prefix>, x: Entry, len: nat)
    requires Prefixed(t, len) && OwnBelow(t) && KeyOk(x, len) && t.Inner? && t.bit >= 0 && !StopsAbove(t, x)
    ensures Prefixed(t.l, len) && Prefixed(t.r, len) && OwnBelow(t.l) && OwnBelow(t.r)
    ensures ToRight(t, x) <==> if t.bit % 2 == 0 then x.key.pfx != t.bit / 2 else BitAt(x.key.bytes, t.bit / 2) == 1
    ensures var s := if ToRight(t, x) then t.r else t.l;
      && Insert(t, x) == (if ToRight(t, x) then t.(r := Insert(t.r, x)) else t.(l := Insert(t.l, x)))
      && (HasPrefix(t, x) <==> HasPrefix(s, x))
      && if t.bit % 2 == 0 && !ToRight(t, x) then forall bit: nat :: Hint(s, x, bit) else Hint(s, x, (t.bit + 1) / 2)
  {
    OtherBranch(t, x, len);
    if t.bit % 2 == 0 && !ToRight(t, x) {
      CoverLeft(t, x, len);
    } else {
      FurtherDown(t, x, len);
    }
  }

  /** The descent. It stops above a node whose bits x does not follow, with the bit and the side of the
      new node decided (early), or above a leaf or a duplicate tree. bit is the hint for the comparison
      that is left to do there. */
  method Descend(x: Entry, top: Entry, len: nat, ghost m: Mem<Prefix>, ghost t: Tree<Prefix>)
    returns (root: Entry, side: bool, troot: Ref<Prefix>, early: bool, bit: nat, right: bool,
             ghost c: Ctx<Prefix>, ghost s: Tree<Prefix>)
    requires Represents(m, top, t) && m == Snap(m.Keys) && Prefixed(t, len) && KeyOk(x, len)
    ensures Plug(c, s) == t && Plug(c, Insert(s, x)) == Insert(t, x)
    ensures StopsAbove(s, x) && Prefixed(s, len) && OwnBelow(s)
    ensures troot == Down(s) && To(root, side) == Up(c, top)
    ensures HasPrefix(t, x) <==> HasPrefix(s, x)
    ensures early ==> s.Inner? && s.bit >= 0 && bit == NewBit(s, x) && right == OnRight(s, x)
    ensures !early ==> (s.Leaf? || s.bit < 0) && Hint(s, x, bit)
  {
    hide Represents, Linked, LinkedCtx, Prefixed, Agree, SamePrefix, HasPrefix, Leaves, Inners, OwnBelow;
    hide Hint, Insert, NewBit, OnRight, ToRight, Shared, Tells, SameBits, StopsAbove;
    root, side, troot := top, LEFT, top.b0;
    early, bit, right := false, 0, false;
    c, s := Top, t;
    DescendStart(m, top, t, x);
    while true
      invariant m == Snap(m.Keys)
      invariant Plug(c, s) == t && Plug(c, Insert(s, x)) == Insert(t, x)
      invariant Prefixed(s, len) && OwnBelow(s)
      invariant troot == Down(s) && To(root, side) == Up(c, top)
      invariant HasPrefix(t, x) <==> HasPrefix(s, x)
      invariant Hint(s, x, bit) && !early
      decreases s
    {
      LinkedAt(m, top, c, s);
      HintUsable(s, x, bit, len);
      var node := troot.node;
      assert m[node].bit == node.bit;
      if troot.tag == LEAF || node.bit < 0 {
        StopsOnSingle(s, x);
        return;
      }
      var nodeBit := node.bit;
      // From here the bit counts half-bits.
      var e := EqualBits(x.key.bytes, node.key.bytes, bit, nodeBit / 2);
      Verdict(s, x, e, len);
      bit := 2 * e + 1;
      if bit >= 2 * x.key.pfx && 2 * x.key.pfx < nodeBit {
        early, bit, right := true, 2 * x.key.pfx, false;
        return;
      }
      if bit < nodeBit {
        early, right := true, CmpBits(x.key.bytes, node.key.bytes, e) >= 0;
        return;
      }
      DownStep(s, x, len);
      root := node;
      if nodeBit % 2 == 0 {
        if 2 * x.key.pfx == nodeBit {
          side := LEFT;
        } else {
          side := RGHT;
          bit := nodeBit / 2;
        }
      } else {
        bit := nodeBit / 2 + 1;
        side := BitAt(x.key.bytes, nodeBit / 2) == 1;
      }
      troot := root.Branch(side);
      c := if side then InRight(c, s.n, s.bit, s.l) else InLeft(c, s.n, s.bit, s.r);
      s := if side then s.r else s.l;
    }
  }

  lemma StopsOnSingle(t: Tree<Prefix>, x: Entry)
    requires t.Leaf? || t.bit < 0
    ensures StopsAbove(t, x)
  {
  }

  lemma DescendStart(m: Mem<Prefix>, top: Entry, t: Tree<Prefix>, x: Entry)
    requires Represents(m, top, t) && m == Snap(m.Keys)
    ensures top.b0 == Down(t) && OwnBelow(t) && Hint(t, x, 0)
  {
    assert m[top].b0 == top.b0;
  }

  /** Above a single prefix: the new bit and side. The first difference is looked for up to the shorter
      prefix; without one, the shorter prefix covers the longer, or both are the same. */
  method Settle(x: Entry, node: Entry, len: nat, hint: nat, ghost t: Tree<Prefix>) returns (bit: int, diff: int)
    requires Prefixed(t, len) && OwnBelow(t) && KeyOk(x, len) && t.n == node
    requires (t.Leaf? || t.bit < 0) && Hint(t, x, hint)
    ensures bit == NewBit(t, x) && (diff >= 0 <==> OnRight(t, x))
  {
    HintUsable(t, x, hint, len);
    var n := 8 * len;
    if n > x.key.pfx { n := x.key.pfx; }
    if n > node.key.pfx { n := node.key.pfx; }
    var b := EqualBits(x.key.bytes, node.key.bytes, hint, n);
    TellsShared(t, x, n, b);
    if b > x.key.pfx { b := x.key.pfx; }
    if b > node.key.pfx { b := node.key.pfx; }
    bit := 2 * b + 1;
    diff := 0;
    if b < node.key.pfx && b < x.key.pfx {
      diff := CmpBits(x.key.bytes, node.key.bytes, b);
    }
    if diff == 0 {
      bit := bit - 1;
      if x.key.pfx == node.key.pfx {
        bit := -1;
      } else if x.key.pfx < node.key.pfx {
        diff := -1;
      }
    }
  }

  /** What the insertion needs to know before it starts. */
  lemma Prepare(tree: EbTree<Prefix>, x: Entry, len: nat)
    requires Holds(tree, len) && IsNew(tree, x) && KeyOk(x, len)
    ensures tree.head.b0.Null? <==> tree.model.Empty?
    ensures x !in tree.Objects()
    ensures var s := Inserted(tree.model, x, tree.IsUnique());
      && s.Full? && Prefixed(s.t, len) && (tree.IsUnique() ==> DistinctPrefixes(Seq(s.t)))
      && if Refuses(tree.Elements(), x, tree.IsUnique()) then Seq(s.t) == tree.Elements()
         else AddedLast(tree.Elements(), x, Seq(s.t))
    ensures tree.model.Empty? ==> !Refuses(tree.Elements(), x, tree.IsUnique())
    ensures tree.model.Full? ==>
      var t := tree.model.t;
      && (Refuses(tree.Elements(), x, tree.IsUnique()) <==> tree.IsUnique() && HasPrefix(t, x))
      && Leaves(t) == (set y | y in tree.Elements())
      && Represents(Snap(tree.Objects() + {x}), tree.head, t) && OwnBelow(t) && Prefixed(t, len) && x !in Leaves(t)
  {
    hide Prefixed, Insert, HasPrefix, Leaves, Inners, Apart, Linked, LinkedCtx, SamePrefix, KeyOk, AddedLast;
    hide DistinctPrefixes, OwnBelow;
    InsertedKeeps(tree.model, x, tree.IsUnique(), len);
    if tree.model.Full? {
      RepresentsStill(Snap(tree.Objects()), Snap(tree.Objects() + {x}), tree.head, tree.model.t);
      SeqLeaves(tree.model.t);
      InnersAreLeaves(tree.model.t);
    }
  }

  /** __ebmb_insert_prefix */
  method EbmbInsertPrefix(tree: EbTree<Prefix>, x: Entry, len: nat) returns (r: Entry)
    requires Holds(tree, len) && IsNew(tree, x) && KeyOk(x, len)
    modifies tree, tree.Objects(), x
    ensures Holds(tree, len) && tree.IsUnique() == old(tree.IsUnique())
    ensures tree.model == Inserted(old(tree.model), x, tree.IsUnique())
    ensures var e := old(tree.Elements());
      if Refuses(e, x, tree.IsUnique()) then r in e && SamePrefix(r, x) && tree.Elements() == e
      else r == x && AddedLast(e, x, tree.Elements())
  {
    hide Represents, Prefixed, Insert, HasPrefix, Leaves, Inners, Apart, StopsAbove, Linked, Plug, SamePrefix, KeyOk;
    hide AddedLast;
    hide DistinctPrefixes;
    Prepare(tree, x, len);
    var rootRight := tree.head.b1;
    if tree.head.b0.Null? {
      InsertFirst(tree, x);
      return x;
    }
    ghost var t, m := tree.model.t, Snap(tree.Objects() + {x});
    var root, side, troot, early, bit, right;
    ghost var c, s;
    root, side, troot, early, bit, right, c, s := Descend(x, tree.head, len, m, t);
    r := Conclude(tree, x, len, root, side, troot, rootRight, early, bit, right, c, s);
  }

  method Conclude(tree: EbTree<Prefix>, x: Entry, len: nat, root: Entry, side: bool, troot: Ref<Prefix>,
                  rootRight: Ref<Prefix>, early: bool, hint: nat, onRight: bool, ghost c: Ctx<Prefix>,
                  ghost s: Tree<Prefix>) returns (r: Entry)
    requires tree.Valid() && tree.model == Full(Plug(c, s)) && x !in tree.Objects() && x !in Leaves(Plug(c, s))
    requires Represents(Snap(tree.Objects() + {x}), tree.head, Plug(c, s)) && KeyOk(x, len)
    requires StopsAbove(s, x) && Prefixed(s, len) && OwnBelow(s)
    requires troot == Down(s) && To(root, side) == Up(c, tree.head) && rootRight == tree.head.b1
    requires early ==> s.Inner? && s.bit >= 0 && hint == NewBit(s, x) && onRight == OnRight(s, x)
    requires !early ==> (s.Leaf? || s.bit < 0) && Hint(s, x, hint)
    modifies tree, tree.Objects(), x
    ensures tree.Valid() && tree.head.b1.tag == old(tree.head.b1.tag)
    ensures if rootRight.tag && HasPrefix(s, x) then
              tree.model == old(tree.model) && r in Leaves(Plug(c, s)) && SamePrefix(r, x)
            else
              tree.model == Full(Plug(c, Insert(s, x))) && r == x
  {
    hide Represents, Prefixed, HasPrefix, Leaves, Inners, StopsAbove, Linked, Plug, OnRight, NewBit, SamePrefix;
    hide KeyOk, Hint;
    StopFinds(s, x, len);
    LinkedAt(Snap(tree.Objects() + {x}), tree.head, c, s);
    var node, right := troot.node, onRight;
    x.nodeP := if troot.tag == LEAF then node.leafP else node.nodeP;
    if early {
      x.bit := hint;
    } else {
      var bit, diff := Settle(x, node, len, hint, s);
      right := diff >= 0;
      x.bit := bit;
      if bit == -1 {
        if rootRight.tag {
          return node;
        }
        if troot.tag != LEAF {
          r := EbInsertDup(tree, node, x, c, s);
          return;
        }
      }
    }
    Attach(tree, x, root, side, troot, right, c, s);
    r := x;
  }

  /** ebmb_delete on a tree of prefixes. */
  method EbmbDelete(tree: EbTree<Prefix>, x: Entry, ghost len: nat)
    requires Holds(tree, len) && (x in tree.Elements() || x.leafP.Null?)
    modifies tree, tree.Objects(), x
    ensures Holds(tree, len) && tree.IsUnique() == old(tree.IsUnique())
    ensures x.leafP.Null? && tree.model == Without(old(tree.model), x)
    ensures tree.Elements() ==
      if x !in old(tree.Elements()) then old(tree.Elements())
      else old(tree.Elements()[..tree.Rank(x)] + tree.Elements()[tree.Rank(x) + 1..])
  {
    WithoutPrefixed(tree.model, x, len);
    if x in tree.Elements() {
      RemovedDistinct(tree.Elements(), tree.Rank(x), tree.IsUnique());
    }
    hide Represents, Prefixed, SamePrefix, DistinctPrefixes, Without;
    Delete(tree, x);
  }

  lemma WithoutPrefixed(s: Shape<Prefix>, x: Entry, len: nat)
    requires s.Full? ==> Prefixed(s.t, len) && Apart(s.t) && OwnBelow(s.t)
    ensures Without(s, x).Full? ==> Prefixed(Without(s, x).t, len)
  {
    if s.Full? && s.t.Inner? && x in Leaves(s.t) {
      DeletedPrefixed(s.t, x, len);
    }
  }

  lemma RemovedDistinct(e: seq<Entry>, k: nat, unique: bool)
    requires k < |e| && (unique ==> DistinctPrefixes(e))
    ensures unique ==> DistinctPrefixes(e[..k] + e[k + 1..])
  {
    var u := e[..k] + e[k + 1..];
    assert forall i | 0 <= i < |u| :: u[i] == e[if i < k then i else i + 1];
  }

  // ---------------------------------------------------------------------------
  // Walks among entries for the same prefix

  lemma HoldsGrouped(tree: EbTree<Prefix>, len: nat)
    requires Holds(tree, len) && tree.Elements() != []
    ensures tree.model.Full? && Grouped(tree.model.t, BitsOf)
    ensures forall x | x in tree.Elements() :: KeyOk(x, len)
  {
    PrefixGrouped(tree.model.t, len);
    PrefixedKeys(tree.model.t, len);
    SeqLeaves(tree.model.t);
  }

  /** ebmb_next_dup: the entry that follows when it stands for the same prefix, or null. */
  method EbmbNextDup(ghost tree: EbTree<Prefix>, node: Entry, ghost len: nat) returns (r: EbNode?<Prefix>)
    requires Holds(tree, len) && node in tree.Elements()
    ensures var e, i := tree.Elements(), tree.Rank(node);
      r == if i + 1 < |e| && SamePrefix(e[i + 1], node) then e[i + 1] else null
  {
    HoldsGrouped(tree, len);
    ghost var e, i := tree.Elements(), tree.Rank(node);
    if i + 1 < |e| {
      SameBitsOf(e[i + 1], node, len);
    }
    r := EbNextDup(tree, node, BitsOf);
  }

  /** ebmb_next_unique: the first entry of the next prefix, all entries before it standing for the same
      prefix as node, or null when all the others do. */
  method EbmbNextUnique(ghost tree: EbTree<Prefix>, node: Entry, ghost len: nat) returns (r: EbNode?<Prefix>)
    requires Holds(tree, len) && node in tree.Elements()
    ensures var e, i := tree.Elements(), tree.Rank(node);
      if r == null then forall k | i <= k < |e| :: SamePrefix(e[k], node)
      else exists j | i < j < |e| ::
        r == e[j] && !SamePrefix(r, node) && forall k | i <= k < j :: SamePrefix(e[k], node)
  {
    HoldsGrouped(tree, len);
    hide Prefixed, KeyOk, Grouped, SamePrefix, BitsOf, DistinctPrefixes, Represents;
    ghost var e, i := tree.Elements(), tree.Rank(node);
    forall k | 0 <= k < |e| ensures SamePrefix(e[k], node) <==> BitsOf(e[k].key) == BitsOf(node.key) {
      SameBitsOf(e[k], node, len);
    }
    r := EbNextUnique(tree, node, BitsOf);
  }
}
