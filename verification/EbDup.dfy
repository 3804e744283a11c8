/** Duplicate trees: subtrees of equal keys, with negative bits, filled like a binary counter. */
module EbDup {
  import opened Bits
  import opened EbTree
  import opened EbSplice

  // ---------------------------------------------------------------------------
  // The insertion as a function

  /** Some node strictly below the top of the right spine, or its last leaf, has a bit that does
      not directly follow the bit above: there is room for one more level in between. */
  ghost predicate HasHole<K>(t: Tree<K>)
    requires t.Inner?
  {
    if t.r.Leaf? then t.bit < -1 else t.r.bit > t.bit + 1 || HasHole(t.r)
  }

  /** Adds a last duplicate: at the deepest hole of the right spine, else above the whole tree. */
  ghost function InsertLast<K>(t: Tree<K>, x: EbNode<K>): (u: Tree<K>)
    requires t.Inner?
    ensures u.Inner?
  {
    if t.r.Leaf? && t.bit < -1 then t.(r := Graft(x, -1, t.r, true))
    else if t.r.Inner? && HasHole(t.r) then t.(r := InsertLast(t.r, x))
    else if t.r.Inner? && t.r.bit > t.bit + 1 then t.(r := Graft(x, t.r.bit - 1, t.r, true))
    else Graft(x, t.bit - 1, t, true)
  }

  /** Shape of a duplicate tree: bits are negative and rise going down, and every inner node is the
      node part of the first leaf of its right branch. */
  ghost predicate DupShape<K>(t: Tree<K>) {
    match t
    case Leaf(_) => true
    case Inner(n, bit, l, r) =>
      && bit < 0 && n == First(r)
      && (l.Inner? ==> bit < l.bit) && (r.Inner? ==> bit < r.bit)
      && DupShape(l) && DupShape(r)
  }

  lemma {:induction false} InsertLastSeq<K>(t: Tree<K>, x: EbNode<K>)
    requires t.Inner?
    ensures Seq(InsertLast(t, x)) == Seq(t) + [x]
    ensures Leaves(InsertLast(t, x)) == Leaves(t) + {x}
    ensures First(InsertLast(t, x)) == First(t)
  {
    var u := InsertLast(t, x);
    if t.r.Inner? && HasHole(t.r) {
      InsertLastSeq(t.r, x);
    }
    if (t.r.Leaf? && t.bit < -1) || (t.r.Inner? && (HasHole(t.r) || t.r.bit > t.bit + 1)) {
      assert Seq(u.r) == Seq(t.r) + [x] && Leaves(u.r) == Leaves(t.r) + {x} && u.l == t.l;
      assert Seq(u) == Seq(t) + [x];
    }
  }

  /** The new duplicate is last, the shape is kept, and the top moves down by at most one level,
      only when the right spine had no hole. */
  lemma {:induction false} InsertLastShape<K>(t: Tree<K>, x: EbNode<K>)
    requires t.Inner? && DupShape(t)
    ensures DupShape(InsertLast(t, x))
    ensures InsertLast(t, x).bit == if HasHole(t) then t.bit else t.bit - 1
    ensures HasHole(t) ==> InsertLast(t, x).n == t.n
    ensures HasHole(t) ==> InsertLast(t, x).l == t.l
  {
    if t.r.Inner? && HasHole(t.r) {
      InsertLastShape(t.r, x);
      InsertLastSeq(t.r, x);
    }
  }

  /** In a duplicate tree the node parts in use are those of all its leaves but the first: only the
      first duplicate's node part can be elsewhere. */
  lemma {:induction false} DupNodeParts<K>(t: Tree<K>)
    requires DupShape(t) && Apart(t)
    ensures Inners(t) == Leaves(t) - {First(t)}
  {
    if t.Inner? {
      DupNodeParts(t.l);
      DupNodeParts(t.r);
      SeqLeaves(t.l);
      SeqLeaves(t.r);
    }
  }

  // ---------------------------------------------------------------------------
  // Depth when nothing is deleted

  /** Least d such that 2^d >= k. */
  function Log2Up(k: nat): nat
    requires k > 0
  {
    if k == 1 then 0 else 1 + Log2Up((k + 1) / 2)
  }

  ghost function Depth<K>(t: Tree<K>): nat {
    if t.Leaf? then 0 else 1 + if Depth(t.l) > Depth(t.r) then Depth(t.l) else Depth(t.r)
  }

  /** A node with bit -j has a left branch of exactly 2^(j-1) leaves and of depth j-1 at most. */
  ghost predicate Counted<K>(t: Tree<K>) {
    match t
    case Leaf(_) => true
    case Inner(_, bit, l, r) =>
      && bit < 0 && |Seq(l)| == Pow2(-bit - 1) && Depth(l) <= -bit - 1
      && (r.Inner? ==> r.bit > bit)
      && Counted(r)
  }

  lemma {:induction false} CountedDepth<K>(t: Tree<K>)
    requires Counted(t) && t.Inner?
    ensures Depth(t) <= -t.bit && |Seq(t)| > Pow2(-t.bit - 1)
  {
    if t.r.Inner? {
      CountedDepth(t.r);
    }
  }

  /** Without a hole the tree is full. */
  lemma {:induction false} CountedFull<K>(t: Tree<K>)
    requires Counted(t) && t.Inner? && !HasHole(t)
    ensures |Seq(t)| == Pow2(-t.bit)
  {
    if t.r.Inner? {
      CountedFull(t.r);
    }
  }

  lemma {:induction false} InsertLastCounted<K>(t: Tree<K>, x: EbNode<K>)
    requires Counted(t) && t.Inner?
    ensures Counted(InsertLast(t, x))
    ensures InsertLast(t, x).bit == if HasHole(t) then t.bit else t.bit - 1
  {
    if t.r.Leaf? && t.bit < -1 {
    } else if t.r.Inner? && HasHole(t.r) {
      InsertLastCounted(t.r, x);
    } else if t.r.Inner? && t.r.bit > t.bit + 1 {
      CountedFull(t.r);
      CountedDepth(t.r);
    } else {
      CountedFull(t);
      CountedDepth(t);
    }
  }

  /** The tree made of the given entries inserted one after another without any deletion. */
  ghost function Fill<K>(s: seq<EbNode<K>>): (t: Tree<K>)
    requires |s| >= 2
    ensures t.Inner?
  {
    var x := s[|s| - 1];
    if |s| == 2 then Graft(x, -1, Leaf(s[0]), true) else InsertLast(Fill(s[..|s| - 1]), x)
  }

  lemma {:induction false} Log2UpBound(k: nat, j: nat)
    requires k > Pow2(j)
    ensures Log2Up(k) >= j + 1
  {
    if j > 0 {
      assert Pow2(j) == 2 * Pow2(j - 1);
      Log2UpBound((k + 1) / 2, j - 1);
    }
  }

  /** k duplicates inserted one after another are walked in that order, and sit in a tree of
      depth log2 k rounded up at most. */
  lemma {:induction false} FillIsShallow<K>(s: seq<EbNode<K>>)
    requires |s| >= 2
    ensures Seq(Fill(s)) == s && DupShape(Fill(s)) && Counted(Fill(s))
    ensures Depth(Fill(s)) <= Log2Up(|s|)
  {
    hide InsertLast, DupShape, Counted, Depth, Log2Up, Seq;
    FillShape(s);
    CountedDepth(Fill(s));
    Log2UpBound(|s|, -Fill(s).bit - 1);
  }

  lemma {:induction false} FillShape<K>(s: seq<EbNode<K>>)
    requires |s| >= 2
    ensures Seq(Fill(s)) == s && DupShape(Fill(s)) && Counted(Fill(s)) && Fill(s).bit < 0
  {
    var x := s[|s| - 1];
    if |s| > 2 {
      hide InsertLast, DupShape, Counted;
      var t := Fill(s[..|s| - 1]);
      FillShape(s[..|s| - 1]);
      InsertLastSeq(t, x);
      InsertLastShape(t, x);
      InsertLastCounted(t, x);
      assert s == s[..|s| - 1] + [x];
    } else {
      assert s == [s[0], x];
      assert Pow2(0) == 1;
    }
  }

  // ---------------------------------------------------------------------------
  // The insertion on linked objects

  /** While walking down the right spine, (ch, th) is where the walk is and (cs, ts) the last hole seen. */
  ghost predicate Searching<K>(c: Ctx<K>, t: Tree<K>, cs: Ctx<K>, ts: Tree<K>, ch: Ctx<K>, th: Tree<K>, x: EbNode<K>)
    requires t.Inner?
  {
    && Plug(cs, ts) == Plug(ch, th) == Plug(c, t) && th.Inner? && ts.Inner?
    && Plug(c, InsertLast(t, x)) ==
       if HasHole(th) then Plug(ch, InsertLast(th, x)) else Plug(cs, Graft(x, ts.bit - 1, ts, true))
  }

  lemma SearchStart<K>(c: Ctx<K>, t: Tree<K>, x: EbNode<K>)
    requires t.Inner?
    ensures Searching(c, t, c, t, c, t, x)
  {
  }

  lemma SearchStep<K>(c: Ctx<K>, t: Tree<K>, cs: Ctx<K>, ts: Tree<K>, ch: Ctx<K>, th: Tree<K>, x: EbNode<K>)
    requires t.Inner? && Searching(c, t, cs, ts, ch, th, x) && th.r.Inner?
    ensures var ch' := InRight(ch, th.n, th.bit, th.l);
      && Plug(ch', th.r) == Plug(c, t)
      && (if th.r.bit > th.bit + 1 then Searching(c, t, ch', th.r, ch', th.r, x)
          else Searching(c, t, cs, ts, ch', th.r, x))
  {
  }

  /** Where the new leaf goes once the last leaf of the right spine is reached. */
  ghost function Target<K>(cs: Ctx<K>, ts: Tree<K>, ch: Ctx<K>, th: Tree<K>): (Ctx<K>, Tree<K>, int)
    requires th.Inner? && ts.Inner?
  {
    if th.bit < -1 then (InRight(ch, th.n, th.bit, th.l), th.r, -1) else (cs, ts, ts.bit - 1)
  }

  lemma SearchEnd<K>(c: Ctx<K>, t: Tree<K>, cs: Ctx<K>, ts: Tree<K>, ch: Ctx<K>, th: Tree<K>, x: EbNode<K>)
    requires t.Inner? && Searching(c, t, cs, ts, ch, th, x) && th.r.Leaf?
    ensures ts.Inner?
    ensures var (cx, tx, bit) := Target(cs, ts, ch, th);
      Plug(cx, tx) == Plug(c, t) && Plug(c, InsertLast(t, x)) == Plug(cx, Graft(x, bit, tx, true))
  {
  }

  /** Makes x the parent of the leaf below the right branch of head. */
  method InsertAboveLeaf<K>(tree: EbTree<K>, head: EbNode<K>, x: EbNode<K>, ghost m: Mem<K>, ghost c: Ctx<K>,
                            ghost s: Tree<K>)
    requires Represents(m, tree.head, Plug(c, s)) && x !in Leaves(Plug(c, s)) && x != tree.head
    requires m.Keys == {tree.head} + (Leaves(Plug(c, s)) + Inners(Plug(c, s))) + {x} && m == Snap(m.Keys)
    requires s.Leaf? && c.InRight? && c.n == head
    modifies m.Keys
    ensures Spliced(m, Snap(m.Keys), tree.head, c, s, x, -1, true)
    ensures tree.head.b1 == old(tree.head.b1)
  {
    hide Represents, Linked, LinkedCtx, Plug, Leaves, Inners;
    LinkedAt(m, tree.head, c, s);
    x.bit := -1;
    var sub := head.b1.node;
    head.b1 := To(x, NODE);
    x.nodeP := sub.leafP;
    x.leafP := To(x, RGHT);
    sub.leafP := To(x, LEFT);
    x.b0 := To(sub, LEAF);
    x.b1 := To(x, LEAF);
  }

  /** Makes x the parent of the inner node sub, whichever side sub is on. */
  method InsertAboveNode<K>(tree: EbTree<K>, sub: EbNode<K>, x: EbNode<K>, ghost m: Mem<K>, ghost c: Ctx<K>,
                            ghost s: Tree<K>)
    requires Represents(m, tree.head, Plug(c, s)) && x !in Leaves(Plug(c, s)) && x != tree.head
    requires m.Keys == {tree.head} + (Leaves(Plug(c, s)) + Inners(Plug(c, s))) + {x} && m == Snap(m.Keys)
    requires s.Inner? && s.n == sub
    modifies m.Keys
    ensures Spliced(m, Snap(m.Keys), tree.head, c, s, x, s.bit - 1, true)
    ensures tree.head.b1 == old(tree.head.b1)
  {
    hide Represents, Linked, LinkedCtx, Plug, Leaves, Inners;
    LinkedAt(m, tree.head, c, s);
    x.bit := sub.bit - 1;
    var side := sub.nodeP.tag;
    var head := sub.nodeP.node;
    head.SetBranch(side, To(x, NODE));
    x.nodeP := sub.nodeP;
    x.leafP := To(x, RGHT);
    sub.nodeP := To(x, LEFT);
    x.b0 := To(sub, NODE);
    x.b1 := To(x, LEAF);
  }

  /** Identifies the deepest hole on the right branch: head is the lowest node there, top the node to
      insert above when there is no room just before the last leaf. */
  method FindHole<K>(sub: EbNode<K>, ghost m: Mem<K>, ghost root: EbNode<K>, ghost c: Ctx<K>, ghost t: Tree<K>,
                     ghost x: EbNode<K>)
    returns (head: EbNode<K>, top: EbNode<K>, ghost at: (Ctx<K>, Tree<K>, int))
    requires m == Snap(m.Keys) && Represents(m, root, Plug(c, t)) && t.Inner? && t.n == sub
    ensures Plug(at.0, at.1) == Plug(c, t) && Plug(c, InsertLast(t, x)) == Plug(at.0, Graft(x, at.2, at.1, true))
    ensures if head.bit < -1 then at.0.InRight? && at.0.n == head && at.1.Leaf? && at.2 == -1
            else at.1.Inner? && at.1.n == top && at.2 == at.1.bit - 1
  {
    hide Plug, Represents, Linked, LinkedCtx, HasHole, InsertLast, Leaves, Inners, Searching;
    top, head := sub, sub;
    var last;
    ghost var cs, ts, ch, th := c, t, c, t;
    SearchStart(c, t, x);
    LinkedAt(m, root, ch, th);
    while head.b1.tag != LEAF
      invariant m == Snap(m.Keys)
      invariant Searching(c, t, cs, ts, ch, th, x)
      invariant th.Inner? && head == th.n && ts.Inner? && top == ts.n
      invariant head in m && head.b1 == Down(th.r) && head.bit == th.bit
      decreases th
    {
      SearchStep(c, t, cs, ts, ch, th, x);
      last := head;
      head := head.b1.node;
      ch, th := InRight(ch, th.n, th.bit, th.l), th.r;
      LinkedAt(m, root, ch, th);
      if head.bit > last.bit + 1 {
        top := head;
        cs, ts := ch, th;
      }
    }
    SearchEnd(c, t, cs, ts, ch, th, x);
    at := Target(cs, ts, ch, th);
  }

  /** __eb_insert_dup: adds x after the last leaf of the duplicate tree t topped by sub. */
  method EbInsertDup<K>(tree: EbTree<K>, sub: EbNode<K>, x: EbNode<K>, ghost c: Ctx<K>, ghost t: Tree<K>)
    returns (r: EbNode<K>)
    requires tree.Valid() && tree.model == Full(Plug(c, t)) && t.Inner? && t.n == sub
    requires x !in Leaves(tree.model.t) && x != tree.head
    modifies tree, tree.Objects(), x
    ensures tree.Valid() && tree.model == Full(Plug(c, InsertLast(t, x)))
    ensures tree.IsUnique() == old(tree.IsUnique())
    ensures r == x
  {
    hide Plug, Represents, Linked, LinkedCtx, HasHole, InsertLast, Leaves, Inners;
    ghost var m := Snap(tree.Objects() + {x});
    RepresentsStill(Snap(tree.Objects()), m, tree.head, Plug(c, t));
    var head, top;
    ghost var at;
    head, top, at := FindHole(sub, m, tree.head, c, t, x);
    tree.model := Full(Plug(c, InsertLast(t, x)));
    if head.bit < -1 {
      InsertAboveLeaf(tree, head, x, m, at.0, at.1);
    } else {
      InsertAboveNode(tree, top, x, m, at.0, at.1);
    }
    SpliceValid(tree, m, at.0, at.1, x, at.2, true);
    r := x;
  }
}
