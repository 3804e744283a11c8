/** Deletion of a linked entry in constant time. The parent of the leaf is released; when the deleted
    object's node part is in use elsewhere, the released node takes its place. */
module EbDelete {
  import opened EbTree
  import opened EbSplice

  // ---------------------------------------------------------------------------
  // The deletion as a function

  /** The tree without leaf x: the parent of x goes, and its other branch takes its place. */
  ghost function Remove<K>(t: Tree<K>, x: EbNode<K>): Tree<K>
    requires t.Inner? && x in Leaves(t)
  {
    if x in Leaves(t.l) then
      if t.l.Leaf? then t.r else t.(l := Remove(t.l, x))
    else
      if t.r.Leaf? then t.l else t.(r := Remove(t.r, x))
  }

  /** The inner node right above leaf x. */
  ghost function LeafParent<K>(t: Tree<K>, x: EbNode<K>): EbNode<K>
    requires t.Inner? && x in Leaves(t)
  {
    if x in Leaves(t.l) then
      if t.l.Leaf? then t.n else LeafParent(t.l, x)
    else
      if t.r.Leaf? then t.n else LeafParent(t.r, x)
  }

  /** The tree with p hosting the inner node that x hosted. */
  ghost function Rename<K>(t: Tree<K>, x: EbNode<K>, p: EbNode<K>): Tree<K> {
    match t
    case Leaf(_) => t
    case Inner(n, bit, l, r) => Inner(if n == x then p else n, bit, Rename(l, x, p), Rename(r, x, p))
  }

  ghost function Deleted<K>(t: Tree<K>, x: EbNode<K>): Shape<K>
    requires x in Leaves(t)
  {
    if t.Leaf? then Empty else Full(Rename(Remove(t, x), x, LeafParent(t, x)))
  }

  lemma {:induction false} RemoveSets<K>(t: Tree<K>, x: EbNode<K>)
    requires Apart(t) && t.Inner? && x in Leaves(t)
    ensures Leaves(Remove(t, x)) == Leaves(t) - {x}
    ensures Inners(Remove(t, x)) == Inners(t) - {LeafParent(t, x)}
    ensures LeafParent(t, x) in Inners(t)
    ensures Apart(Remove(t, x))
  {
    if x in Leaves(t.l) && t.l.Inner? {
      RemoveSets(t.l, x);
    } else if x !in Leaves(t.l) && t.r.Inner? {
      RemoveSets(t.r, x);
    }
  }

  lemma {:induction false} RenameSets<K>(t: Tree<K>, x: EbNode<K>, p: EbNode<K>)
    requires Apart(t) && p !in Inners(t)
    ensures Leaves(Rename(t, x, p)) == Leaves(t) && Seq(Rename(t, x, p)) == Seq(t)
    ensures Inners(Rename(t, x, p)) == if x in Inners(t) then Inners(t) - {x} + {p} else Inners(t)
    ensures x !in Inners(t) ==> Rename(t, x, p) == t
    ensures Apart(Rename(t, x, p))
  {
    if t.Inner? {
      RenameSets(t.l, x, p);
      RenameSets(t.r, x, p);
    }
  }

  /** Deletion below one branch: the other branch stays, and the top is renamed if it was hosted by x. */
  lemma DeletedStep<K>(t: Tree<K>, x: EbNode<K>)
    requires Apart(t) && OwnBelow(t) && t.Inner? && x in Leaves(t)
    ensures x in Leaves(t.l) && t.l.Leaf? ==> Deleted(t, x) == Full(t.r) && x !in Leaves(t.r) && x !in Inners(t.r)
    ensures x in Leaves(t.r) && t.r.Leaf? ==> Deleted(t, x) == Full(t.l) && x !in Leaves(t.l) && x !in Inners(t.l)
    ensures x in Leaves(t.l) && t.l.Inner? ==>
      var p := LeafParent(t.l, x);
      && p in Leaves(t.l) && (t.n == x ==> p != x) && x !in Leaves(t.r)
      && Deleted(t, x) == Full(Inner(if t.n == x then p else t.n, t.bit, Deleted(t.l, x).t, t.r))
    ensures x in Leaves(t.r) && t.r.Inner? ==>
      var p := LeafParent(t.r, x);
      && p in Leaves(t.r) && (t.n == x ==> p != x) && x !in Leaves(t.l)
      && Deleted(t, x) == Full(Inner(if t.n == x then p else t.n, t.bit, t.l, Deleted(t.r, x).t))
  {
    InnersAreLeaves(t.l);
    InnersAreLeaves(t.r);
    var p := LeafParent(t, x);
    if x in Leaves(t.l) {
      RenameOther(t.r, x, p);
      if t.l.Inner? {
        RemoveSets(t.l, x);
      }
    } else {
      RenameOther(t.l, x, p);
      if t.r.Inner? {
        RemoveSets(t.r, x);
      }
    }
  }

  /** After the deletion every inner node, recycled or not, still has its own leaf below. */
  lemma {:induction false} DeletedOwn<K>(t: Tree<K>, x: EbNode<K>)
    requires Apart(t) && OwnBelow(t) && t.Inner? && x in Leaves(t)
    ensures OwnBelow(Deleted(t, x).t)
  {
    DeletedStep(t, x);
    RemoveSets(t, x);
    if x in Leaves(t.l) && t.l.Inner? {
      DeletedOwn(t.l, x);
      DeletedLeaves(t.l, x);
    } else if x in Leaves(t.r) && t.r.Inner? {
      DeletedOwn(t.r, x);
      DeletedLeaves(t.r, x);
    }
  }

  lemma DeletedLeaves<K>(t: Tree<K>, x: EbNode<K>)
    requires Apart(t) && t.Inner? && x in Leaves(t)
    ensures Leaves(Deleted(t, x).t) == Leaves(t) - {x}
  {
    RemoveSets(t, x);
    RenameSets(Remove(t, x), x, LeafParent(t, x));
  }

  /** The walking order loses exactly x. */
  lemma {:induction false} RemoveSeq<K>(t: Tree<K>, x: EbNode<K>) returns (a: seq<EbNode<K>>, b: seq<EbNode<K>>)
    requires t.Inner? && x in Leaves(t)
    ensures Seq(t) == a + [x] + b && Seq(Remove(t, x)) == a + b
  {
    if x in Leaves(t.l) {
      if t.l.Leaf? {
        a, b := [], [];
      } else {
        a, b := RemoveSeq(t.l, x);
      }
      assert a + [x] + b + Seq(t.r) == a + [x] + (b + Seq(t.r));
      assert a + b + Seq(t.r) == a + (b + Seq(t.r));
      b := b + Seq(t.r);
    } else if t.r.Leaf? {
      a, b := Seq(t.l), [];
    } else {
      a, b := RemoveSeq(t.r, x);
      assert Seq(t.l) + (a + [x] + b) == (Seq(t.l) + a) + [x] + b;
      assert Seq(t.l) + (a + b) == (Seq(t.l) + a) + b;
      a := Seq(t.l) + a;
    }
  }

  /** Where the leaf is known, so is what removing it yields. */
  lemma {:induction false} RemoveAt<K>(c: Ctx<K>, u: Tree<K>, x: EbNode<K>)
    requires u.Inner? && (u.l == Leaf(x) || u.r == Leaf(x)) && Apart(Plug(c, u))
    ensures x in Leaves(Plug(c, u)) && Plug(c, u).Inner?
    ensures Remove(Plug(c, u), x) == Plug(c, if u.l == Leaf(x) then u.r else u.l)
    ensures LeafParent(Plug(c, u), x) == u.n
  {
    PlugSets(c, u);
    PlugApart(c, u);
    assert u.r == Leaf(x) ==> x in Leaves(u.r);
    RemoveBelow(c, u, x);
  }

  lemma {:induction false} RemoveBelow<K>(c: Ctx<K>, u: Tree<K>, x: EbNode<K>)
    requires u.Inner? && x in Leaves(u) && Apart(Plug(c, u))
    ensures x in Leaves(Plug(c, u)) && Plug(c, u).Inner?
    ensures Remove(Plug(c, u), x) == Plug(c, Remove(u, x))
    ensures LeafParent(Plug(c, u), x) == LeafParent(u, x)
  {
    if !c.Top? {
      var g := Grow(c, u);
      PlugApart(c.up, g);
      RemoveBelow(c.up, g, x);
    }
  }

  lemma {:induction false} RenameAt<K>(c: Ctx<K>, u: Tree<K>, x: EbNode<K>, p: EbNode<K>)
    requires u.Inner? && u.n == x && Apart(Plug(c, u))
    ensures Rename(Plug(c, u), x, p) == Plug(c, Inner(p, u.bit, u.l, u.r))
  {
    PlugApart(c, u);
    RenameOther(u.l, x, p);
    RenameOther(u.r, x, p);
    RenameBelow(c, u, x, p);
  }

  lemma {:induction false} RenameOther<K>(t: Tree<K>, x: EbNode<K>, p: EbNode<K>)
    requires x !in Inners(t)
    ensures Rename(t, x, p) == t
  {
    if t.Inner? {
      RenameOther(t.l, x, p);
      RenameOther(t.r, x, p);
    }
  }

  lemma {:induction false} RenameBelow<K>(c: Ctx<K>, u: Tree<K>, x: EbNode<K>, p: EbNode<K>)
    requires x !in CInners(c)
    ensures Rename(Plug(c, u), x, p) == Plug(c, Rename(u, x, p))
  {
    if !c.Top? {
      RenameOther(if c.InLeft? then c.r else c.l, x, p);
      RenameBelow(c.up, Grow(c, u), x, p);
    }
  }

  // ---------------------------------------------------------------------------
  // Releasing the parent of the leaf

  /** What becomes of object y when the parent p of a leaf is released, s being the other branch. */
  ghost function UnhookCell<K>(cell: Cell<K>, y: EbNode<K>, p: EbNode<K>, c: Ctx<K>, s: Tree<K>,
                               head: EbNode<K>): Cell<K> {
    var held := if y == Owner(c, head) then WithHole(c, cell, Down(s)) else cell;
    var moved := if y != s.n then held
                 else if s.Leaf? then held.(leafP := Up(c, head))
                 else held.(nodeP := Up(c, head));
    if y == p then moved.(nodeP := Null(false)) else moved
  }

  ghost predicate Unhooked<K>(m: Mem<K>, m': Mem<K>, head: EbNode<K>, p: EbNode<K>, c: Ctx<K>, s: Tree<K>) {
    forall y | y in m :: y in m' && m'[y] == UnhookCell(m[y], y, p, c, s, head)
  }

  /** Other branch than the one holding leaf x. */
  ghost function Sibling<K>(u: Tree<K>, x: EbNode<K>): Tree<K>
    requires u.Inner?
  {
    if u.l == Leaf(x) then u.r else u.l
  }

  lemma UnhookLinks<K>(m: Mem<K>, m': Mem<K>, head: EbNode<K>, c: Ctx<K>, u: Tree<K>, x: EbNode<K>)
    requires u.Inner? && (u.l == Leaf(x) || u.r == Leaf(x))
    requires LinkedCtx(m, c, Down(u), head) && Linked(m, u, Up(c, head))
    requires CApart(c) && Apart(u) && Leaves(u) !! CLeaves(c) && Inners(u) !! CInners(c)
    requires head !in CInners(c) && head !in Inners(u)
    requires Unhooked(m, m', head, u.n, c, Sibling(u, x))
    ensures LinkedCtx(m', c, Down(Sibling(u, x)), head) && Linked(m', Sibling(u, x), Up(c, head))
  {
    var s := Sibling(u, x);
    assert s.Leaf? ==> s.n in Leaves(s);
    assert s.Inner? ==> s.n in Inners(s);
    assert u.n !in Inners(s) && Owner(c, head) !in Inners(s);
    UnhookBelow(m, m', head, c, s, u.n, To(u.n, if s == u.l then LEFT else RGHT));
    UnhookAbove(m, m', head, c, s, u.n, Down(u));
  }

  lemma UnhookBelow<K>(m: Mem<K>, m': Mem<K>, head: EbNode<K>, c: Ctx<K>, s: Tree<K>, p: EbNode<K>, up: Ref<K>)
    requires Linked(m, s, up) && Apart(s) && p !in Inners(s) && Owner(c, head) !in Inners(s)
    requires Unhooked(m, m', head, p, c, s)
    ensures Linked(m', s, Up(c, head))
  {
    RehangTree(m, m', s, up, Up(c, head));
  }

  lemma UnhookAbove<K>(m: Mem<K>, m': Mem<K>, head: EbNode<K>, c: Ctx<K>, s: Tree<K>, p: EbNode<K>, hole: Ref<K>)
    requires LinkedCtx(m, c, hole, head) && CApart(c) && head !in CInners(c)
    requires s.Leaf? ==> s.n !in CLeaves(c)
    requires s.Inner? ==> s.n !in CInners(c) && s.n != head
    requires p !in CInners(c) && p != head
    requires Unhooked(m, m', head, p, c, s)
    ensures LinkedCtx(m', c, Down(s), head)
  {
    RehangCtx(m, m', c, hole, Down(s), head);
  }

  // ---------------------------------------------------------------------------
  // Recycling the released node

  /** What becomes of object y when p takes over the node part of u.n. */
  ghost function RecycleCell<K>(cell: Cell<K>, y: EbNode<K>, p: EbNode<K>, c: Ctx<K>, u: Tree<K>,
                                head: EbNode<K>): Cell<K>
    requires u.Inner?
  {
    var held := if y == p then Cell(Down(u.l), Down(u.r), Up(c, head), cell.leafP, u.bit)
                else if y == Owner(c, head) then WithHole(c, cell, To(p, NODE)) else cell;
    var left := if y != u.l.n then held
                else if u.l.Leaf? then held.(leafP := To(p, LEFT)) else held.(nodeP := To(p, LEFT));
    if y != u.r.n then left
    else if u.r.Leaf? then left.(leafP := To(p, RGHT)) else left.(nodeP := To(p, RGHT))
  }

  ghost predicate Recycled<K>(m: Mem<K>, m': Mem<K>, head: EbNode<K>, p: EbNode<K>, c: Ctx<K>, u: Tree<K>)
    requires u.Inner?
  {
    && p in m
    && forall y | y in m :: y in m' && m'[y] == RecycleCell(m[y], y, p, c, u, head)
  }

  lemma RecycleLinks<K>(m: Mem<K>, m': Mem<K>, head: EbNode<K>, p: EbNode<K>, c: Ctx<K>, u: Tree<K>)
    requires u.Inner? && LinkedCtx(m, c, Down(u), head) && Linked(m, u, Up(c, head))
    requires CApart(c) && Apart(u) && Leaves(u) !! CLeaves(c) && Inners(u) !! CInners(c)
    requires head !in CInners(c) && head !in Inners(u)
    requires p != head && p !in CInners(c) && p !in Inners(u)
    requires Recycled(m, m', head, p, c, u)
    ensures LinkedCtx(m', c, To(p, NODE), head) && Linked(m', Inner(p, u.bit, u.l, u.r), Up(c, head))
  {
    RecycleBelow(m, m', head, p, c, u);
    assert forall s | s == u.l || s == u.r :: if s.Leaf? then s.n in Leaves(s) else s.n in Inners(s);
    RecycleAbove(m, m', head, p, c, u);
  }

  lemma RecycleAbove<K>(m: Mem<K>, m': Mem<K>, head: EbNode<K>, p: EbNode<K>, c: Ctx<K>, u: Tree<K>)
    requires u.Inner? && LinkedCtx(m, c, Down(u), head) && CApart(c) && head !in CInners(c)
    requires forall s | s == u.l || s == u.r ::
      if s.Leaf? then s.n !in CLeaves(c) else s.n !in CInners(c) && s.n != head
    requires p != head && p !in CInners(c) && Recycled(m, m', head, p, c, u)
    ensures LinkedCtx(m', c, To(p, NODE), head)
  {
    RehangCtx(m, m', c, Down(u), To(p, NODE), head);
  }

  lemma RecycleBelow<K>(m: Mem<K>, m': Mem<K>, head: EbNode<K>, p: EbNode<K>, c: Ctx<K>, u: Tree<K>)
    requires u.Inner? && Linked(m, u, Up(c, head)) && Apart(u) && Owner(c, head) !in Inners(u)
    requires p !in Inners(u) && Recycled(m, m', head, p, c, u)
    ensures Linked(m', Inner(p, u.bit, u.l, u.r), Up(c, head))
  {
    assert u.l.n in Leaves(u.l) + Inners(u.l) && u.r.n in Leaves(u.r) + Inners(u.r);
    RehangTree(m, m', u.l, To(u.n, LEFT), To(p, LEFT));
    RehangTree(m, m', u.r, To(u.n, RGHT), To(p, RGHT));
  }

  // ---------------------------------------------------------------------------
  // The deletion on linked objects

  lemma InnerHasParent<K>(m: Mem<K>, head: EbNode<K>, t: Tree<K>, x: EbNode<K>)
    requires x in Inners(t) && head in m && m[head].b0 == Down(t) && Linked(m, t, To(head, LEFT))
    ensures x in m && m[x].nodeP.To?
  {
    var (c, u) := InnerCtx(Top, t, x);
    PlugLinked(m, c, u, head);
  }

  /** After the first step x hangs nowhere, and its node part is unused exactly when no inner node is
      hosted by x any more. */
  lemma UnhookedFacts<K>(m: Mem<K>, m': Mem<K>, head: EbNode<K>, c: Ctx<K>, u: Tree<K>, x: EbNode<K>)
    requires u.Inner? && (u.l == Leaf(x) || u.r == Leaf(x)) && Represents(m, head, Plug(c, u))
    requires Unhooked(m, m', head, u.n, c, Sibling(u, x))
    ensures LinkedCtx(m', c, Down(Sibling(u, x)), head) && Linked(m', Sibling(u, x), Up(c, head))
    ensures head in m && head in m' && m'[head].b1 == m[head].b1 && m'[head].b1.Null?
    ensures x in m' && u.n in m' && u.n != head && m'[u.n].nodeP.Null?
    ensures forall y | y in Leaves(Plug(c, u)) && y !in Inners(Plug(c, u)) :: y in m' && m'[y].nodeP.Null?
  {
    var t := Plug(c, u);
    PlugSets(c, u);
    PlugApart(c, u);
    LinkedAt(m, head, c, u);
    assert Sibling(u, x).n in Leaves(Sibling(u, x)) + Inners(Sibling(u, x));
    UnhookLinks(m, m', head, c, u, x);
  }

  /** The tree left by the first step. */
  lemma UnhookedShape<K>(c: Ctx<K>, u: Tree<K>, x: EbNode<K>)
    requires u.Inner? && (u.l == Leaf(x) || u.r == Leaf(x)) && Apart(Plug(c, u))
    ensures var t, t' := Plug(c, u), Plug(c, Sibling(u, x));
      && x in Leaves(t) && t.Inner?
      && Remove(t, x) == t' && LeafParent(t, x) == u.n
      && Apart(t') && Leaves(t') == Leaves(t) - {x} && Inners(t') == Inners(t) - {u.n} && u.n in Inners(t)
      && (x !in Inners(t') ==> Deleted(t, x) == Full(t'))
  {
    RemoveAt(c, u, x);
    RemoveSets(Plug(c, u), x);
    RenameSets(Plug(c, Sibling(u, x)), x, u.n);
  }

  /** Attaches the other branch of the released parent to the grand parent. */
  method Unhook<K>(parent: EbNode<K>, pside: bool, ghost m: Mem<K>, ghost head: EbNode<K>, ghost c: Ctx<K>,
                   ghost u: Tree<K>, ghost x: EbNode<K>)
    requires Represents(m, head, Plug(c, u)) && m == Snap(m.Keys)
    requires u.Inner? && u.n == parent && (if pside then u.r else u.l) == Leaf(x) && u.l != u.r
    modifies m.Keys
    ensures Unhooked(m, Snap(m.Keys), head, parent, c, Sibling(u, x))
  {
    hide Represents, Linked, LinkedCtx, Plug, Leaves, Inners;
    LinkedAt(m, head, c, u);
    SiblingIn(m, head, c, u, x);
    var gpside := parent.nodeP.tag;
    var gparent := parent.nodeP.node;
    var sibling := parent.Branch(!pside);
    SetBranch(gparent, gpside, sibling, m);
    ghost var m1 := Snap(m.Keys);
    SetUp(sibling, To(gparent, gpside), m1);
    ghost var m2 := Snap(m.Keys);
    parent.nodeP := Null(false);
    ghost var m3 := Snap(m.Keys);
    assert m3 == m2[parent := m2[parent].(nodeP := Null(false))];
    UnhookSteps(m, m1, m2, m3, head, parent, c, Sibling(u, x));
  }

  lemma UnhookSteps<K>(m: Mem<K>, m1: Mem<K>, m2: Mem<K>, m3: Mem<K>, head: EbNode<K>, p: EbNode<K>, c: Ctx<K>,
                       s: Tree<K>)
    requires Owner(c, head) in m && s.n in m && p in m
    requires var o := Owner(c, head); m1 == m[o := WithHole(c, m[o], Down(s))]
    requires m2 == m1[s.n := if s.Leaf? then m1[s.n].(leafP := Up(c, head)) else m1[s.n].(nodeP := Up(c, head))]
    requires m3 == m2[p := m2[p].(nodeP := Null(false))]
    ensures Unhooked(m, m3, head, p, c, s)
  {
  }

  lemma SiblingIn<K>(m: Mem<K>, head: EbNode<K>, c: Ctx<K>, u: Tree<K>, x: EbNode<K>)
    requires u.Inner? && Represents(m, head, Plug(c, u))
    ensures u.l.n in m && u.r.n in m
    ensures Owner(c, head) != u.n
  {
    PlugLinked(m, c, u, head);
    PlugApart(c, u);
    PlugSets(c, u);
  }

  /** Puts the spare node where the node part of the deleted object is. */
  method Recycle<K>(node: EbNode<K>, parent: EbNode<K>, ghost m: Mem<K>, ghost head: EbNode<K>, ghost c: Ctx<K>,
                    ghost u: Tree<K>)
    requires m == Snap(m.Keys) && parent in m && node in m && u.Inner?
    requires m[node] == Cell(Down(u.l), Down(u.r), Up(c, head), m[node].leafP, u.bit)
    requires u.l.n in m && u.r.n in m && Owner(c, head) in m
    requires Owner(c, head) != parent && node != parent
    modifies m.Keys
    ensures Recycled(m, Snap(m.Keys), head, parent, c, u)
  {
    parent.nodeP := node.nodeP;
    parent.b0, parent.b1 := node.b0, node.b1;
    parent.bit := node.bit;
    ghost var m1 := Snap(m.Keys);
    assert m1 == m[parent := m[node].(leafP := m[parent].leafP)];
    var gpside := parent.nodeP.tag;
    SetBranch(parent.nodeP.node, gpside, To(parent, NODE), m1);
    ghost var m2 := Snap(m.Keys);
    assert parent.b0 == m2[parent].b0;
    SetUp(parent.b0, To(parent, LEFT), m2);
    ghost var m3 := Snap(m.Keys);
    assert parent.b1 == m3[parent].b1;
    SetUp(parent.b1, To(parent, RGHT), m3);
    RecycleSteps(m, m1, m2, m3, Snap(m.Keys), head, parent, c, u);
  }

  lemma RecycleSteps<K>(m: Mem<K>, m1: Mem<K>, m2: Mem<K>, m3: Mem<K>, m4: Mem<K>, head: EbNode<K>, p: EbNode<K>,
                        c: Ctx<K>, u: Tree<K>)
    requires u.Inner? && Owner(c, head) in m && u.l.n in m && u.r.n in m && p in m && Owner(c, head) != p
    requires m1 == m[p := Cell(Down(u.l), Down(u.r), Up(c, head), m[p].leafP, u.bit)]
    requires var o := Owner(c, head); m2 == m1[o := WithHole(c, m1[o], To(p, NODE))]
    requires var l := u.l.n;
      m3 == m2[l := if u.l.Leaf? then m2[l].(leafP := To(p, LEFT)) else m2[l].(nodeP := To(p, LEFT))]
    requires var r := u.r.n;
      m4 == m3[r := if u.r.Leaf? then m3[r].(leafP := To(p, RGHT)) else m3[r].(nodeP := To(p, RGHT))]
    ensures Recycled(m, m4, head, p, c, u)
  {
  }

  /** What recycling needs to know about the memory left by the first step. */
  lemma RecycleReady<K>(m: Mem<K>, head: EbNode<K>, t: Tree<K>, x: EbNode<K>, p: EbNode<K>, c: Ctx<K>, u: Tree<K>)
    requires x in Inners(t) && Apart(t) && head !in Inners(t) && p !in Inners(t) && p != head
    requires (c, u) == InnerCtx(Top, t, x)
    requires head in m && m[head].b0 == Down(t) && Linked(m, t, To(head, LEFT))
    ensures u.Inner? && u.n == x && Plug(c, u) == t && x != p
    ensures x in m && m[x] == Cell(Down(u.l), Down(u.r), Up(c, head), m[x].leafP, u.bit)
    ensures u.l.n in m && u.r.n in m && Owner(c, head) in m && Owner(c, head) != p
    ensures LinkedCtx(m, c, Down(u), head) && Linked(m, u, Up(c, head))
    ensures CApart(c) && Apart(u) && Leaves(u) !! CLeaves(c) && Inners(u) !! CInners(c)
    ensures head !in CInners(c) && head !in Inners(u) && p !in CInners(c) && p !in Inners(u)
  {
    PlugLinked(m, c, u, head);
    hide Apart, CApart;
    PlugApart(c, u);
    PlugSets(c, u);
    ReadyCell(m, head, c, u);
  }

  lemma ReadyCell<K>(m: Mem<K>, head: EbNode<K>, c: Ctx<K>, u: Tree<K>)
    requires u.Inner? && LinkedCtx(m, c, Down(u), head) && Linked(m, u, Up(c, head))
    ensures u.n in m && m[u.n] == Cell(Down(u.l), Down(u.r), Up(c, head), m[u.n].leafP, u.bit)
    ensures u.l.n in m && u.r.n in m && Owner(c, head) in m && Owner(c, head) in CInners(c) + {head}
  {
  }

  /** The spare nodes and the head are not touched by recycling. */
  lemma RecycleKeeps<K>(m: Mem<K>, m': Mem<K>, head: EbNode<K>, p: EbNode<K>, c: Ctx<K>, u: Tree<K>)
    requires u.Inner? && Recycled(m, m', head, p, c, u) && head in m && p != head
    requires head !in CInners(c) && head !in Inners(u)
    ensures head in m' && m'[head].b1 == m[head].b1
    ensures forall y | y in m && y !in Inners(u) && y != p :: y in m' && m'[y].nodeP == m[y].nodeP
  {
    assert forall s | s == u.l || s == u.r :: s.Inner? ==> s.n in Inners(s);
  }

  /** Whatever the case, the memory left represents the tree without x. */
  lemma DeletedRepresents<K>(m: Mem<K>, head: EbNode<K>, t: Tree<K>, x: EbNode<K>)
    requires t.Inner? && x in Leaves(t) && Apart(t) && OwnBelow(t) && head !in Leaves(t)
    requires var t' := Deleted(t, x).t;
      head in m && m[head].b1.Null? && m[head].b0 == Down(t') && Linked(m, t', To(head, LEFT))
    requires forall y | y in Leaves(t) && y !in Inners(t) :: y in m && m[y].nodeP.Null?
    requires var p := LeafParent(t, x); x !in Inners(Remove(t, x)) ==> p in m && m[p].nodeP.Null?
    ensures Represents(m, head, Deleted(t, x).t)
    ensures Leaves(Deleted(t, x).t) == Leaves(t) - {x} && Inners(Deleted(t, x).t) <= Leaves(t) - {x}
  {
    var p := LeafParent(t, x);
    RemoveSets(t, x);
    RenameSets(Remove(t, x), x, p);
    DeletedOwn(t, x);
    InnersAreLeaves(Deleted(t, x).t);
  }

  lemma DeletedSets<K>(t: Tree<K>, x: EbNode<K>)
    requires t.Inner? && x in Leaves(t) && Apart(t) && OwnBelow(t)
    ensures Deleted(t, x).Full?
    ensures var t' := Deleted(t, x).t;
      Leaves(t') == Leaves(t) - {x} && Inners(t') <= Leaves(t) - {x} && Apart(t') && OwnBelow(t')
  {
    RemoveSets(t, x);
    RenameSets(Remove(t, x), x, LeafParent(t, x));
    DeletedOwn(t, x);
    InnersAreLeaves(Deleted(t, x).t);
  }

  /** The walking order loses exactly the deleted entry. */
  lemma DeletedSeq<K>(t: Tree<K>, x: EbNode<K>)
    requires t.Inner? && x in Leaves(t) && Apart(t)
    ensures forall i | 0 <= i < |Seq(t)| && Seq(t)[i] == x :: Seq(Deleted(t, x).t) == Seq(t)[..i] + Seq(t)[i + 1..]
  {
    var a, b := RemoveSeq(t, x);
    RemoveSets(t, x);
    RenameSets(Remove(t, x), x, LeafParent(t, x));
    SeqNoRepeats(t);
    forall i | 0 <= i < |Seq(t)| && Seq(t)[i] == x
      ensures Seq(Deleted(t, x).t) == Seq(t)[..i] + Seq(t)[i + 1..]
    {
      assert Seq(t)[|a|] == x;
      assert i == |a|;
    }
  }

  /** The inner node right above leaf x, in its context. */
  ghost function AboveLeaf<K>(t: Tree<K>, x: EbNode<K>): (Ctx<K>, Tree<K>)
    requires x in Leaves(t)
  {
    var c := LeafCtx(Top, t, x);
    if c.Top? then (Top, Leaf(x)) else (c.up, Grow(c, Leaf(x)))
  }

  /** Where the pointers of a linked leaf lead. */
  lemma LeafPlace<K>(tree: EbTree<K>, x: EbNode<K>, c: Ctx<K>, u: Tree<K>)
    requires tree.Valid() && tree.model.Full? && x in Leaves(tree.model.t) && (c, u) == AboveLeaf(tree.model.t, x)
    ensures x.leafP.To?
    ensures tree.model.t.Leaf? <==> x.leafP.node.b1.Null?
    ensures tree.model.t.Leaf? ==> tree.model.t == Leaf(x) && x.leafP.node == tree.head
    ensures tree.model.t.Inner? ==>
      && Plug(c, u) == tree.model.t && u.Inner? && x.leafP.node == u.n && u.n in tree.Objects() && !u.n.b1.Null?
      && (if x.leafP.tag then u.r else u.l) == Leaf(x) && u.l != u.r
  {
    var t, m := tree.model.t, Snap(tree.Objects());
    var c0 := LeafCtx(Top, t, x);
    PlugLinked(m, c0, Leaf(x), tree.head);
    assert m[x].leafP == x.leafP;
    if !c0.Top? {
      assert m[u.n].b1 == u.n.b1;
      PlugApart(c, u);
    }
  }

  /** Below head, memory m links t, and objects that no inner node of t1 uses are marked unused. */
  ghost predicate Hangs<K>(m: Mem<K>, head: EbNode<K>, t: Tree<K>, leaves: set<EbNode<K>>, used: set<EbNode<K>>) {
    && head in m && m[head].b1.Null? && m[head].b0 == Down(t) && Linked(m, t, To(head, LEFT))
    && forall y | y in leaves && y !in used :: y in m && m[y].nodeP.Null?
  }

  lemma FirstStep<K>(m: Mem<K>, m': Mem<K>, head: EbNode<K>, c: Ctx<K>, u: Tree<K>, x: EbNode<K>)
    requires u.Inner? && (u.l == Leaf(x) || u.r == Leaf(x)) && Represents(m, head, Plug(c, u))
    requires Unhooked(m, m', head, u.n, c, Sibling(u, x))
    ensures var t := Plug(c, u);
      && t.Inner? && x in Leaves(t) && LeafParent(t, x) == u.n
      && Hangs(m', head, Remove(t, x), Leaves(t), Inners(t))
      && x in m' && u.n in m' && m'[u.n].nodeP.Null? && head in m && m'[head].b1 == m[head].b1
      && (m'[x].nodeP.Null? <==> x !in Inners(Remove(t, x)))
      && (m'[x].nodeP.Null? ==> Represents(m', head, Deleted(t, x).t))
  {
    hide Represents, Linked, LinkedCtx, Plug, Unhooked, Remove, Rename, LeafParent, Apart, CApart, OwnBelow;
    hide Sibling, Leaves, Inners, CLeaves, CInners;
    var t := Plug(c, u);
    var t1 := Plug(c, Sibling(u, x));
    RepresentsParts(m, head, t);
    UnhookedFacts(m, m', head, c, u, x);
    UnhookedShape(c, u, x);
    PlugLinked(m', c, Sibling(u, x), head);
    if x in Inners(t1) {
      InnerHasParent(m', head, t1, x);
    }
    if m'[x].nodeP.Null? {
      DeletedRepresents(m', head, t, x);
    }
  }

  lemma RepresentsParts<K>(m: Mem<K>, head: EbNode<K>, t: Tree<K>)
    requires Represents(m, head, t)
    ensures Apart(t) && OwnBelow(t) && head !in Leaves(t) && head !in Inners(t)
  {
  }

  lemma SecondStep<K>(m: Mem<K>, m': Mem<K>, head: EbNode<K>, t: Tree<K>, x: EbNode<K>, p: EbNode<K>, c: Ctx<K>,
                      u: Tree<K>)
    requires t.Inner? && x in Leaves(t) && Apart(t) && OwnBelow(t) && head !in Leaves(t) && p == LeafParent(t, x)
    requires Hangs(m, head, Remove(t, x), Leaves(t), Inners(t)) && x in Inners(Remove(t, x))
    requires u.Inner? && u.n == x && Plug(c, u) == Remove(t, x)
    requires p != head && p !in CInners(c) && p !in Inners(u) && head !in CInners(c) && head !in Inners(u)
    requires CApart(c) && Apart(u) && Leaves(u) !! CLeaves(c) && Inners(u) !! CInners(c)
    requires Recycled(m, m', head, p, c, u)
    ensures Represents(m', head, Deleted(t, x).t) && head in m' && m'[head].b1 == m[head].b1
  {
    hide Represents, Linked, LinkedCtx, Plug, Recycled, Remove, Rename, LeafParent, Apart, CApart, OwnBelow;
    hide Leaves, Inners, CLeaves, CInners;
    var t1 := Remove(t, x);
    RemoveSets(t, x);
    PlugSets(c, u);
    PlugLinked(m, c, u, head);
    RecycleLinks(m, m', head, p, c, u);
    RecycleKeeps(m, m', head, p, c, u);
    RenameAt(c, u, x, p);
    PlugLinked(m', c, Inner(p, u.bit, u.l, u.r), head);
    DeletedRepresents(m', head, t, x);
  }

  /** The linked part of the deletion, for an entry that does not hang right below the head. */
  method Relink<K>(node: EbNode<K>, parent: EbNode<K>, pside: bool, ghost m: Mem<K>, ghost head: EbNode<K>,
                   ghost c: Ctx<K>, ghost u: Tree<K>)
    requires Represents(m, head, Plug(c, u)) && m == Snap(m.Keys)
    requires u.Inner? && u.n == parent && (if pside then u.r else u.l) == Leaf(node) && u.l != u.r
    modifies m.Keys
    ensures node in Leaves(Plug(c, u)) && Plug(c, u).Inner?
    ensures Represents(Snap(m.Keys), head, Deleted(Plug(c, u), node).t)
    ensures head in m && head.b1 == m[head].b1
  {
    hide Represents, Linked, LinkedCtx, Plug, Unhooked, Recycled, Remove, LeafParent, Apart, CApart, OwnBelow, Deleted;
    hide Sibling, Leaves, Inners, CLeaves, CInners;
    ghost var t := Plug(c, u);
    Unhook(parent, pside, m, head, c, u, node);
    ghost var m1 := Snap(m.Keys);
    FirstStep(m, m1, head, c, u, node);
    assert m1[node].nodeP == node.nodeP;
    if !node.nodeP.Null? {
      RepresentsParts(m, head, t);
      RemoveSets(t, node);
      ghost var (c2, u2) := InnerCtx(Top, Remove(t, node), node);
      RecycleReady(m1, head, Remove(t, node), node, parent, c2, u2);
      Recycle(node, parent, m1, head, c2, u2);
      SecondStep(m1, Snap(m.Keys), head, t, node, parent, c2, u2);
    }
  }

  /** What is left of a tree once x is not linked in it. */
  ghost function Without<K>(s: Shape<K>, x: EbNode<K>): Shape<K> {
    if s.Full? && x in Leaves(s.t) then Deleted(s.t, x) else s
  }

  /** __eb_delete: unlinks the entry, if it is linked. */
  method Delete<K>(ghost tree: EbTree<K>, node: EbNode<K>)
    requires tree.Valid() && (node in tree.Elements() || node.leafP.Null?)
    modifies tree, tree.Objects(), node
    ensures tree.Valid() && tree.IsUnique() == old(tree.IsUnique())
    ensures node.leafP.Null? && tree.model == Without(old(tree.model), node)
    ensures tree.Elements() ==
      if node !in old(tree.Elements()) then old(tree.Elements())
      else old(tree.Elements()[..tree.Rank(node)] + tree.Elements()[tree.Rank(node) + 1..])
  {
    hide Represents, Linked, LinkedCtx, Plug, Apart, OwnBelow, Inners;
    ghost var c, u, m := Top, Leaf(node), Snap(tree.Objects());
    if tree.model.Full? {
      SeqLeaves(tree.model.t);
    }
    if node in tree.Elements() {
      ghost var (c0, u0) := AboveLeaf(tree.model.t, node);
      c, u := c0, u0;
      LeafPlace(tree, node, c, u);
    }
    if node.leafP.Null? {
      return;
    }
    var pside := node.leafP.tag;
    var parent := node.leafP.node;
    if parent.b1.Null? {
      parent.b0 := Null(false);
      tree.model := Empty;
      node.leafP := Null(false);
      return;
    }
    Detach(tree, node, parent, pside, m, c, u);
  }

  method Detach<K>(ghost tree: EbTree<K>, node: EbNode<K>, parent: EbNode<K>, pside: bool, ghost m: Mem<K>,
                   ghost c: Ctx<K>, ghost u: Tree<K>)
    requires tree.Valid() && tree.model == Full(Plug(c, u)) && m == Snap(tree.Objects())
    requires node in Leaves(Plug(c, u)) && node in tree.Elements()
    requires u.Inner? && u.n == parent && (if pside then u.r else u.l) == Leaf(node) && u.l != u.r
    modifies tree, tree.Objects()
    ensures tree.Valid() && tree.head.b1 == old(tree.head.b1)
    ensures node.leafP.Null? && Plug(c, u).Inner? && tree.model == Deleted(Plug(c, u), node)
    ensures tree.Elements() == old(tree.Elements()[..tree.Rank(node)] + tree.Elements()[tree.Rank(node) + 1..])
  {
    hide Represents, Linked, LinkedCtx, Plug, Apart, OwnBelow, Inners, Leaves, Deleted, Seq;
    ghost var t := Plug(c, u);
    RepresentsParts(m, tree.head, t);
    Relink(node, parent, pside, m, tree.head, c, u);
    ghost var m1 := Snap(m.Keys);
    DeletedSets(t, node);
    DeletedSeq(t, node);
    tree.model := Deleted(t, node);
    node.leafP := Null(false);
    RepresentsStill(m1, Snap(tree.Objects()), tree.head, tree.model.t);
  }
}
