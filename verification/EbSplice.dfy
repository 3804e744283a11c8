/** Inserting a fresh object just above a linked subtree: the pointer changes shared by every insert. */
module EbSplice {
  import opened EbTree

  /** A represented tree is linked on both sides of any hole. */
  lemma LinkedAt<K>(m: Mem<K>, head: EbNode<K>, c: Ctx<K>, s: Tree<K>)
    requires Represents(m, head, Plug(c, s))
    ensures LinkedCtx(m, c, Down(s), head) && Linked(m, s, Up(c, head))
    ensures s.n in m && s.n in Leaves(Plug(c, s))
    ensures Owner(c, head) in m && Owner(c, head) in Leaves(Plug(c, s)) + {head}
    ensures !c.Top? ==> Owner(c, head) != head
    ensures s.Leaf? ==> m[s.n].leafP == Up(c, head)
    ensures s.Inner? ==> m[s.n] == Cell(Down(s.l), Down(s.r), Up(c, head), m[s.n].leafP, s.bit)
  {
    PlugLinked(m, c, s, head);
    PlugSets(c, s);
    InnersAreLeaves(Plug(c, s));
  }

  /** The subtree with a new inner node on top; its own leaf goes on the right or on the left. */
  ghost function Graft<K>(x: EbNode<K>, bit: int, s: Tree<K>, right: bool): Tree<K> {
    if right then Inner(x, bit, s, Leaf(x)) else Inner(x, bit, Leaf(x), s)
  }

  /** The new object's fields. */
  ghost function GraftCell<K>(x: EbNode<K>, bit: int, s: Tree<K>, right: bool, up: Ref<K>): Cell<K> {
    if right then Cell(Down(s), To(x, LEAF), up, To(x, RGHT), bit)
    else Cell(To(x, LEAF), Down(s), up, To(x, LEFT), bit)
  }

  /** What becomes of any other object: the owner of the branch now holds x, and the top of the
      subtree now hangs below x. */
  ghost function SpliceCell<K>(cell: Cell<K>, y: EbNode<K>, x: EbNode<K>, c: Ctx<K>, s: Tree<K>, right: bool,
                               head: EbNode<K>): Cell<K> {
    var held := if y == Owner(c, head) then WithHole(c, cell, To(x, NODE)) else cell;
    if y != s.n then held
    else if s.Leaf? then held.(leafP := To(x, !right))
    else held.(nodeP := To(x, !right))
  }

  ghost predicate Spliced<K>(m: Mem<K>, m': Mem<K>, head: EbNode<K>, c: Ctx<K>, s: Tree<K>, x: EbNode<K>, bit: int,
                             right: bool) {
    && x in m' && m'[x] == GraftCell(x, bit, s, right, Up(c, head))
    && forall y | y in m && y != x :: y in m' && m'[y] == SpliceCell(m[y], y, x, c, s, right, head)
  }

  /** x is linked nowhere yet. */
  ghost predicate Unused<K>(x: EbNode<K>, c: Ctx<K>, s: Tree<K>, head: EbNode<K>) {
    x !in CLeaves(c) && x !in CInners(c) && x !in Leaves(s) && x !in Inners(s) && x != head
  }

  lemma SpliceBelow<K>(m: Mem<K>, m': Mem<K>, head: EbNode<K>, c: Ctx<K>, s: Tree<K>, x: EbNode<K>, bit: int,
                       right: bool)
    requires Linked(m, s, Up(c, head)) && Apart(s)
    requires Owner(c, head) !in Inners(s)
    requires Unused(x, c, s, head) && Spliced(m, m', head, c, s, x, bit, right)
    ensures Linked(m', Graft(x, bit, s, right), Up(c, head))
  {
    RehangTree(m, m', s, Up(c, head), To(x, !right));
  }

  lemma SpliceAbove<K>(m: Mem<K>, m': Mem<K>, head: EbNode<K>, c: Ctx<K>, s: Tree<K>, x: EbNode<K>, bit: int,
                       right: bool)
    requires LinkedCtx(m, c, Down(s), head) && CApart(c) && head !in CInners(c)
    requires s.Leaf? ==> s.n !in CLeaves(c)
    requires s.Inner? ==> s.n !in CInners(c) && s.n != head
    requires Unused(x, c, s, head) && Spliced(m, m', head, c, s, x, bit, right)
    ensures LinkedCtx(m', c, To(x, NODE), head)
  {
    RehangCtx(m, m', c, Down(s), To(x, NODE), head);
  }

  lemma SpliceApart<K>(c: Ctx<K>, s: Tree<K>, x: EbNode<K>, bit: int, right: bool)
    requires Apart(Plug(c, s)) && OwnBelow(Plug(c, s)) && x !in Leaves(Plug(c, s))
    ensures Apart(Plug(c, Graft(x, bit, s, right))) && OwnBelow(Plug(c, Graft(x, bit, s, right)))
    ensures Leaves(Plug(c, Graft(x, bit, s, right))) == Leaves(Plug(c, s)) + {x}
    ensures Inners(Plug(c, Graft(x, bit, s, right))) == Inners(Plug(c, s)) + {x}
  {
    var g := Graft(x, bit, s, right);
    InnersAreLeaves(Plug(c, s));
    PlugSets(c, s);
    PlugSets(c, g);
    PlugApart(c, s);
    PlugApart(c, g);
    OwnInside(c, s);
    OwnReplaced(c, s, g);
  }

  /** After the splice the memory represents the grafted tree. */
  lemma SpliceRepresents<K>(m: Mem<K>, m': Mem<K>, head: EbNode<K>, c: Ctx<K>, s: Tree<K>, x: EbNode<K>, bit: int,
                            right: bool)
    requires Represents(m, head, Plug(c, s))
    requires x !in Leaves(Plug(c, s)) && x != head
    requires Spliced(m, m', head, c, s, x, bit, right)
    ensures Represents(m', head, Plug(c, Graft(x, bit, s, right)))
    ensures Leaves(Plug(c, Graft(x, bit, s, right))) == Leaves(Plug(c, s)) + {x}
    ensures Inners(Plug(c, Graft(x, bit, s, right))) == Inners(Plug(c, s)) + {x}
  {
    hide Plug, Apart, CApart, OwnBelow, Linked, LinkedCtx;
    var g := Graft(x, bit, s, right);
    InnersAreLeaves(Plug(c, s));
    PlugSets(c, s);
    assert s.n in Leaves(s) + Inners(s);
    SpliceApart(c, s, x, bit, right);
    PlugApart(c, s);
    PlugLinked(m, c, s, head);
    assert Unused(x, c, s, head);
    assert Owner(c, head) !in Inners(s);
    SpliceBelow(m, m', head, c, s, x, bit, right);
    SpliceAbove(m, m', head, c, s, x, bit, right);
    PlugLinked(m', c, g, head);
  }

  /** The same, for the current memory: the tree is valid once its model is the grafted tree. */
  lemma SpliceValid<K>(tree: EbTree<K>, m: Mem<K>, c: Ctx<K>, s: Tree<K>, x: EbNode<K>, bit: int, right: bool)
    requires Represents(m, tree.head, Plug(c, s))
    requires x !in Leaves(Plug(c, s)) && x != tree.head
    requires m.Keys == {tree.head} + (Leaves(Plug(c, s)) + Inners(Plug(c, s))) + {x}
    requires Spliced(m, Snap(m.Keys), tree.head, c, s, x, bit, right)
    requires tree.model == Full(Plug(c, Graft(x, bit, s, right)))
    ensures tree.Valid()
  {
    hide Plug, Represents, Leaves, Inners, Spliced, Graft;
    SpliceRepresents(m, Snap(m.Keys), tree.head, c, s, x, bit, right);
    assert tree.Objects() == m.Keys;
  }

  // ---------------------------------------------------------------------------
  // The pointer writes

  /** b[side] := r on object o. */
  method SetBranch<K>(o: EbNode<K>, side: bool, r: Ref<K>, ghost m: Mem<K>)
    requires o in m && m == Snap(m.Keys)
    modifies o
    ensures Snap(m.Keys) == m[o := if side == RGHT then m[o].(b1 := r) else m[o].(b0 := r)]
  {
    o.SetBranch(side, r);
  }

  /** Makes `up` the upward pointer of whatever hangs on a branch. */
  method SetUp<K>(child: Ref<K>, up: Ref<K>, ghost m: Mem<K>)
    requires child.To? && child.node in m && m == Snap(m.Keys)
    modifies child.node
    ensures Snap(m.Keys) ==
      m[child.node := if child.tag == LEAF then m[child.node].(leafP := up) else m[child.node].(nodeP := up)]
  {
    if child.tag == LEAF {
      child.node.leafP := up;
    } else {
      child.node.nodeP := up;
    }
  }

  /** Puts x between root and what hangs on root's branch `side`; x already has its bit and its upward
      pointer. The leaf of x goes on the right or on the left of the new node. */
  method PlaceAbove<K>(x: EbNode<K>, troot: Ref<K>, root: EbNode<K>, side: bool, right: bool, ghost m: Mem<K>,
                       ghost head: EbNode<K>, ghost c: Ctx<K>, ghost s: Tree<K>)
    requires Represents(m, head, Plug(c, s)) && x !in Leaves(Plug(c, s)) && x != head && x in m && m == Snap(m.Keys)
    requires troot == Down(s) && To(root, side) == Up(c, head) == x.nodeP
    modifies m.Keys
    ensures x.bit == old(x.bit) && Spliced(m, Snap(m.Keys), head, c, s, x, x.bit, right)
    ensures head.b1 == old(head.b1)
  {
    hide Represents, Linked, LinkedCtx, Plug, Leaves, Inners;
    LinkedAt(m, head, c, s);
    if right {
      x.b0 := troot;
      x.b1 := To(x, LEAF);
    } else {
      x.b0 := To(x, LEAF);
      x.b1 := troot;
    }
    x.leafP := To(x, right);
    ghost var m1 := Snap(m.Keys);
    assert m1 == m[x := GraftCell(x, m[x].bit, s, right, Up(c, head))];
    SetUp(troot, To(x, !right), m1);
    ghost var m2 := Snap(m.Keys);
    SetBranch(root, side, To(x, NODE), m2);
    PlaceSteps(m, m1, m2, Snap(m.Keys), head, c, s, x, x.bit, right);
  }

  lemma PlaceSteps<K>(m: Mem<K>, m1: Mem<K>, m2: Mem<K>, m3: Mem<K>, head: EbNode<K>, c: Ctx<K>, s: Tree<K>,
                      x: EbNode<K>, bit: int, right: bool)
    requires x in m && s.n in m && Owner(c, head) in m && x != s.n && x != Owner(c, head)
    requires m1 == m[x := GraftCell(x, bit, s, right, Up(c, head))]
    requires m2 == m1[s.n := if s.Leaf? then m1[s.n].(leafP := To(x, !right)) else m1[s.n].(nodeP := To(x, !right))]
    requires var o := Owner(c, head); m3 == m2[o := WithHole(c, m2[o], To(x, NODE))]
    ensures Spliced(m, m3, head, c, s, x, bit, right)
  {
  }

  /** x is not linked in the tree. */
  ghost predicate IsNew<K>(tree: EbTree<K>, x: EbNode<K>)
    reads tree
  {
    x !in tree.Elements() && x != tree.head
  }

  /** The first entry hangs right below the head and its node part is unused. */
  method InsertFirst<K>(tree: EbTree<K>, x: EbNode<K>)
    requires tree.Valid() && tree.model.Empty? && x != tree.head
    modifies tree, tree.head, x
    ensures tree.Valid() && tree.model == Full(Leaf(x)) && tree.IsUnique() == old(tree.IsUnique())
  {
    tree.head.b0 := To(x, LEAF);
    x.leafP := To(tree.head, LEFT);
    x.nodeP := Null(false);
    tree.model := Full(Leaf(x));
    assert Linked(Snap(tree.Objects()), Leaf(x), To(tree.head, LEFT));
  }

  /** Links x above the subtree the descent stopped at. */
  method Attach<K>(tree: EbTree<K>, x: EbNode<K>, root: EbNode<K>, side: bool, troot: Ref<K>, right: bool,
                   ghost c: Ctx<K>, ghost s: Tree<K>)
    requires tree.Valid() && tree.model == Full(Plug(c, s)) && x !in Leaves(Plug(c, s)) && x != tree.head
    requires troot == Down(s) && To(root, side) == Up(c, tree.head) == x.nodeP
    modifies tree, tree.Objects(), x
    ensures tree.Valid() && tree.IsUnique() == old(tree.IsUnique())
    ensures tree.model == Full(Plug(c, Graft(x, old(x.bit), s, right)))
  {
    hide Plug, Represents, Leaves, Inners, Spliced, Graft;
    ghost var m := Snap(tree.Objects() + {x});
    RepresentsStill(Snap(tree.Objects()), m, tree.head, Plug(c, s));
    tree.model := Full(Plug(c, Graft(x, x.bit, s, right)));
    PlaceAbove(x, troot, root, side, right, m, tree.head, c, s);
    SpliceValid(tree, m, c, s, x, x.bit, right);
  }
}
