/** Walks over a linked tree: they only follow pointers, and each is proved against
    the sequence of entries the tree represents. */
module EbWalk {
  import opened EbTree

  // ---------------------------------------------------------------------------
  // Groups of equal keys

  /** What keys are the same for, when they are compared as a whole. */
  ghost function Whole<K>(k: K): K { k }

  /** Keys are grouped by what g makes of them: below a node with a negative bit all are the same, and
      the two branches of any other node share none. */
  ghost predicate Grouped<K, C>(t: Tree<K>, g: K -> C) {
    match t
    case Leaf(_) => true
    case Inner(n, bit, l, r) =>
      && Grouped(l, g) && Grouped(r, g)
      && (bit < 0 ==>
            && (forall x | x in Leaves(t) :: g(x.key) == g(n.key))
            && (l.Leaf? || l.bit < 0) && (r.Leaf? || r.bit < 0))
      && (bit >= 0 ==> forall x, y | x in Leaves(l) && y in Leaves(r) :: g(x.key) != g(y.key))
  }

  lemma {:induction false} GroupedBelow<K, C>(c: Ctx<K>, t: Tree<K>, g: K -> C)
    requires Grouped(Plug(c, t), g)
    ensures Grouped(t, g)
  {
    if !c.Top? {
      GroupedBelow(c.up, Grow(c, t), g);
    }
  }

  /** A tree that does not hang inside a duplicate tree shares no key with the rest. */
  lemma {:induction false} GroupedOutside<K, C>(c: Ctx<K>, t: Tree<K>, g: K -> C)
    requires Grouped(Plug(c, t), g) && (c.Top? || c.bit >= 0)
    ensures forall x, y | x in Leaves(t) && y in CLeaves(c) :: g(x.key) != g(y.key)
  {
    if !c.Top? {
      var u := Grow(c, t);
      GroupedBelow(c.up, u, g);
      if !c.up.Top? {
        GroupedBelow(c.up.up, Grow(c.up, u), g);
      }
      GroupedOutside(c.up, u, g);
    }
  }

  lemma {:induction false} OutsideLeaves<K>(c: Ctx<K>)
    ensures forall i | 0 <= i < |After(c)| :: After(c)[i] in CLeaves(c)
    ensures forall i | 0 <= i < |Before(c)| :: Before(c)[i] in CLeaves(c)
  {
    match c
    case Top =>
    case InLeft(up, _, _, r) =>
      OutsideLeaves(up);
      SeqLeaves(r);
    case InRight(up, _, _, l) =>
      OutsideLeaves(up);
      SeqLeaves(l);
  }

  /** Outside a duplicate tree, the neighbours of a hole have other keys than what is in it. */
  lemma OtherNeighbours<K, C>(c: Ctx<K>, s: Tree<K>, node: EbNode<K>, g: K -> C)
    requires Grouped(Plug(c, s), g) && node in Leaves(s) && (c.Top? || c.bit >= 0)
    ensures After(c) != [] ==> g(After(c)[0].key) != g(node.key)
    ensures Before(c) != [] ==> g(Before(c)[|Before(c)| - 1].key) != g(node.key)
  {
    GroupedOutside(c, s, g);
    OutsideLeaves(c);
  }

  /** Inside a duplicate tree, both branches hold the same key. */
  lemma SameSibling<K, C>(c: Ctx<K>, s: Tree<K>, node: EbNode<K>, g: K -> C)
    requires Grouped(Plug(c, s), g) && node in Leaves(s) && !c.Top? && c.bit < 0
    ensures c.InLeft? ==> forall x | x in Seq(c.r) :: g(x.key) == g(node.key)
    ensures c.InLeft? ==> Seq(c.r)[0] == First(c.r)
    ensures c.InRight? ==> forall x | x in Seq(c.l) :: g(x.key) == g(node.key)
    ensures c.InRight? ==> Seq(c.l)[|Seq(c.l)| - 1] == Last(c.l)
  {
    GroupedBelow(c.up, Grow(c, s), g);
    SeqLeaves(if c.InLeft? then c.r else c.l);
  }

  ghost predicate DistinctKeys<K>(s: seq<EbNode<K>>) {
    forall i, j | 0 <= i < j < |s| :: s[i].key != s[j].key
  }

  /** A duplicate tree repeats a key. */
  lemma DuplicatesRepeat<K>(c: Ctx<K>, s: Tree<K>)
    requires s.Inner? && forall x | x in Leaves(s) :: x.key == s.n.key
    ensures !DistinctKeys(Seq(Plug(c, s)))
  {
    PlugSeq(c, s);
    SeqLeaves(s.l);
    SeqLeaves(s.r);
    var e, i, j := Seq(Plug(c, s)), |Before(c)|, |Before(c)| + |Seq(s.l)|;
    assert e[i] == First(s.l) && e[j] == First(s.r);
  }

  // ---------------------------------------------------------------------------
  // Moving through the tree

  /** A linked tree as a value: memory, head and shape. */
  datatype View<K> = View(m: Mem<K>, head: EbNode<K>, t: Tree<K>)

  ghost function ViewOf<K>(tree: EbTree<K>): View<K>
    requires tree.model.Full?
    reads tree, tree.Objects()
  {
    View(Snap(tree.Objects()), tree.head, tree.model.t)
  }

  /** The pointer p leads up from the tree s that fills the hole of c. */
  ghost predicate Leaving<K>(v: View<K>, c: Ctx<K>, s: Tree<K>, p: Ref<K>) {
    && Plug(c, s) == v.t && LinkedCtx(v.m, c, Down(s), v.head) && p == Up(c, v.head)
    && v.head in v.m && v.m[v.head].b1.Null?
  }

  /** Where every walk starts: the upward pointer of a linked leaf. */
  lemma Enter<K>(tree: EbTree<K>, node: EbNode<K>) returns (c: Ctx<K>, v: View<K>)
    requires tree.Valid() && node in tree.Elements()
    ensures tree.model.Full? && v == ViewOf(tree)
    ensures Leaving(v, c, Leaf(node), node.leafP) && node in Leaves(Leaf(node))
    ensures tree.Elements() == Before(c) + [node] + After(c) && tree.Rank(node) == |Before(c)|
  {
    var t := tree.model.t;
    v := ViewOf(tree);
    SeqLeaves(t);
    SeqNoRepeats(t);
    c := LeafCtx(Top, t, node);
    PlugSeq(c, Leaf(node));
    PlugLinked(v.m, c, Leaf(node), v.head);
    assert v.m[node].leafP == node.leafP;
    assert tree.Elements()[|Before(c)|] == node;
  }

  /** What the fields read on the way up hold. */
  lemma Above<K>(v: View<K>, c: Ctx<K>, s: Tree<K>, p: Ref<K>)
    requires Leaving(v, c, s, p)
    ensures p.To? && p.node in v.m && Plug(c, s) == v.t
    ensures c.Top? <==> v.m[p.node].b1.Null?
    ensures c.InRight? <==> p.tag == RGHT
    ensures !c.Top? ==> v.m[p.node].bit == c.bit && Leaving(v, c.up, Grow(c, s), v.m[p.node].nodeP)
    ensures c.InLeft? ==> v.m[p.node].b1 == Down(c.r) && Linked(v.m, c.r, To(c.n, RGHT))
    ensures c.InRight? ==> v.m[p.node].b0 == Down(c.l) && Linked(v.m, c.l, To(c.n, LEFT))
    ensures !c.Top? ==> Leaves(s) <= Leaves(Grow(c, s))
    ensures Seq(v.t) == Before(c) + Seq(s) + After(c)
  {
    PlugSeq(c, s);
  }

  /** eb_walk_down: the first or last leaf below a branch, or null below an empty one. */
  method WalkDown<K>(start: Ref<K>, side: bool, ghost m: Mem<K>, ghost t: Tree<K>, ghost up: Ref<K>)
    returns (r: EbNode?<K>)
    requires if start.Null? then start.tag == LEAF else start == Down(t) && Linked(m, t, up) && m == Snap(m.Keys)
    ensures start.Null? ==> r == null
    ensures start.To? ==> r == if side == RGHT then Last(t) else First(t)
    ensures start.To? ==> r == if side == RGHT then Seq(t)[|Seq(t)| - 1] else Seq(t)[0]
  {
    var p := start;
    ghost var s, u := t, up;
    while p.tag == NODE
      invariant if start.Null? then p == start else p == Down(s) && Linked(m, s, u)
      invariant Last(s) == Last(t) || side != RGHT
      invariant First(s) == First(t) || side == RGHT
      decreases s
    {
      assert m[s.n].b0 == s.n.b0;
      u := To(s.n, side);
      p := p.node.Branch(side);
      s := if side == RGHT then s.r else s.l;
    }
    SeqLeaves(t);
    r := if p.Null? then null else p.node;
  }

  /** What hangs below the left branch of a head */
  lemma HeadBranch<K>(tree: EbTree<K>)
    requires tree.Valid()
    ensures if tree.model.Empty? then tree.head.b0 == Null(LEAF)
      else tree.head.b0 == Down(tree.model.t) && Linked(Snap(tree.Objects()), tree.model.t, To(tree.head, LEFT))
    ensures tree.model.Full? ==> tree.Elements() == Seq(tree.model.t)
  {
  }

  /** eb_first */
  method EbFirst<K>(tree: EbTree<K>) returns (r: EbNode?<K>)
    requires tree.Valid()
    ensures r == if tree.Elements() == [] then null else tree.Elements()[0]
  {
    HeadBranch(tree);
    ghost var t := if tree.model.Full? then tree.model.t else Leaf(tree.head);
    r := WalkDown(tree.head.b0, LEFT, Snap(tree.Objects()), t, To(tree.head, LEFT));
  }

  /** eb_last */
  method EbLast<K>(tree: EbTree<K>) returns (r: EbNode?<K>)
    requires tree.Valid()
    ensures r == if tree.Elements() == [] then null else tree.Elements()[|tree.Elements()| - 1]
  {
    HeadBranch(tree);
    ghost var t := if tree.model.Full? then tree.model.t else Leaf(tree.head);
    r := WalkDown(tree.head.b0, RGHT, Snap(tree.Objects()), t, To(tree.head, LEFT));
  }

  /** Climbs from an upward pointer to the first leaf after the tree below it, or null. */
  method ClimbNext<K>(start: Ref<K>, ghost v: View<K>, ghost c0: Ctx<K>, ghost s0: Tree<K>) returns (r: EbNode?<K>)
    requires v.m == Snap(v.m.Keys) && Leaving(v, c0, s0, start)
    ensures r == if After(c0) == [] then null else After(c0)[0]
  {
    hide Leaving, Leaves, Plug, Grow;
    var t := start;
    ghost var c, s := c0, s0;
    Above(v, c, s, t);
    while t.tag != LEFT
      invariant v.m == Snap(v.m.Keys) && Leaving(v, c, s, t) && t.To? && After(c) == After(c0)
      decreases c
    {
      // Walking up from a right branch, so this is not below the head.
      Above(v, c, s, t);
      s, c := Grow(c, s), c.up;
      t := t.node.nodeP;
      Above(v, c, s, t);
    }
    Above(v, c, s, t);
    t := t.node.b1;
    if t.Null? {
      return null;
    }
    r := WalkDown(t, LEFT, v.m, c.r, To(c.n, RGHT));
  }

  /** Climbs from an upward pointer to the last leaf before the tree below it, or null. */
  method ClimbPrev<K>(start: Ref<K>, ghost v: View<K>, ghost c0: Ctx<K>, ghost s0: Tree<K>) returns (r: EbNode?<K>)
    requires v.m == Snap(v.m.Keys) && Leaving(v, c0, s0, start)
    ensures r == if Before(c0) == [] then null else Before(c0)[|Before(c0)| - 1]
  {
    hide Leaving, Leaves, Plug, Grow;
    var t := start;
    ghost var c, s := c0, s0;
    Above(v, c, s, t);
    while t.tag == LEFT
      invariant v.m == Snap(v.m.Keys) && Leaving(v, c, s, t) && t.To? && Before(c) == Before(c0)
      decreases c
    {
      Above(v, c, s, t);
      if t.node.b1.Null? {
        return null;
      }
      s, c := Grow(c, s), c.up;
      t := t.node.nodeP;
      Above(v, c, s, t);
    }
    Above(v, c, s, t);
    t := t.node.b0;
    r := WalkDown(t, RGHT, v.m, c.l, To(c.n, LEFT));
  }

  /** eb_next: the entry that follows, or null after the last one. */
  method EbNext<K>(ghost tree: EbTree<K>, node: EbNode<K>) returns (r: EbNode?<K>)
    requires tree.Valid() && node in tree.Elements()
    ensures var e, i := tree.Elements(), tree.Rank(node); r == if i + 1 < |e| then e[i + 1] else null
  {
    ghost var c, v := Enter(tree, node);
    r := ClimbNext(node.leafP, v, c, Leaf(node));
  }

  /** eb_prev: the entry that precedes, or null before the first one. */
  method EbPrev<K>(ghost tree: EbTree<K>, node: EbNode<K>) returns (r: EbNode?<K>)
    requires tree.Valid() && node in tree.Elements()
    ensures var e, i := tree.Elements(), tree.Rank(node); r == if i > 0 then e[i - 1] else null
  {
    ghost var c, v := Enter(tree, node);
    r := ClimbPrev(node.leafP, v, c, Leaf(node));
  }

  /** eb_next_dup: the entry that follows when it has the same key for g, or null. The bit of a head,
      which the last test may read, can be anything. */
  method EbNextDup<K, C>(ghost tree: EbTree<K>, node: EbNode<K>, ghost g: K -> C) returns (r: EbNode?<K>)
    requires tree.Valid() && node in tree.Elements() && Grouped(tree.model.t, g)
    ensures var e, i := tree.Elements(), tree.Rank(node);
      r == if i + 1 < |e| && g(e[i + 1].key) == g(node.key) then e[i + 1] else null
  {
    hide Leaving, Grouped, Leaves, Plug, Grow;
    ghost var c, v := Enter(tree, node);
    ghost var s := Leaf(node);
    ghost var rest := After(c);
    var t := node.leafP;
    while t.tag != LEFT
      invariant v.m == Snap(v.m.Keys) && Leaving(v, c, s, t) && After(c) == rest && node in Leaves(s)
      decreases c
    {
      Above(v, c, s, t);
      if t.node.bit >= 0 {
        OtherNeighbours(c, s, node, g);
        return null;
      }
      s, c := Grow(c, s), c.up;
      t := t.node.nodeP;
    }
    Above(v, c, s, t);
    if t.node.bit >= 0 {
      OtherNeighbours(c, s, node, g);
      return null;
    }
    t := t.node.b1;
    if t.Null? {
      return null;
    }
    SameSibling(c, s, node, g);
    r := WalkDown(t, LEFT, v.m, c.r, To(c.n, RGHT));
  }

  /** eb_prev_dup: the entry that precedes when it has the same key, or null. */
  method EbPrevDup<K, C>(ghost tree: EbTree<K>, node: EbNode<K>, ghost g: K -> C) returns (r: EbNode?<K>)
    requires tree.Valid() && node in tree.Elements() && Grouped(tree.model.t, g)
    ensures var e, i := tree.Elements(), tree.Rank(node);
      r == if i > 0 && g(e[i - 1].key) == g(node.key) then e[i - 1] else null
  {
    hide Leaving, Grouped, Leaves, Plug, Grow;
    ghost var c, v := Enter(tree, node);
    ghost var s := Leaf(node);
    ghost var rest := Before(c);
    var t := node.leafP;
    while t.tag == LEFT
      invariant v.m == Snap(v.m.Keys) && Leaving(v, c, s, t) && Before(c) == rest && node in Leaves(s)
      decreases c
    {
      Above(v, c, s, t);
      if t.node.b1.Null? {
        return null;
      }
      if t.node.bit >= 0 {
        OtherNeighbours(c, s, node, g);
        return null;
      }
      s, c := Grow(c, s), c.up;
      t := t.node.nodeP;
    }
    Above(v, c, s, t);
    if t.node.bit >= 0 {
      OtherNeighbours(c, s, node, g);
      return null;
    }
    t := t.node.b0;
    SameSibling(c, s, node, g);
    r := WalkDown(t, RGHT, v.m, c.l, To(c.n, LEFT));
  }

  /** Entries from the i-th up to, but not including, the j-th all have the key. */
  ghost predicate Run<K, C>(e: seq<EbNode<K>>, i: int, j: int, kind: C, g: K -> C) {
    forall k | 0 <= i <= k < j < |e| + 1 :: g(e[k].key) == kind
  }

  /** eb_next_unique: the first entry of the next group of equal keys, or null in the last group. */
  method EbNextUnique<K, C>(ghost tree: EbTree<K>, node: EbNode<K>, ghost g: K -> C) returns (r: EbNode?<K>)
    requires tree.Valid() && node in tree.Elements() && Grouped(tree.model.t, g)
    ensures var e, i := tree.Elements(), tree.Rank(node);
      if r == null then Run(e, i, |e|, g(node.key), g)
      else exists j | i < j < |e| :: r == e[j] && g(e[j].key) != g(node.key) && Run(e, i, j, g(node.key), g)
  {
    hide Leaving, Grouped, Leaves, Plug;
    ghost var c, v := Enter(tree, node);
    ghost var e := Seq(v.t);
    ghost var s := Leaf(node);
    ghost var i := |Before(c)|;
    var t := node.leafP;
    while true
      invariant v.m == Snap(v.m.Keys) && Leaving(v, c, s, t) && node in Leaves(s)
      invariant i < |Before(c) + Seq(s)| && Run(e, i, |Before(c) + Seq(s)|, g(node.key), g)
      decreases c
    {
      Above(v, c, s, t);
      if t.tag == LEFT {
        if t.node.b1.Null? {
          return null;
        }
        if t.node.bit >= 0 {
          break;
        }
        RunOver(c, s, node, i, g);
      }
      t := t.node.nodeP;
      s, c := Grow(c, s), c.up;
    }
    t := t.node.b1;
    OtherNeighbours(c, s, node, g);
    r := WalkDown(t, LEFT, v.m, c.r, To(c.n, RGHT));
    ghost var j := |Before(c) + Seq(s)|;
    assert r == e[j] == After(c)[0];
  }

  /** Leaving a duplicate tree leftwards, the run goes on over the right branch; rightwards,
      it starts earlier by the left branch. */
  lemma RunOver<K, C>(c: Ctx<K>, s: Tree<K>, node: EbNode<K>, i: nat, g: K -> C)
    requires Grouped(Plug(c, s), g) && node in Leaves(s) && c.InLeft? && c.bit < 0
    requires Run(Before(c) + Seq(s) + After(c), i, |Before(c) + Seq(s)|, g(node.key), g)
    ensures Run(Before(c) + Seq(s) + After(c), i, |Before(c.up) + Seq(Grow(c, s))|, g(node.key), g)
  {
    SameSibling(c, s, node, g);
    var e, a := Before(c) + Seq(s) + After(c), Before(c) + Seq(s);
    forall k | i <= k < |a| + |Seq(c.r)| ensures g(e[k].key) == g(node.key) {
      if |a| <= k {
        assert e[k] == Seq(c.r)[k - |a|];
      }
    }
  }

  lemma RunBack<K, C>(c: Ctx<K>, s: Tree<K>, node: EbNode<K>, i: nat, g: K -> C)
    requires Grouped(Plug(c, s), g) && node in Leaves(s) && c.InRight? && c.bit < 0
    requires i < |Before(c) + Seq(s)| && Run(Before(c) + Seq(s) + After(c), |Before(c)|, i + 1, g(node.key), g)
    ensures Run(Before(c) + Seq(s) + After(c), |Before(c.up)|, i + 1, g(node.key), g)
  {
    SameSibling(c, s, node, g);
    var e, a := Before(c) + Seq(s) + After(c), Before(c.up);
    forall k | |a| <= k < i + 1 ensures g(e[k].key) == g(node.key) {
      if k < |Before(c)| {
        assert e[k] == Seq(c.l)[k - |a|];
      }
    }
  }

  /** eb_prev_unique: the last entry of the previous group of equal keys, or null in the first group. */
  method EbPrevUnique<K, C>(ghost tree: EbTree<K>, node: EbNode<K>, ghost g: K -> C) returns (r: EbNode?<K>)
    requires tree.Valid() && node in tree.Elements() && Grouped(tree.model.t, g)
    ensures var e, i := tree.Elements(), tree.Rank(node);
      if r == null then Run(e, 0, i + 1, g(node.key), g)
      else exists j | 0 <= j < i :: r == e[j] && g(e[j].key) != g(node.key) && Run(e, j + 1, i + 1, g(node.key), g)
  {
    hide Leaving, Grouped, Leaves, Plug;
    ghost var c, v := Enter(tree, node);
    ghost var e := Seq(v.t);
    ghost var s := Leaf(node);
    ghost var i := |Before(c)|;
    var t := node.leafP;
    while true
      invariant v.m == Snap(v.m.Keys) && Leaving(v, c, s, t) && node in Leaves(s)
      invariant |Before(c)| <= i < |Before(c) + Seq(s)| && Run(e, |Before(c)|, i + 1, g(node.key), g)
      decreases c
    {
      Above(v, c, s, t);
      if t.tag != LEFT {
        if t.node.bit >= 0 {
          break;
        }
        RunBack(c, s, node, i, g);
        t := t.node.nodeP;
      } else {
        if t.node.b1.Null? {
          return null;
        }
        t := t.node.nodeP;
      }
      s, c := Grow(c, s), c.up;
    }
    t := t.node.b0;
    OtherNeighbours(c, s, node, g);
    r := WalkDown(t, RGHT, v.m, c.l, To(c.n, LEFT));
    ghost var j := |Before(c)| - 1;
    assert r == e[j] == Before(c)[j];
  }
}
