/** The type-agnostic part of the elastic binary tree: objects, tagged pointers,
    the abstract tree an object graph represents, and the walks. */
module EbTree {
  import opened Counting

  // The low-order bit of a pointer. On an upward pointer it names the branch of the parent,
  // on a branch it names the kind of what hangs there.
  const LEFT := false
  const RGHT := true
  const LEAF := false
  const NODE := true

  /** A tagged root pointer; a null pointer may carry a tag too. */
  datatype Ref<K> = Null(tag: bool) | To(node: EbNode<K>, tag: bool)

  /** One linked object: an inner node (two branches, a parent, a bit) and a leaf (a parent),
      sharing one key. The head of a tree is represented by an object whose branches only are used. */
  class EbNode<K> {
    const key: K
    var b0: Ref<K>
    var b1: Ref<K>
    var nodeP: Ref<K>
    var leafP: Ref<K>
    var bit: int

    constructor (key: K)
      ensures this.key == key
      ensures b0 == b1 == nodeP == leafP == Null(false)
    {
      this.key := key;
      b0, b1, nodeP, leafP, bit := Null(false), Null(false), Null(false), Null(false), 0;
    }

    /** b[side] */
    function Branch(side: bool): Ref<K>
      reads this
    {
      if side then b1 else b0
    }

    /** b[side] := r */
    method SetBranch(side: bool, r: Ref<K>)
      modifies this`b0, this`b1
      ensures Branch(side) == r && Branch(!side) == old(Branch(!side))
    {
      if side { b1 := r; } else { b0 := r; }
    }
  }

  // ---------------------------------------------------------------------------
  // Abstract trees

  /** The shape below a branch: leaves in order, each inner node named by the object hosting it. */
  datatype Tree<K> = Leaf(n: EbNode<K>) | Inner(n: EbNode<K>, bit: int, l: Tree<K>, r: Tree<K>)

  /** What hangs below the left branch of a head. */
  datatype Shape<K> = Empty | Full(t: Tree<K>)

  /** A tree with a hole, from the hole up to the head. */
  datatype Ctx<K> =
    | Top
    | InLeft(up: Ctx<K>, n: EbNode<K>, bit: int, r: Tree<K>)
    | InRight(up: Ctx<K>, n: EbNode<K>, bit: int, l: Tree<K>)

  ghost function Leaves<K>(t: Tree<K>): set<EbNode<K>> {
    match t
    case Leaf(n) => {n}
    case Inner(_, _, l, r) => Leaves(l) + Leaves(r)
  }

  ghost function Inners<K>(t: Tree<K>): set<EbNode<K>> {
    match t
    case Leaf(_) => {}
    case Inner(n, _, l, r) => {n} + Inners(l) + Inners(r)
  }

  /** The leaves in walking order. */
  ghost function Seq<K>(t: Tree<K>): (s: seq<EbNode<K>>)
    ensures |s| > 0
  {
    match t
    case Leaf(n) => [n]
    case Inner(_, _, l, r) => Seq(l) + Seq(r)
  }

  ghost function First<K>(t: Tree<K>): EbNode<K> {
    match t
    case Leaf(n) => n
    case Inner(_, _, l, _) => First(l)
  }

  ghost function Last<K>(t: Tree<K>): EbNode<K> {
    match t
    case Leaf(n) => n
    case Inner(_, _, _, r) => Last(r)
  }

  /** The pointer a branch holds when t hangs there. */
  ghost function Down<K>(t: Tree<K>): Ref<K> {
    To(t.n, if t.Leaf? then LEAF else NODE)
  }

  /** No object serves twice as a leaf, or twice as an inner node. */
  ghost predicate Apart<K>(t: Tree<K>) {
    match t
    case Leaf(_) => true
    case Inner(n, _, l, r) =>
      && Apart(l) && Apart(r)
      && Leaves(l) !! Leaves(r)
      && Inners(l) !! Inners(r)
      && n !in Inners(l) && n !in Inners(r)
  }

  /** Every inner node sits above its own leaf. */
  ghost predicate OwnBelow<K>(t: Tree<K>) {
    match t
    case Leaf(_) => true
    case Inner(n, _, l, r) => OwnBelow(l) && OwnBelow(r) && n in Leaves(t)
  }

  ghost function Plug<K>(c: Ctx<K>, t: Tree<K>): Tree<K> {
    match c
    case Top => t
    case InLeft(up, n, bit, r) => Plug(up, Inner(n, bit, t, r))
    case InRight(up, n, bit, l) => Plug(up, Inner(n, bit, l, t))
  }

  ghost function CLeaves<K>(c: Ctx<K>): set<EbNode<K>> {
    match c
    case Top => {}
    case InLeft(up, _, _, r) => CLeaves(up) + Leaves(r)
    case InRight(up, _, _, l) => CLeaves(up) + Leaves(l)
  }

  ghost function CInners<K>(c: Ctx<K>): set<EbNode<K>> {
    match c
    case Top => {}
    case InLeft(up, n, _, r) => CInners(up) + {n} + Inners(r)
    case InRight(up, n, _, l) => CInners(up) + {n} + Inners(l)
  }

  /** Leaves walked before, and after, the hole. */
  ghost function Before<K>(c: Ctx<K>): seq<EbNode<K>> {
    match c
    case Top => []
    case InLeft(up, _, _, _) => Before(up)
    case InRight(up, _, _, l) => Before(up) + Seq(l)
  }

  ghost function After<K>(c: Ctx<K>): seq<EbNode<K>> {
    match c
    case Top => []
    case InLeft(up, _, _, r) => Seq(r) + After(up)
    case InRight(up, _, _, _) => After(up)
  }

  /** No object serves twice outside the hole. */
  ghost predicate CApart<K>(c: Ctx<K>) {
    match c
    case Top => true
    case InLeft(up, n, _, r) =>
      && CApart(up) && Apart(r)
      && Leaves(r) !! CLeaves(up) && Inners(r) !! CInners(up)
      && n !in Inners(r) && n !in CInners(up)
    case InRight(up, n, _, l) =>
      && CApart(up) && Apart(l)
      && Leaves(l) !! CLeaves(up) && Inners(l) !! CInners(up)
      && n !in Inners(l) && n !in CInners(up)
  }

  lemma {:induction false} PlugSets<K>(c: Ctx<K>, t: Tree<K>)
    ensures Leaves(Plug(c, t)) == CLeaves(c) + Leaves(t)
    ensures Inners(Plug(c, t)) == CInners(c) + Inners(t)
  {
    match c
    case Top =>
    case InLeft(up, n, bit, r) => PlugSets(up, Inner(n, bit, t, r));
    case InRight(up, n, bit, l) => PlugSets(up, Inner(n, bit, l, t));
  }

  lemma Assoc<T>(a: seq<T>, b: seq<T>, c: seq<T>, d: seq<T>)
    ensures a + (b + c) + d == a + b + (c + d) == (a + b) + c + d
  {
  }

  lemma {:induction false} PlugSeq<K>(c: Ctx<K>, t: Tree<K>)
    ensures Seq(Plug(c, t)) == Before(c) + Seq(t) + After(c)
  {
    match c
    case Top =>
    case InLeft(up, n, bit, r) =>
      PlugSeq(up, Inner(n, bit, t, r));
      Assoc(Before(up), Seq(t), Seq(r), After(up));
    case InRight(up, n, bit, l) =>
      PlugSeq(up, Inner(n, bit, l, t));
      Assoc(Before(up), Seq(l), Seq(t), After(up));
  }

  /** Apartness of a tree splits at any hole. */
  lemma {:induction false} PlugApart<K>(c: Ctx<K>, t: Tree<K>)
    ensures Apart(Plug(c, t)) <==>
            && CApart(c) && Apart(t)
            && Leaves(t) !! CLeaves(c) && Inners(t) !! CInners(c)
  {
    match c
    case Top =>
    case InLeft(up, n, bit, r) =>
      PlugApart(up, Inner(n, bit, t, r));
      assert Leaves(Inner(n, bit, t, r)) == Leaves(t) + Leaves(r);
    case InRight(up, n, bit, l) =>
      PlugApart(up, Inner(n, bit, l, t));
      assert Leaves(Inner(n, bit, l, t)) == Leaves(t) + Leaves(l);
  }

  /** Own leaves stay below when a hole gets more leaves. */
  lemma {:induction false} OwnReplaced<K>(c: Ctx<K>, t: Tree<K>, t': Tree<K>)
    requires OwnBelow(Plug(c, t)) && OwnBelow(t') && Leaves(t) <= Leaves(t')
    ensures OwnBelow(Plug(c, t'))
  {
    match c
    case Top =>
    case InLeft(up, n, bit, r) =>
      OwnInside(up, Inner(n, bit, t, r));
      OwnReplaced(up, Inner(n, bit, t, r), Inner(n, bit, t', r));
    case InRight(up, n, bit, l) =>
      OwnInside(up, Inner(n, bit, l, t));
      OwnReplaced(up, Inner(n, bit, l, t), Inner(n, bit, l, t'));
  }

  lemma {:induction false} OwnInside<K>(c: Ctx<K>, t: Tree<K>)
    requires OwnBelow(Plug(c, t))
    ensures OwnBelow(t)
  {
    match c
    case Top =>
    case InLeft(up, n, bit, r) => OwnInside(up, Inner(n, bit, t, r));
    case InRight(up, n, bit, l) => OwnInside(up, Inner(n, bit, l, t));
  }

  lemma {:induction false} InnersAreLeaves<K>(t: Tree<K>)
    requires OwnBelow(t)
    ensures Inners(t) <= Leaves(t)
  {
    if t.Inner? {
      InnersAreLeaves(t.l);
      InnersAreLeaves(t.r);
    }
  }

  lemma {:induction false} SeqLeaves<K>(t: Tree<K>)
    ensures Leaves(t) == set x | x in Seq(t)
    ensures Seq(t)[0] == First(t) && Seq(t)[|Seq(t)| - 1] == Last(t)
    ensures First(t) in Leaves(t) && Last(t) in Leaves(t)
  {
    if t.Inner? {
      SeqLeaves(t.l);
      SeqLeaves(t.r);
    }
  }

  lemma NoRepeatsConcat<T>(s: seq<T>, u: seq<T>)
    requires NoRepeats(s) && NoRepeats(u)
    requires forall i | 0 <= i < |s| :: s[i] !in u
    ensures NoRepeats(s + u)
  {
    forall i, j | 0 <= i < j < |s + u| ensures (s + u)[i] != (s + u)[j] {
      if i < |s| <= j {
        assert (s + u)[i] == s[i] && (s + u)[j] == u[j - |s|];
      } else if |s| <= i {
        assert (s + u)[i] == u[i - |s|] && (s + u)[j] == u[j - |s|];
      } else {
        assert (s + u)[i] == s[i] && (s + u)[j] == s[j];
      }
    }
  }

  lemma {:induction false} SeqNoRepeats<K>(t: Tree<K>)
    requires Apart(t)
    ensures NoRepeats(Seq(t))
  {
    if t.Inner? {
      SeqNoRepeats(t.l);
      SeqNoRepeats(t.r);
      SeqLeaves(t.l);
      SeqLeaves(t.r);
      assert forall i | 0 <= i < |Seq(t.l)| :: Seq(t.l)[i] in Leaves(t.l);
      NoRepeatsConcat(Seq(t.l), Seq(t.r));
    }
  }

  /** The context of a leaf. */
  ghost function LeafCtx<K>(c: Ctx<K>, t: Tree<K>, x: EbNode<K>): (p: Ctx<K>)
    requires x in Leaves(t)
    ensures Plug(p, Leaf(x)) == Plug(c, t)
    decreases t
  {
    match t
    case Leaf(_) => c
    case Inner(n, bit, l, r) =>
      if x in Leaves(l) then LeafCtx(InLeft(c, n, bit, r), l, x) else LeafCtx(InRight(c, n, bit, l), r, x)
  }

  /** The context of an inner node and the tree rooted there. */
  ghost function InnerCtx<K>(c: Ctx<K>, t: Tree<K>, x: EbNode<K>): (p: (Ctx<K>, Tree<K>))
    requires x in Inners(t)
    ensures p.1.Inner? && p.1.n == x && Plug(p.0, p.1) == Plug(c, t)
    decreases t
  {
    if t.n == x then (c, t)
    else if x in Inners(t.l) then InnerCtx(InLeft(c, t.n, t.bit, t.r), t.l, x)
    else InnerCtx(InRight(c, t.n, t.bit, t.l), t.r, x)
  }

  // ---------------------------------------------------------------------------
  // Representation in the heap

  /** The fields of one object. */
  datatype Cell<K> = Cell(b0: Ref<K>, b1: Ref<K>, nodeP: Ref<K>, leafP: Ref<K>, bit: int)

  type Mem<K> = map<EbNode<K>, Cell<K>>

  ghost function Snap<K>(s: set<EbNode<K>>): Mem<K>
    reads s
  {
    map x | x in s :: Cell(x.b0, x.b1, x.nodeP, x.leafP, x.bit)
  }

  /** In memory m the objects of t are linked to each other as t says, below the upward pointer `up`. */
  ghost predicate Linked<K>(m: Mem<K>, t: Tree<K>, up: Ref<K>) {
    match t
    case Leaf(n) => n in m && m[n].leafP == up
    case Inner(n, bit, l, r) =>
      && n in m && m[n].nodeP == up && m[n].bit == bit
      && m[n].b0 == Down(l) && m[n].b1 == Down(r)
      && Linked(m, l, To(n, LEFT)) && Linked(m, r, To(n, RGHT))
  }

  /** The object holding the branch a hole hangs on. */
  ghost function Owner<K>(c: Ctx<K>, head: EbNode<K>): EbNode<K> {
    if c.Top? then head else c.n
  }

  /** The upward pointer of whatever fills the hole. */
  ghost function Up<K>(c: Ctx<K>, head: EbNode<K>): Ref<K> {
    To(Owner(c, head), if c.InRight? then RGHT else LEFT)
  }

  /** In memory m the context is linked, with `hole` stored in the branch above the hole. */
  ghost predicate LinkedCtx<K>(m: Mem<K>, c: Ctx<K>, hole: Ref<K>, head: EbNode<K>) {
    match c
    case Top => head in m && m[head].b0 == hole
    case InLeft(up, n, bit, r) =>
      && n in m && m[n].nodeP == Up(up, head) && m[n].bit == bit
      && m[n].b0 == hole && m[n].b1 == Down(r)
      && Linked(m, r, To(n, RGHT)) && LinkedCtx(m, up, To(n, NODE), head)
    case InRight(up, n, bit, l) =>
      && n in m && m[n].nodeP == Up(up, head) && m[n].bit == bit
      && m[n].b0 == Down(l) && m[n].b1 == hole
      && Linked(m, l, To(n, LEFT)) && LinkedCtx(m, up, To(n, NODE), head)
  }

  lemma {:induction false} PlugLinked<K>(m: Mem<K>, c: Ctx<K>, t: Tree<K>, head: EbNode<K>)
    ensures (&& LinkedCtx(m, c, Down(t), head) && Linked(m, t, Up(c, head))) <==>
            (&& head in m && m[head].b0 == Down(Plug(c, t)) && Linked(m, Plug(c, t), To(head, LEFT)))
  {
    match c
    case Top =>
    case InLeft(up, n, bit, r) => PlugLinked(m, up, Inner(n, bit, t, r), head);
    case InRight(up, n, bit, l) => PlugLinked(m, up, Inner(n, bit, l, t), head);
  }

  ghost predicate KeepsLeaf<K>(m: Mem<K>, m': Mem<K>, x: EbNode<K>) {
    x in m ==> x in m' && m'[x].leafP == m[x].leafP
  }

  ghost predicate KeepsNode<K>(m: Mem<K>, m': Mem<K>, x: EbNode<K>) {
    x in m ==>
      x in m' && m'[x].nodeP == m[x].nodeP && m'[x].bit == m[x].bit && m'[x].b0 == m[x].b0 && m'[x].b1 == m[x].b1
  }

  /** A tree none of whose pointers changed is still linked. */
  lemma {:induction false} StillLinked<K>(m: Mem<K>, m': Mem<K>, t: Tree<K>, up: Ref<K>)
    requires Linked(m, t, up)
    requires forall x | x in Leaves(t) :: KeepsLeaf(m, m', x)
    requires forall x | x in Inners(t) :: KeepsNode(m, m', x)
    ensures Linked(m', t, up)
  {
    match t
    case Leaf(n) => assert KeepsLeaf(m, m', n);
    case Inner(n, _, l, r) =>
      assert KeepsNode(m, m', n);
      StillLinked(m, m', l, To(n, LEFT));
      StillLinked(m, m', r, To(n, RGHT));
  }

  lemma {:induction false} StillLinkedCtx<K>(m: Mem<K>, m': Mem<K>, c: Ctx<K>, hole: Ref<K>, head: EbNode<K>)
    requires LinkedCtx(m, c, hole, head)
    requires forall x | x in CLeaves(c) :: KeepsLeaf(m, m', x)
    requires forall x | x in CInners(c) + {head} :: KeepsNode(m, m', x)
    ensures LinkedCtx(m', c, hole, head)
  {
    match c
    case Top => assert KeepsNode(m, m', head);
    case InLeft(up, n, _, r) =>
      assert KeepsNode(m, m', n);
      StillLinked(m, m', r, To(n, RGHT));
      StillLinkedCtx(m, m', up, To(n, NODE), head);
    case InRight(up, n, _, l) =>
      assert KeepsNode(m, m', n);
      StillLinked(m, m', l, To(n, LEFT));
      StillLinkedCtx(m, m', up, To(n, NODE), head);
  }

  /** Moving a tree below another upward pointer: only its topmost object's pointer changes. */
  lemma {:induction false} RehangTree<K>(m: Mem<K>, m': Mem<K>, t: Tree<K>, up: Ref<K>, up': Ref<K>)
    requires Linked(m, t, up) && t.n in m'
    requires t.Leaf? ==> m'[t.n].leafP == up'
    requires t.Inner? ==> m'[t.n].(leafP := m[t.n].leafP) == m[t.n].(nodeP := up')
    requires t.Inner? ==> forall x | x in Leaves(t) :: KeepsLeaf(m, m', x)
    requires t.Inner? ==> forall x | x in Inners(t.l) + Inners(t.r) :: KeepsNode(m, m', x)
    ensures Linked(m', t, up')
  {
    match t
    case Leaf(_) =>
    case Inner(n, _, l, r) =>
      StillLinked(m, m', l, To(n, LEFT));
      StillLinked(m, m', r, To(n, RGHT));
  }

  /** The cell of a hole's owner once the branch above the hole holds `hole`. */
  ghost function WithHole<K>(c: Ctx<K>, cell: Cell<K>, hole: Ref<K>): Cell<K> {
    if c.InRight? then cell.(b1 := hole) else cell.(b0 := hole)
  }

  /** The tree that fills the hole one level up. */
  ghost function Grow<K>(c: Ctx<K>, s: Tree<K>): Tree<K>
    requires !c.Top?
  {
    if c.InLeft? then Inner(c.n, c.bit, s, c.r) else Inner(c.n, c.bit, c.l, s)
  }

  /** Changing what a hole holds: only the branch above the hole changes. */
  lemma {:induction false} RehangCtx<K>(m: Mem<K>, m': Mem<K>, c: Ctx<K>, hole: Ref<K>, hole': Ref<K>, head: EbNode<K>)
    requires LinkedCtx(m, c, hole, head)
    requires var o := Owner(c, head); o in m && o in m' && m'[o].(leafP := m[o].leafP) == WithHole(c, m[o], hole')
    requires forall x | x in CLeaves(c) :: KeepsLeaf(m, m', x)
    requires forall x | x in CInners(c) + {head} && x != Owner(c, head) :: KeepsNode(m, m', x)
    requires !c.Top? ==> c.n != head && c.n !in CInners(c.up)
    requires c.InLeft? ==> c.n !in Inners(c.r)
    requires c.InRight? ==> c.n !in Inners(c.l)
    ensures LinkedCtx(m', c, hole', head)
  {
    match c
    case Top =>
    case InLeft(up, n, _, r) =>
      StillLinked(m, m', r, To(n, RGHT));
      StillLinkedCtx(m, m', up, To(n, NODE), head);
    case InRight(up, n, _, l) =>
      StillLinked(m, m', l, To(n, LEFT));
      StillLinkedCtx(m, m', up, To(n, NODE), head);
  }

  /** In memory m, the tree below head is t: links agree both ways, no object serves twice, each
      inner node is above its own leaf, and the node part of the one leaf without inner node is
      marked unused. The head is known by its null right branch. */
  ghost predicate Represents<K>(m: Mem<K>, head: EbNode<K>, t: Tree<K>) {
    && head in m && m[head].b1.Null? && m[head].b0 == Down(t)
    && head !in Leaves(t) && head !in Inners(t)
    && Apart(t) && OwnBelow(t)
    && Linked(m, t, To(head, LEFT))
    && forall x | x in Leaves(t) && x !in Inners(t) :: x in m && m[x].nodeP.Null?
  }

  /** Other objects do not matter. */
  lemma RepresentsStill<K>(m: Mem<K>, m': Mem<K>, head: EbNode<K>, t: Tree<K>)
    requires Represents(m, head, t)
    requires forall x | x in m && x in Leaves(t) + Inners(t) + {head} :: x in m' && m'[x] == m[x]
    ensures Represents(m', head, t)
  {
    StillLinked(m, m', t, To(head, LEFT));
  }

  /** A tree: a head and whatever hangs below its left branch. Its right branch is always a null
      pointer, whose tag says that keys are unique. */
  class EbTree<K> {
    const head: EbNode<K>
    ghost var model: Shape<K>

    /** pad is whatever lies where a head has no key; it is never read. */
    constructor (unique: bool, pad: K)
      ensures Valid() && fresh(head) && Elements() == [] && IsUnique() == unique
    {
      head := new EbNode(pad);
      model := Empty;
      new;
      head.b1 := Null(unique);
    }

    /** The linked entries in walking order. */
    ghost function Elements(): seq<EbNode<K>>
      reads this
    {
      if model.Empty? then [] else Seq(model.t)
    }

    /** The position of a linked entry. */
    ghost function Rank(x: EbNode<K>): (i: nat)
      requires x in Elements()
      reads this
      ensures i < |Elements()| && Elements()[i] == x
    {
      var i :| 0 <= i < |Elements()| && Elements()[i] == x;
      i
    }

    ghost function Objects(): set<EbNode<K>>
      reads this
    {
      {head} + if model.Empty? then {} else Leaves(model.t) + Inners(model.t)
    }

    ghost predicate Valid()
      reads this, Objects()
    {
      if model.Empty? then head.b0 == Null(false) && head.b1.Null?
      else Represents(Snap(Objects()), head, model.t)
    }

    ghost predicate IsUnique()
      reads this, head
    {
      head.b1.tag
    }

    /** eb_is_empty */
    predicate IsEmpty()
      requires Valid()
      reads this, Objects()
      ensures IsEmpty() <==> Elements() == []
    {
      head.b0.Null?
    }
  }
}
