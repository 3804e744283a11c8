/** eb32_lookup_ge and eb32_lookup_le: go down towards the key, then climb when the wanted entry is
    not below. */
module Eb32Nearest {
  import opened Bits
  import opened EbTree
  import opened EbSplice
  import opened EbWalk
  import opened EbScalar

  ghost predicate AllLess(s: seq<EbNode<nat>>, x: nat) {
    forall i | 0 <= i < |s| :: s[i].key < x
  }

  ghost predicate AllMore(s: seq<EbNode<nat>>, x: nat) {
    forall i | 0 <= i < |s| :: s[i].key > x
  }

  /** r is the first entry whose key is x or more, or null when all are less. */
  ghost predicate LeastFrom(e: seq<EbNode<nat>>, x: nat, r: EbNode?<nat>) {
    if r == null then AllLess(e, x)
    else exists i | 0 <= i < |e| :: e[i] == r && e[i].key >= x && AllLess(e[..i], x)
  }

  /** r is the last entry whose key is x or less, or null when all are more. */
  ghost predicate GreatestUpTo(e: seq<EbNode<nat>>, x: nat, r: EbNode?<nat>) {
    if r == null then AllMore(e, x)
    else exists i | 0 <= i < |e| :: e[i] == r && e[i].key <= x && AllMore(e[i + 1..], x)
  }

  /** Everything walked before the hole is less than x, everything after it is more. */
  ghost predicate Brackets(c: Ctx<nat>, x: nat) {
    AllLess(Before(c), x) && AllMore(After(c), x)
  }

  /** Where all leaves of s stand with respect to a key that leaves its range, or that its top alone decides. */
  lemma OneSided(s: Tree<nat>, x: nat)
    requires Radix(s, Unsigned) && OwnBelow(s)
    requires s.Inner? && s.bit >= 0 ==> Shr(Xor(x, s.n.key), s.bit) >= 2
    ensures s.Leaf? || s.bit < 0 ==> forall i | 0 <= i < |Seq(s)| :: Seq(s)[i].key == s.n.key
    ensures s.Inner? && s.bit >= 0 && Shr(s.n.key, s.bit) > Shr(x, s.bit) ==> AllMore(Seq(s), x)
    ensures s.Inner? && s.bit >= 0 && Shr(s.n.key, s.bit) <= Shr(x, s.bit) ==> AllLess(Seq(s), x)
  {
    SeqLeaves(s);
    forall i | 0 <= i < |Seq(s)|
      ensures s.Leaf? || s.bit < 0 ==> Seq(s)[i].key == s.n.key
      ensures s.Inner? && s.bit >= 0 ==>
        if Shr(s.n.key, s.bit) > Shr(x, s.bit) then Seq(s)[i].key > x else Seq(s)[i].key < x
    {
      var y := Seq(s)[i];
      assert y in Leaves(s);
      RadixAgrees(s, Unsigned, y);
      if s.Inner? && s.bit >= 0 {
        var b := s.bit;
        XorBelowTwo(x, s.n.key, b);
        ShrStep(x, b);
        ShrStep(s.n.key, b);
        if y.key <= x {
          ShrMonotone(y.key, x, b + 1);
        }
        if x <= y.key {
          ShrMonotone(x, y.key, b + 1);
        }
      }
    }
  }

  /** What the walk decides where it stops. */
  lemma Decides(s: Tree<nat>, x: nat)
    requires Radix(s, Unsigned) && OwnBelow(s)
    requires s.Inner? && s.bit >= 0 ==> Shr(Xor(x, s.n.key), s.bit) >= 2
    ensures var e := Seq(s);
      if (if s.Leaf? || s.bit < 0 then s.n.key < x else Shr(s.n.key, s.bit) <= Shr(x, s.bit)) then AllLess(e, x)
      else e[0].key >= x
    ensures var e := Seq(s);
      if (if s.Leaf? || s.bit < 0 then s.n.key > x else Shr(s.n.key, s.bit) >= Shr(x, s.bit)) then AllMore(e, x)
      else e[|e| - 1].key <= x
  {
    OneSided(s, x);
    if s.Inner? && s.bit >= 0 {
      XorBelowTwo(x, s.n.key, s.bit);
      ShrStep(x, s.bit);
      ShrStep(s.n.key, s.bit);
    }
  }

  /** The upward pointer of the tree below which the walk stops. */
  lemma LeavingAt(v: View<nat>, c: Ctx<nat>, s: Tree<nat>)
    requires Represents(v.m, v.head, v.t) && Plug(c, s) == v.t
    ensures Leaving(v, c, s, Up(c, v.head))
  {
    LinkedAt(v.m, v.head, c, s);
  }

  /** Going down on the side of x, the other branch is entirely on its own side. */
  lemma Narrows(c: Ctx<nat>, s: Tree<nat>, x: nat)
    requires Radix(s, Unsigned) && s.Inner? && s.bit >= 0 && Brackets(c, x)
    requires Shr(Xor(x, s.n.key), s.bit) < 2
    ensures Brackets(if Shr(x, s.bit) % 2 == 1 then InRight(c, s.n, s.bit, s.l) else InLeft(c, s.n, s.bit, s.r), x)
  {
    XorBelowTwo(x, s.n.key, s.bit);
    ShrSplit(x, s.bit);
    var turn := Shr(x, s.bit) % 2 == 1;
    var other: Tree<nat> := if turn then s.l else s.r;
    SeqLeaves(other);
    forall i | 0 <= i < |Seq(other)|
      ensures turn ==> Seq(other)[i].key < x
      ensures !turn ==> Seq(other)[i].key > x
    {
      var y := Seq(other)[i];
      assert y in Leaves(other) && Key(y, Unsigned) == y.key;
      if turn && x <= y.key {
        ShrMonotone(x, y.key, s.bit);
      }
      if !turn && y.key <= x {
        ShrMonotone(y.key, x, s.bit);
      }
    }
    var c' := if turn then InRight(c, s.n, s.bit, s.l) else InLeft(c, s.n, s.bit, s.r);
    assert Before(c') == Before(c) + if turn then Seq(other) else [];
    assert After(c') == (if turn then [] else Seq(other)) + After(c);
  }

  lemma LeastAt(a: seq<EbNode<nat>>, b: seq<EbNode<nat>>, x: nat)
    requires AllLess(a, x) && (b != [] ==> b[0].key >= x)
    ensures LeastFrom(a + b, x, if b == [] then null else b[0])
  {
    if b == [] {
      assert a + b == a;
    } else {
      assert (a + b)[|a|] == b[0] && (a + b)[..|a|] == a;
    }
  }

  lemma GreatestAt(a: seq<EbNode<nat>>, b: seq<EbNode<nat>>, x: nat)
    requires AllMore(b, x) && (a != [] ==> a[|a| - 1].key <= x)
    ensures GreatestUpTo(a + b, x, if a == [] then null else a[|a| - 1])
  {
    if a == [] {
      assert a + b == b;
    } else {
      assert (a + b)[|a| - 1] == a[|a| - 1] && (a + b)[|a| - 1 + 1..] == b;
    }
  }

  /** The first leaf of s answers when it is x or more; the first leaf after s does when all of s is less. */
  lemma LeastHere(t: Tree<nat>, c: Ctx<nat>, s: Tree<nat>, x: nat)
    requires Plug(c, s) == t && Brackets(c, x)
    ensures Seq(s)[0].key >= x ==> LeastFrom(Seq(t), x, Seq(s)[0])
    ensures AllLess(Seq(s), x) ==> LeastFrom(Seq(t), x, if After(c) == [] then null else After(c)[0])
  {
    PlugSeq(c, s);
    if Seq(s)[0].key >= x {
      assert Seq(t) == Before(c) + (Seq(s) + After(c));
      LeastAt(Before(c), Seq(s) + After(c), x);
    }
    if AllLess(Seq(s), x) {
      LeastAt(Before(c) + Seq(s), After(c), x);
    }
  }

  lemma GreatestBefore(c: Ctx<nat>, s: Tree<nat>, x: nat)
    requires Brackets(c, x) && AllMore(Seq(s), x)
    ensures var a := Before(c); GreatestUpTo(a + Seq(s) + After(c), x, if a == [] then null else a[|a| - 1])
  {
    var a := Before(c);
    assert a + Seq(s) + After(c) == a + (Seq(s) + After(c));
    if a != [] {
      assert a[|a| - 1].key < x;
    }
    GreatestAt(a, Seq(s) + After(c), x);
  }

  /** The last leaf of s answers when it is x or less; the last leaf before s does when all of s is more. */
  lemma GreatestHere(t: Tree<nat>, c: Ctx<nat>, s: Tree<nat>, x: nat)
    requires Plug(c, s) == t && Brackets(c, x)
    ensures Seq(s)[|Seq(s)| - 1].key <= x ==> GreatestUpTo(Seq(t), x, Seq(s)[|Seq(s)| - 1])
    ensures AllMore(Seq(s), x) ==> GreatestUpTo(Seq(t), x, if Before(c) == [] then null else Before(c)[|Before(c)| - 1])
  {
    PlugSeq(c, s);
    if Seq(s)[|Seq(s)| - 1].key <= x {
      var a := Before(c) + Seq(s);
      assert a[|a| - 1] == Seq(s)[|Seq(s)| - 1];
      GreatestAt(a, After(c), x);
    }
    if AllMore(Seq(s), x) {
      GreatestBefore(c, s, x);
    }
  }

  /** The answer where the walk stops: below s, or next to it when all of s is on the other side of x. */
  lemma LeastStop(t: Tree<nat>, c: Ctx<nat>, s: Tree<nat>, x: nat)
    requires Plug(c, s) == t && Brackets(c, x) && Radix(s, Unsigned) && OwnBelow(s)
    requires s.Inner? && s.bit >= 0 ==> Shr(Xor(x, s.n.key), s.bit) >= 2
    ensures s.Inner? ==> First(s.l) == First(s)
    ensures LeastFrom(Seq(t), x,
      if (if s.Leaf? || s.bit < 0 then s.n.key >= x else Shr(s.n.key, s.bit) > Shr(x, s.bit)) then First(s)
      else if After(c) == [] then null else After(c)[0])
  {
    hide Plug, Radix, Brackets, OwnBelow, Xor, Shr, AllLess, AllMore, LeastFrom;
    Decides(s, x);
    SeqLeaves(s);
    LeastHere(t, c, s, x);
  }

  lemma GreatestStop(t: Tree<nat>, c: Ctx<nat>, s: Tree<nat>, x: nat)
    requires Plug(c, s) == t && Brackets(c, x) && Radix(s, Unsigned) && OwnBelow(s)
    requires s.Inner? && s.bit >= 0 ==> Shr(Xor(x, s.n.key), s.bit) >= 2
    ensures s.Inner? ==> Last(s.r) == Last(s)
    ensures GreatestUpTo(Seq(t), x,
      if (if s.Leaf? || s.bit < 0 then s.n.key <= x else Shr(s.n.key, s.bit) < Shr(x, s.bit)) then Last(s)
      else if Before(c) == [] then null else Before(c)[|Before(c)| - 1])
  {
    hide Plug, Radix, Brackets, OwnBelow, Xor, Shr, AllLess, AllMore, GreatestUpTo;
    Decides(s, x);
    SeqLeaves(s);
    GreatestHere(t, c, s, x);
  }

  /** The walk is at the subtree s, on whose sides everything is on the matching side of x. */
  ghost predicate Probing(v: View<nat>, c: Ctx<nat>, s: Tree<nat>, troot: Ref<nat>, x: nat) {
    && Represents(v.m, v.head, v.t) && Plug(c, s) == v.t && Radix(s, Unsigned) && OwnBelow(s)
    && troot == Down(s) && Brackets(c, x)
  }

  lemma ProbeFacts(v: View<nat>, c: Ctx<nat>, s: Tree<nat>, troot: Ref<nat>, x: nat)
    requires Probing(v, c, s, troot, x) && v.m == Snap(v.m.Keys)
    ensures Represents(v.m, v.head, v.t) && Plug(c, s) == v.t && Radix(s, Unsigned) && OwnBelow(s) && Brackets(c, x)
    ensures troot == Down(s) && Leaving(v, c, s, Up(c, v.head))
    ensures s.Leaf? ==> s.n.leafP == Up(c, v.head)
    ensures s.Inner? ==> s.n.b0 == Down(s.l) && s.n.b1 == Down(s.r) && s.n.nodeP == Up(c, v.head) && s.n.bit == s.bit
    ensures s.Inner? ==> Linked(v.m, s.l, To(s.n, LEFT)) && Linked(v.m, s.r, To(s.n, RGHT))
  {
    LinkedAt(v.m, v.head, c, s);
    LeavingAt(v, c, s);
  }

  lemma ProbeDown(v: View<nat>, c: Ctx<nat>, s: Tree<nat>, troot: Ref<nat>, x: nat)
    requires Probing(v, c, s, troot, x) && s.Inner? && s.bit >= 0 && Shr(Xor(x, s.n.key), s.bit) < 2
    ensures
      if Shr(x, s.bit) % 2 == 1 then Probing(v, InRight(c, s.n, s.bit, s.l), s.r, Down(s.r), x)
      else Probing(v, InLeft(c, s.n, s.bit, s.r), s.l, Down(s.l), x)
  {
    hide Represents, Xor, Shr, Brackets;
    Narrows(c, s, x);
  }

  /** eb32_lookup_ge */
  method Eb32LookupGe(tree: EbTree<nat>, x: nat) returns (r: EbNode?<nat>)
    requires Holds(tree, Unsigned)
    ensures LeastFrom(tree.Elements(), x, r)
  {
    var troot := tree.head.b0;
    if troot.Null? {
      return null;
    }
    r := SearchGe(troot, x, ViewOf(tree));
  }

  method SearchGe(root: Ref<nat>, x: nat, ghost v: View<nat>) returns (r: EbNode?<nat>)
    requires Represents(v.m, v.head, v.t) && v.m == Snap(v.m.Keys) && Radix(v.t, Unsigned) && root == Down(v.t)
    ensures LeastFrom(Seq(v.t), x, r)
  {
    assert Probing(v, Top, v.t, root, x);
    hide Probing, Represents, Linked, LeastFrom, GreatestUpTo, Leaves, Inners, Brackets, OwnBelow, Leaving;
    hide Radix, Seq, First, Last, Xor, Shr, Snap, Plug, Before, After;
    var troot := root;
    ghost var c, s := Top, v.t;
    while true
      invariant v.m == Snap(v.m.Keys) && Probing(v, c, s, troot, x)
      decreases s
    {
      ProbeFacts(v, c, s, troot, x);
      var node := troot.node;
      if troot.tag == LEAF {
        // The whole upper part is common: this leaf, or the one next to it.
        LeastStop(v.t, c, s, x);
        if node.key >= x {
          return node;
        }
        troot := node.leafP;
        break;
      }
      if node.bit < 0 {
        // The top of a duplicate tree: it answers as a whole or is skipped as a whole.
        LeastStop(v.t, c, s, x);
        if node.key >= x {
          r := WalkDown(node.b0, LEFT, v.m, s.l, To(node, LEFT));
          return;
        }
        troot := node.nodeP;
        break;
      }
      if Shr(Xor(x, node.key), node.bit) >= 2 {
        // No more common bits: everything below is on one side of x.
        LeastStop(v.t, c, s, x);
        if Shr(node.key, node.bit) > Shr(x, node.bit) {
          r := WalkDown(node.b0, LEFT, v.m, s.l, To(node, LEFT));
          return;
        }
        troot := node.nodeP;
        break;
      }
      ProbeDown(v, c, s, troot, x);
      var turn := Shr(x, node.bit) % 2 == 1;
      troot := node.Branch(turn);
      c := if turn then InRight(c, s.n, s.bit, s.l) else InLeft(c, s.n, s.bit, s.r);
      s := if turn then s.r else s.l;
    }
    r := ClimbNext(troot, v, c, s);
  }

  /** eb32_lookup_le */
  method Eb32LookupLe(tree: EbTree<nat>, x: nat) returns (r: EbNode?<nat>)
    requires Holds(tree, Unsigned)
    ensures GreatestUpTo(tree.Elements(), x, r)
  {
    var troot := tree.head.b0;
    if troot.Null? {
      return null;
    }
    r := SearchLe(troot, x, ViewOf(tree));
  }

  method SearchLe(root: Ref<nat>, x: nat, ghost v: View<nat>) returns (r: EbNode?<nat>)
    requires Represents(v.m, v.head, v.t) && v.m == Snap(v.m.Keys) && Radix(v.t, Unsigned) && root == Down(v.t)
    ensures GreatestUpTo(Seq(v.t), x, r)
  {
    assert Probing(v, Top, v.t, root, x);
    hide Probing, Represents, Linked, LeastFrom, GreatestUpTo, Leaves, Inners, Brackets, OwnBelow, Leaving;
    hide Radix, Seq, First, Last, Xor, Shr, Snap, Plug, Before, After;
    var troot := root;
    ghost var c, s := Top, v.t;
    while true
      invariant v.m == Snap(v.m.Keys) && Probing(v, c, s, troot, x)
      decreases s
    {
      ProbeFacts(v, c, s, troot, x);
      var node := troot.node;
      if troot.tag == LEAF {
        // The whole upper part is common: this leaf, or the one next to it.
        GreatestStop(v.t, c, s, x);
        if node.key <= x {
          return node;
        }
        troot := node.leafP;
        break;
      }
      if node.bit < 0 {
        // The top of a duplicate tree: it answers as a whole or is skipped as a whole.
        GreatestStop(v.t, c, s, x);
        if node.key <= x {
          r := WalkDown(node.b1, RGHT, v.m, s.r, To(node, RGHT));
          return;
        }
        troot := node.nodeP;
        break;
      }
      if Shr(Xor(x, node.key), node.bit) >= 2 {
        // No more common bits: everything below is on one side of x.
        GreatestStop(v.t, c, s, x);
        if Shr(node.key, node.bit) < Shr(x, node.bit) {
          r := WalkDown(node.b1, RGHT, v.m, s.r, To(node, RGHT));
          return;
        }
        troot := node.nodeP;
        break;
      }
      ProbeDown(v, c, s, troot, x);
      var turn := Shr(x, node.bit) % 2 == 1;
      troot := node.Branch(turn);
      c := if turn then InRight(c, s.n, s.bit, s.l) else InLeft(c, s.n, s.bit, s.r);
      s := if turn then s.r else s.l;
    }
    r := ClimbPrev(troot, v, c, s);
  }
}
