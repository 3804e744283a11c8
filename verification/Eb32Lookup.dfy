/** Searches in a tree of integer keys: exact, nearest below, nearest above. */
module Eb32Lookup {
  import opened Bits
  import opened EbTree
  import opened EbSplice
  import opened EbWalk
  import opened EbScalar

  /** r is the first entry with key k, or null when there is none. */
  ghost predicate FirstMatch(e: seq<EbNode<nat>>, k: nat, r: EbNode?<nat>) {
    if r == null then forall i | 0 <= i < |e| :: e[i].key != k
    else exists i | 0 <= i < |e| :: e[i] == r && e[i].key == k && forall j | 0 <= j < i :: e[j].key != k
  }

  /** No entry outside the hole has the key. */
  ghost predicate NoneOutside(c: Ctx<nat>, k: nat) {
    && (forall i | 0 <= i < |Before(c)| :: Before(c)[i].key != k)
    && (forall i | 0 <= i < |After(c)| :: After(c)[i].key != k)
  }

  lemma MatchAt(t: Tree<nat>, c: Ctx<nat>, s: Tree<nat>, a: seq<EbNode<nat>>, y: EbNode<nat>, b: seq<EbNode<nat>>)
    requires Plug(c, s) == t && NoneOutside(c, y.key) && Seq(s) == a + [y] + b
    requires forall i | 0 <= i < |a| :: a[i].key != y.key
    ensures FirstMatch(Seq(t), y.key, y)
  {
    PlugSeq(c, s);
    var e, i := Seq(t), |Before(c)| + |a|;
    assert e[i] == y;
    forall j | 0 <= j < i ensures e[j].key != y.key {
      if |Before(c)| <= j {
        assert e[j] == a[j - |Before(c)|];
      }
    }
  }

  lemma NoMatch(t: Tree<nat>, c: Ctx<nat>, s: Tree<nat>, k: nat)
    requires Plug(c, s) == t && NoneOutside(c, k) && forall y | y in Leaves(s) :: y.key != k
    ensures FirstMatch(Seq(t), k, null)
  {
    PlugSeq(c, s);
    SeqLeaves(s);
    var e := Seq(t);
    forall i | 0 <= i < |e| ensures e[i].key != k {
      if |Before(c)| <= i < |Before(c)| + |Seq(s)| {
        assert e[i] == Seq(s)[i - |Before(c)|] && e[i] in Leaves(s);
      } else if i >= |Before(c)| {
        assert e[i] == After(c)[i - |Before(c)| - |Seq(s)|];
      }
    }
  }

  /** A key that differs above the bit of a node is not below it. */
  lemma NotBelow(s: Tree<nat>, k: nat, o: Order)
    requires Radix(s, o) && OwnBelow(s) && s.Inner? && s.n.key != k
    requires s.bit < 0 || Shr(Xor(s.n.key, k), s.bit) >= 2
    ensures forall y | y in Leaves(s) :: y.key != k
  {
    forall y | y in Leaves(s) ensures y.key != k {
      RadixAgrees(s, o, y);
      if s.bit >= 0 {
        WordXor(s.n.key, k, o);
        XorBelowTwo(Word(s.n.key, o), Word(k, o), s.bit);
      }
    }
  }

  /** Below a node whose upper bits are those of the key, only one side can have the key. */
  lemma OneSide(c: Ctx<nat>, s: Tree<nat>, k: nat, o: Order)
    requires Radix(s, o) && s.Inner? && s.bit >= 0 && NoneOutside(c, k)
    requires Shr(Xor(s.n.key, k), s.bit) < 2
    ensures var turn := Shr(Word(k, o), s.bit) % 2 == 1;
      NoneOutside(if turn then InRight(c, s.n, s.bit, s.l) else InLeft(c, s.n, s.bit, s.r), k)
  {
    var w := Word(k, o);
    WordXor(s.n.key, k, o);
    XorBelowTwo(Word(s.n.key, o), w, s.bit);
    ShrSplit(w, s.bit);
    var turn := Shr(w, s.bit) % 2 == 1;
    var other := if turn then s.l else s.r;
    SeqLeaves(other);
    forall i | 0 <= i < |Seq(other)| ensures Seq(other)[i].key != k {
      var y := Seq(other)[i];
      assert y in Leaves(other);
      assert Shr(Key(y, o), s.bit) != Shr(w, s.bit);
    }
    var c' := if turn then InRight(c, s.n, s.bit, s.l) else InLeft(c, s.n, s.bit, s.r);
    assert Before(c') == Before(c) + if turn then Seq(other) else [];
    assert After(c') == (if turn then [] else Seq(other)) + After(c);
    assert forall i | 0 <= i < |Before(c')| :: Before(c')[i].key != k;
    assert forall i | 0 <= i < |After(c')| :: After(c')[i].key != k;
  }

  /** Early return on a node that hosts the key outside a duplicate tree: its own leaf is the first
      entry with that key, since only the first duplicate's node part can be there. */
  lemma HostIsFirst(t: Tree<nat>, c: Ctx<nat>, s: Tree<nat>, o: Order)
    requires Plug(c, s) == t && Radix(s, o) && Apart(s) && OwnBelow(s) && s.Inner? && s.bit >= 0
    requires NoneOutside(c, s.n.key)
    ensures FirstMatch(Seq(t), s.n.key, s.n)
  {
    var y := s.n;
    if y in Leaves(s.l) {
      var a, b := FirstOfKey(s.l, y, o);
      assert a + [y] + b + Seq(s.r) == a + [y] + (b + Seq(s.r));
      MatchAt(t, c, s, a, y, b + Seq(s.r));
    } else {
      var a, b := FirstOfKey(s.r, y, o);
      SeqLeaves(s.l);
      forall z | z in Seq(s.l) ensures z.key != y.key {
        assert z in Leaves(s.l);
        BranchesOrdered(s, o, z, y);
      }
      assert Seq(s.l) + (a + [y] + b) == (Seq(s.l) + a) + [y] + b;
      MatchAt(t, c, s, Seq(s.l) + a, y, b);
    }
  }

  /** The first leaf of a duplicate tree. */
  lemma DupFirst(t: Tree<nat>, c: Ctx<nat>, s: Tree<nat>, o: Order)
    requires Plug(c, s) == t && Radix(s, o) && s.Inner? && s.bit < 0 && NoneOutside(c, s.n.key)
    ensures First(s).key == s.n.key && FirstMatch(Seq(t), s.n.key, First(s))
  {
    SeqLeaves(s);
    assert Seq(s) == [] + [Seq(s)[0]] + Seq(s)[1..];
    MatchAt(t, c, s, [], First(s), Seq(s)[1..]);
  }

  /** __eb32_lookup: the first entry with the key. */
  method Eb32LookupKey(tree: EbTree<nat>, x: nat) returns (r: EbNode?<nat>)
    requires Holds(tree, Unsigned)
    ensures FirstMatch(tree.Elements(), x, r)
  {
    var troot := tree.head.b0;
    if troot.Null? {
      return null;
    }
    r := Search(troot, x, x, Unsigned, Snap(tree.Objects()), tree.head, tree.model.t);
  }

  /** __eb32i_lookup: the first entry with the signed key, whose word is x. */
  method Eb32iLookupKey(tree: EbTree<nat>, x: nat) returns (r: EbNode?<nat>)
    requires Holds(tree, TwosComplement(32)) && x < Pow2(32)
    ensures FirstMatch(tree.Elements(), x, r)
  {
    var key := Flip(x, 32);
    var troot := tree.head.b0;
    if troot.Null? {
      return null;
    }
    r := Search(troot, x, key, TwosComplement(32), Snap(tree.Objects()), tree.head, tree.model.t);
  }

  /** The walk down both searches share; key is x as it directs the walk. */
  method Search(root: Ref<nat>, x: nat, key: nat, ghost o: Order, ghost m: Mem<nat>, ghost head: EbNode<nat>,
                ghost t: Tree<nat>)
    returns (r: EbNode?<nat>)
    requires Represents(m, head, t) && m == Snap(m.Keys) && Radix(t, o) && root == Down(t) && key == Word(x, o)
    ensures FirstMatch(Seq(t), x, r)
  {
    var troot := root;
    ghost var c, s := Top, t;
    while true
      invariant m == Snap(m.Keys)
      invariant Plug(c, s) == t && Radix(s, o) && Apart(s) && OwnBelow(s)
      invariant troot == Down(s) && NoneOutside(c, x)
      decreases s
    {
      LinkedAt(m, head, c, s);
      if troot.tag == LEAF {
        if troot.node.key == x {
          MatchAt(t, c, s, [], troot.node, []);
          return troot.node;
        }
        NoMatch(t, c, s, x);
        return null;
      }
      var node := troot.node;
      assert m[node].bit == node.bit && m[node].b0 == node.b0;
      var nodeBit := node.bit;
      var y := Xor(node.key, x);
      XorZero(node.key, x);
      if y == 0 {
        if nodeBit < 0 {
          DupFirst(t, c, s, o);
          r := WalkDown(node.b0, LEFT, m, s.l, To(node, LEFT));
          return;
        }
        HostIsFirst(t, c, s, o);
        return node;
      }
      // Shifting by the negative bit of a duplicate tree is not defined: any word may come out,
      // and either way the walk ends on a leaf with another key.
      var shifted: nat, turn: bool := *, *;
      if nodeBit >= 0 {
        shifted, turn := Shr(y, nodeBit), Shr(key, nodeBit) % 2 == 1;
      }
      if shifted >= 2 {
        NotBelow(s, x, o);
        NoMatch(t, c, s, x);
        return null;
      }
      if nodeBit >= 0 {
        OneSide(c, s, x, o);
      } else {
        NotBelow(s, x, o);
        NoneBelow(c, s, x);
      }
      troot := node.Branch(turn);
      c := if turn then InRight(c, s.n, s.bit, s.l) else InLeft(c, s.n, s.bit, s.r);
      s := if turn then s.r else s.l;
    }
  }

  lemma NoneBelow(c: Ctx<nat>, s: Tree<nat>, k: nat)
    requires s.Inner? && NoneOutside(c, k) && forall y | y in Leaves(s) :: y.key != k
    ensures NoneOutside(InRight(c, s.n, s.bit, s.l), k) && NoneOutside(InLeft(c, s.n, s.bit, s.r), k)
  {
    SeqLeaves(s.l);
    SeqLeaves(s.r);
    assert forall y | y in Seq(s.l) :: y in Leaves(s.l);
    assert forall y | y in Seq(s.r) :: y in Leaves(s.r);
  }
}
