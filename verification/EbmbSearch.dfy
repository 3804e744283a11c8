/** __ebmb_lookup: the first key that starts with given bytes. */
module EbmbSearch {
  import opened Bits
  import opened Counting
  import opened Bytes
  import opened EbTree
  import opened EbSplice
  import opened EbWalk
  import opened EbBytes

  /** a starts with the first n bytes of q. */
  ghost predicate Starts(a: Text, q: Text, n: nat) {
    n <= |a| && n <= |q| && a[..n] == q[..n]
  }

  /** r is the first entry whose key starts with the first n bytes of q, or null when there is none. */
  ghost predicate FirstStart(e: seq<Entry>, q: Text, n: nat, r: EbNode?<Text>) {
    if r == null then forall i | 0 <= i < |e| :: !Starts(e[i].key, q, n)
    else exists i | 0 <= i < |e| :: e[i] == r && Starts(r.key, q, n) && forall j | 0 <= j < i :: !Starts(e[j].key, q, n)
  }

  ghost predicate NoneOutside(c: Ctx<Text>, q: Text, n: nat) {
    && (forall i | 0 <= i < |Before(c)| :: !Starts(Before(c)[i].key, q, n))
    && (forall i | 0 <= i < |After(c)| :: !Starts(After(c)[i].key, q, n))
  }

  lemma FirstAt(e: seq<Entry>, i: nat, q: Text, n: nat)
    requires i < |e| && Starts(e[i].key, q, n) && forall j | 0 <= j < i :: !Starts(e[j].key, q, n)
    ensures FirstStart(e, q, n, e[i])
  {
  }

  /** All keys of s match: the first one answers. */
  lemma FirstHere(t: Tree<Text>, c: Ctx<Text>, s: Tree<Text>, q: Text, n: nat)
    requires Plug(c, s) == t && NoneOutside(c, q, n) && forall y | y in Leaves(s) :: Starts(y.key, q, n)
    ensures FirstStart(Seq(t), q, n, First(s)) && (s.Inner? ==> First(s.l) == First(s))
  {
    PlugSeq(c, s);
    SeqLeaves(s);
    hide Starts, Leaves, Seq, First, Plug, FirstStart;
    var e, i := Before(c) + Seq(s) + After(c), |Before(c)|;
    assert e[i] == Seq(s)[0];
    forall j | 0 <= j < i ensures !Starts(e[j].key, q, n) {
      assert e[j] == Before(c)[j];
    }
    hide Before, After;
    FirstAt(e, i, q, n);
    FirstIsLeft(s);
  }

  lemma FirstIsLeft<K>(s: Tree<K>)
    ensures s.Inner? ==> First(s.l) == First(s)
  {
  }

  lemma Nowhere(t: Tree<Text>, c: Ctx<Text>, s: Tree<Text>, q: Text, n: nat)
    requires Plug(c, s) == t && NoneOutside(c, q, n) && forall y | y in Leaves(s) :: !Starts(y.key, q, n)
    ensures FirstStart(Seq(t), q, n, null)
  {
    PlugSeq(c, s);
    SeqLeaves(s);
    hide Starts;
    var e := Seq(t);
    forall i | 0 <= i < |e| ensures !Starts(e[i].key, q, n) {
      if |Before(c)| <= i < |Before(c)| + |Seq(s)| {
        assert e[i] == Seq(s)[i - |Before(c)|] && e[i] in Leaves(s);
      } else if i >= |Before(c)| {
        assert e[i] == After(c)[i - |Before(c)| - |Seq(s)|];
      }
    }
  }

  lemma StartsIsBits(a: Text, q: Text, n: nat)
    requires IsBytes(a) && IsBytes(q) && n <= |a| && n <= |q|
    ensures Starts(a, q, n) <==> SameBits(a, q, 8 * n)
  {
    SameBytes(a, q, n);
  }

  /** What the comparison with a node tells: a byte differs, all the bytes asked for match, or the bit of
      the node is reached and tells which way to go. */
  datatype Outcome = Mismatch | Whole | Turn(side: bool)

  /** The comparison of q with the key of a node whose bit is `bit`, from byte pos on. */
  method FollowBytes(q: Text, key: Text, start: nat, n: nat, bit: nat) returns (o: Outcome, pos: nat)
    requires IsBytes(q) && IsBytes(key) && n <= |q| && bit < 8 * |key| && start <= bit / 8 && start < n
    requires SameBits(key, q, 8 * start)
    ensures match o
      case Mismatch => !SameBits(key, q, Min(bit, 8 * n))
      case Whole => 8 * n <= bit && SameBits(key, q, 8 * n)
      case Turn(side) => pos == bit / 8 < n && SameBits(key, q, bit) && side == (BitAt(q, bit) == 1)
  {
    hide SameBits, Bit, Shr, Xor, BitAt;
    pos := start;
    var nodeBit := 8 * pos + 7 - bit;
    if nodeBit < 0 {
      while true
        invariant pos < n && nodeBit == 8 * pos + 7 - bit < 0 && SameBits(key, q, 8 * pos)
        decreases n - pos
      {
        SameBitsByte(key, q, pos);
        XorZero(key[pos], q[pos]);
        pos := pos + 1;
        if Xor(key[pos - 1], q[pos - 1]) != 0 {
          SameBitsLess(key, q, 8 * pos, Min(bit, 8 * n));
          return Mismatch, pos;
        }
        if pos == n {
          return Whole, pos;
        }
        nodeBit := nodeBit + 8;
        if nodeBit >= 0 {
          break;
        }
      }
    }
    LastBits(key, q, pos, bit);
    var side := Shr(q[pos], nodeBit);
    if Xor(Shr(key[pos], nodeBit), side) > 1 {
      return Mismatch, pos;
    }
    o := Turn(side % 2 == 1);
  }

  lemma SameBitsLess(a: Text, b: Text, m: nat, n: nat)
    requires m <= n <= 8 * |a| && n <= 8 * |b| && !SameBits(a, b, m)
    ensures !SameBits(a, b, n)
  {
  }

  /** The walk is at s: no key elsewhere matches, and all keys below start with the first pos bytes. */
  ghost predicate Seeking(c: Ctx<Text>, s: Tree<Text>, pos: nat, t: Tree<Text>, q: Text, n: nat, k: Kind) {
    && Plug(c, s) == t && BitTree(s, k) && OwnBelow(s) && NoneOutside(c, q, n)
    && n <= |q| && IsBytes(q) && pos < n
    && (s.Inner? && s.bit >= 0 ==> pos <= s.bit / 8)
    && forall y | y in Leaves(s) :: Starts(y.key, q, pos) && Comparable(y.key, q, n)
  }

  lemma SeekFacts(c: Ctx<Text>, s: Tree<Text>, pos: nat, t: Tree<Text>, q: Text, n: nat, k: Kind)
    requires Seeking(c, s, pos, t, q, n, k)
    ensures Plug(c, s) == t && n <= |q| && IsBytes(q) && IsBytes(s.n.key) && pos < n && pos <= |s.n.key|
    ensures SameBits(s.n.key, q, 8 * pos) && s.n.key[..pos] == q[..pos] && Comparable(s.n.key, q, n)
    ensures s.Inner? && s.bit >= 0 ==> pos <= s.bit / 8 && s.bit < 8 * |s.n.key|
  {
    EbScalar.TopIsLeaf(s);
    TreeKeys(s, k);
    hide Common;
    StartsIsBits(s.n.key, q, pos);
    if s.Inner? && s.bit >= 0 {
      assert Agree(s.n.key, s.n.key, s.bit);
    }
  }

  /** The walk ends on a single key, or on a node all of whose keys match or none. */
  lemma SeekEnds(c: Ctx<Text>, s: Tree<Text>, pos: nat, t: Tree<Text>, q: Text, n: nat, k: Kind, o: Outcome)
    requires Seeking(c, s, pos, t, q, n, k)
    requires if s.Leaf? || s.bit < 0 then o == if Starts(s.n.key, q, n) then Whole else Mismatch
      else (s.bit < 8 * |s.n.key| && (o.Whole? ==> 8 * n <= s.bit)
            && o == if SameBits(s.n.key, q, Min(s.bit, 8 * n)) then Whole else Mismatch)
    ensures if o.Whole? then FirstStart(Seq(t), q, n, First(s)) && (s.Inner? ==> First(s.l) == First(s))
      else FirstStart(Seq(t), q, n, null)
  {
    TreeKeys(s, k);
    EbScalar.TopIsLeaf(s);
    hide Common;
    forall y | y in Leaves(s) ensures Starts(y.key, q, n) <==> o.Whole? {
      if s.Inner? && s.bit >= 0 {
        assert Agree(y.key, s.n.key, s.bit);
        SameVia(y.key, s.n.key, q, Min(s.bit, 8 * n), s.bit);
        if n <= |y.key| {
          StartsIsBits(y.key, q, n);
        }
      }
    }
    hide Seeking, Starts;
    assert Plug(c, s) == t && NoneOutside(c, q, n) by {
      SeekParts(c, s, pos, t, q, n, k);
    }
    if o.Whole? {
      FirstHere(t, c, s, q, n);
    } else {
      Nowhere(t, c, s, q, n);
    }
  }

  lemma SeekParts(c: Ctx<Text>, s: Tree<Text>, pos: nat, t: Tree<Text>, q: Text, n: nat, k: Kind)
    requires Seeking(c, s, pos, t, q, n, k)
    ensures Plug(c, s) == t && NoneOutside(c, q, n)
  {
  }

  /** a agrees with q on its first n bits exactly when b, which agrees with a on more, does. */
  lemma SameVia(a: Text, b: Text, q: Text, n: nat, m: nat)
    requires n <= m <= Common(a, b) && n <= 8 * |q|
    ensures SameBits(a, q, n) <==> SameBits(b, q, n)
  {
    assert SameBits(a, b, Common(a, b));
    hide BitAt;
    assert forall i | 0 <= i < n :: BitAt(a, i) == BitAt(b, i);
  }

  /** Going down on the side of q */
  lemma SeekGoesOn(c: Ctx<Text>, s: Tree<Text>, pos: nat, t: Tree<Text>, q: Text, n: nat, k: Kind)
    requires Seeking(c, s, pos, t, q, n, k) && s.Inner? && s.bit >= 0 && s.bit / 8 < n
    requires s.bit < 8 * |s.n.key|
    requires SameBits(s.n.key, q, s.bit)
    ensures if BitAt(q, s.bit) == 1 then Seeking(InRight(c, s.n, s.bit, s.l), s.r, s.bit / 8, t, q, n, k)
      else Seeking(InLeft(c, s.n, s.bit, s.r), s.l, s.bit / 8, t, q, n, k)
  {
    TreeKeys(s, k);
    var right, p := BitAt(q, s.bit) == 1, s.bit / 8;
    var u, other := if right then s.r else s.l, if right then s.l else s.r;
    forall y | y in Leaves(s) ensures Starts(y.key, q, p) {
      assert Agree(y.key, s.n.key, s.bit);
      StartsIsBits(y.key, q, p);
      SameVia(y.key, s.n.key, q, 8 * p, s.bit);
    }
    forall y | y in Leaves(other) ensures !Starts(y.key, q, n) {
      if n <= |y.key| {
        StartsIsBits(y.key, q, n);
        NotSame(y.key, q, s.bit, 8 * n);
      }
    }
    hide Common, Starts, Leaves;
    OutsideGrows(c, s, right, q, n);
    hide NoneOutside;
  }

  lemma OutsideGrows(c: Ctx<Text>, s: Tree<Text>, right: bool, q: Text, n: nat)
    requires NoneOutside(c, q, n) && s.Inner?
    requires forall y | y in Leaves(if right then s.l else s.r) :: !Starts(y.key, q, n)
    ensures NoneOutside(if right then InRight(c, s.n, s.bit, s.l) else InLeft(c, s.n, s.bit, s.r), q, n)
  {
    var other := if right then s.l else s.r;
    var c' := if right then InRight(c, s.n, s.bit, s.l) else InLeft(c, s.n, s.bit, s.r);
    hide Starts;
    SeqLeaves(other);
    forall i | 0 <= i < |Seq(other)| ensures !Starts(Seq(other)[i].key, q, n) {
      assert Seq(other)[i] in Leaves(other);
    }
    assert Before(c') == Before(c) + (if right then Seq(other) else []);
    assert After(c') == (if right then [] else Seq(other)) + After(c);
  }

  lemma NotSame(a: Text, q: Text, i: nat, n: nat)
    requires i < n <= 8 * |a| && n <= 8 * |q| && BitAt(a, i) != BitAt(q, i)
    ensures !SameBits(a, q, n)
  {
  }

  /** Comparing a with the first n bytes of q does not go past the end of a. */
  ghost predicate Comparable(a: Text, q: Text, n: nat) {
    n <= |a| || exists i | 0 <= i < |a| && i < |q| :: a[i] != q[i]
  }

  /** This is so of long enough keys, and of zero-terminated ones when no byte looked for is zero. */
  lemma AlwaysComparable(a: Text, q: Text, n: nat, k: Kind)
    requires KeyOk(a, k) && n <= |q|
    requires match k case Fixed(len) => n <= len case Terminated => 0 !in q[..n]
    ensures Comparable(a, q, n)
  {
    if n > |a| {
      assert a[|a| - 1] == 0 && q[..n][|a| - 1] == q[|a| - 1];
    }
  }

  /** memcmp of what follows pos, up to n, the bytes before being the same. */
  method Memcmp(a: Text, q: Text, pos: nat, n: nat) returns (differ: bool)
    requires pos <= n <= |q| && pos <= |a| && a[..pos] == q[..pos] && Comparable(a, q, n)
    ensures differ <==> !Starts(a, q, n)
  {
    var i := pos;
    assert forall j | 0 <= j < pos :: a[j] == a[..pos][j] == q[..pos][j] == q[j];
    while i < n
      invariant pos <= i <= n && i <= |a| && forall j | 0 <= j < i :: a[j] == q[j]
    {
      if a[i] != q[i] {
        assert n <= |a| ==> a[..n][i] != q[..n][i];
        return true;
      }
      i := i + 1;
    }
    return false;
  }

  /** __ebmb_lookup. The caller ensures that comparisons do not go past the end of the keys. */
  method EbmbLookup(tree: EbTree<Text>, q: Text, n: nat, ghost k: Kind) returns (r: EbNode?<Text>)
    requires Holds(tree, k) && IsBytes(q) && n <= |q|
    requires forall y | y in tree.Elements() :: Comparable(y.key, q, n)
    ensures FirstStart(tree.Elements(), q, n, r)
  {
    var troot := tree.head.b0;
    if troot.Null? {
      return null;
    }
    ghost var m := Snap(tree.Objects());
    if n == 0 {
      AllStart(tree.model.t, q, k);
      r := WalkDown(troot, LEFT, m, tree.model.t, To(tree.head, LEFT));
      return;
    }
    SeekStart(tree.model.t, q, n, k);
    r := SearchStart(troot, q, n, k, m, tree.head, tree.model.t);
  }

  lemma AllStart(t: Tree<Text>, q: Text, k: Kind)
    requires BitTree(t, k)
    ensures FirstStart(Seq(t), q, 0, First(t))
  {
    hide Leaves;
    FirstHere(t, Top, t, q, 0);
  }

  lemma SeekStart(t: Tree<Text>, q: Text, n: nat, k: Kind)
    requires BitTree(t, k) && OwnBelow(t) && IsBytes(q) && 0 < n <= |q|
    requires forall y | y in Seq(t) :: Comparable(y.key, q, n)
    ensures Seeking(Top, t, 0, t, q, n, k)
  {
    SeqLeaves(t);
    assert forall y | y in Leaves(t) :: y in Seq(t) && Starts(y.key, q, 0);
    hide Common;
  }

  method SearchStart(start: Ref<Text>, q: Text, n: nat, ghost k: Kind, ghost m: Mem<Text>, ghost head: Entry,
                     ghost t: Tree<Text>)
    returns (r: EbNode?<Text>)
    requires Represents(m, head, t) && m == Snap(m.Keys) && start == Down(t) && Seeking(Top, t, 0, t, q, n, k)
    ensures FirstStart(Seq(t), q, n, r)
  {
    hide Represents, Linked, LinkedCtx, BitTree, Leaves, Inners, OwnBelow, Seeking, FirstStart, SameBits, BitAt;
    hide Common, KeyOk;
    var troot, pos: nat := start, 0;
    ghost var c, s := Top, t;
    SeekFacts(c, s, pos, t, q, n, k);
    while true
      invariant m == Snap(m.Keys) && Plug(c, s) == t
      invariant troot == Down(s) && Seeking(c, s, pos, t, q, n, k)
      decreases s
    {
      LinkedAt(m, head, c, s);
      SeekFacts(c, s, pos, t, q, n, k);
      var node := troot.node;
      assert m[node].bit == node.bit && m[node].b0 == node.b0;
      if troot.tag == LEAF || node.bit < 0 {
        var differ := Memcmp(node.key, q, pos, n);
        if differ {
          SeekEnds(c, s, pos, t, q, n, k, Mismatch);
          return null;
        }
        SeekEnds(c, s, pos, t, q, n, k, Whole);
        if troot.tag == LEAF {
          return node;
        }
        r := WalkDown(node.b0, LEFT, m, s.l, To(node, LEFT));
        return;
      }
      var o, next := FollowBytes(q, node.key, pos, n, node.bit);
      if o.Mismatch? {
        SeekEnds(c, s, pos, t, q, n, k, Mismatch);
        return null;
      }
      if o.Whole? {
        SeekWhole(node.key, q, n, node.bit);
        SeekEnds(c, s, pos, t, q, n, k, Whole);
        r := WalkDown(node.b0, LEFT, m, s.l, To(node, LEFT));
        return;
      }
      SeekGoesOn(c, s, pos, t, q, n, k);
      pos := next;
      troot := node.Branch(o.side);
      c := if o.side then InRight(c, s.n, s.bit, s.l) else InLeft(c, s.n, s.bit, s.r);
      s := if o.side then s.r else s.l;
      SeekFacts(c, s, pos, t, q, n, k);
    }
  }

  lemma SeekWhole(a: Text, q: Text, n: nat, bit: nat)
    requires n <= |a| && n <= |q| && 8 * n <= bit && SameBits(a, q, 8 * n)
    ensures SameBits(a, q, Min(bit, 8 * n))
  {
  }
}
