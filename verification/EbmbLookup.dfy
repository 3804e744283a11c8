/** Searches in a tree of prefixes: the longest prefix of a key, and an exact prefix. */
module EbmbLookup {
  import opened Bits
  import opened Bytes
  import opened EbTree
  import opened EbSplice
  import opened EbWalk
  import opened EbPrefix
  import opened EbmbPrefix
  import EbScalar

  /** The entry's prefix is a prefix of q. */
  ghost predicate Matches(q: seq<nat>, y: Entry) {
    && y.key.pfx <= 8 * |q| && y.key.pfx <= 8 * |y.key.bytes|
    && SameBits(q, y.key.bytes, y.key.pfx)
  }

  /** r is the first entry among those with the longest matching prefix, or null when none matches. */
  ghost predicate Longest(e: seq<Entry>, q: seq<nat>, r: EbNode?<Prefix>) {
    if r == null then forall i | 0 <= i < |e| :: !Matches(q, e[i])
    else exists i | 0 <= i < |e| ::
      && e[i] == r && Matches(q, e[i])
      && (forall j | 0 <= j < |e| :: Matches(q, e[j]) ==> e[j].key.pfx <= e[i].key.pfx)
      && (forall j | 0 <= j < i :: Matches(q, e[j]) ==> e[j].key.pfx < e[i].key.pfx)
  }

  /** A tree all of whose entries match with length p wins over shorter matches elsewhere. */
  lemma Winner(t: Tree<Prefix>, c: Ctx<Prefix>, s: Tree<Prefix>, q: seq<nat>, p: nat)
    requires Plug(c, s) == t && forall y | y in Leaves(s) :: Matches(q, y) && y.key.pfx == p
    requires forall y | y in CLeaves(c) :: Matches(q, y) ==> y.key.pfx < p
    ensures Longest(Seq(t), q, First(s))
  {
    hide Matches, Plug, Leaves, CLeaves, Seq, First;
    PlugSeq(c, s);
    PlugSets(c, s);
    SeqLeaves(s);
    SeqLeaves(t);
    OutsideLeaves(c);
    var e, i := Seq(t), |Before(c)|;
    assert e[i] == Seq(s)[0];
    forall j | 0 <= j < |e|
      ensures Matches(q, e[j]) ==> e[j].key.pfx <= p
      ensures j < i && Matches(q, e[j]) ==> e[j].key.pfx < p
    {
      assert e[j] in Leaves(t);
      if j < i {
        assert e[j] == Before(c)[j];
      }
    }
  }

  /** The bits of q and of a node's key, up to bit n where the node decides. The bytes before pos are
      known to agree; pos moves to the byte of bit n, and side is that byte of q shifted to bit n. */
  method FollowBits(q: seq<nat>, key: seq<nat>, start: nat, n: nat) returns (ok: bool, pos: nat, side: nat)
    requires IsBytes(q) && IsBytes(key) && n < 8 * |key| && |key| <= |q| && start <= n / 8
    requires SameBits(q, key, 8 * start)
    ensures ok <==> SameBits(q, key, n)
    ensures ok ==> pos == n / 8 && side % 2 == BitAt(q, n)
  {
    pos, side := start, 0;
    var nodeBit := 8 * pos + 7 - n;
    if nodeBit < 0 {
      while true
        invariant nodeBit == 8 * pos + 7 - n < 0 && SameBits(q, key, 8 * pos)
        decreases n / 8 - pos
      {
        SameBitsByte(q, key, pos);
        pos := pos + 1;
        XorZero(key[pos - 1], q[pos - 1]);
        if Xor(key[pos - 1], q[pos - 1]) != 0 {
          assert !SameBits(q, key, 8 * pos);
          return false, pos, side;
        }
        nodeBit := nodeBit + 8;
        if nodeBit >= 0 {
          break;
        }
      }
    }
    side := Shr(q[pos], nodeBit);
    LastBits(key, q, pos, n);
    ok := !(Xor(Shr(key[pos], nodeBit), side) > 1);
  }

  // ---------------------------------------------------------------------------
  // Longest match

  /** Where the walk is: at the tree s in the hole of c. The last cover node passed, if any, left the tree
      cv in the hole of cc, whose entries have length p. */
  datatype Walk = Walk(c: Ctx<Prefix>, s: Tree<Prefix>, covered: bool, cc: Ctx<Prefix>, cv: Tree<Prefix>, p: nat)

  /** All of cv matches; anything else that matches is shorter, or still below s, where all are longer. */
  ghost predicate Knows(w: Walk, t: Tree<Prefix>, q: seq<nat>) {
    && Plug(w.c, w.s) == t
    && if w.covered then
         && Plug(w.cc, w.cv) == t
         && (forall y | y in Leaves(w.cv) :: Matches(q, y) && y.key.pfx == w.p)
         && (forall y | y in CLeaves(w.c) :: Matches(q, y) ==> y.key.pfx <= w.p)
         && (forall y | y in CLeaves(w.cc) && y !in Leaves(w.s) :: Matches(q, y) ==> y.key.pfx < w.p)
         && (forall y | y in Leaves(w.s) :: y.key.pfx > w.p)
       else forall y | y in CLeaves(w.c) :: !Matches(q, y)
  }

  /** Nothing below s matches: the cover wins, if there is one. */
  lemma CoverWins(w: Walk, t: Tree<Prefix>, q: seq<nat>)
    requires Knows(w, t, q) && forall y | y in Leaves(w.s) :: !Matches(q, y)
    ensures Longest(Seq(t), q, if w.covered then First(w.cv) else null)
  {
    if w.covered {
      Winner(t, w.cc, w.cv, q, w.p);
    } else {
      PlugSets(w.c, w.s);
      SeqLeaves(t);
      forall i | 0 <= i < |Seq(t)| ensures !Matches(q, Seq(t)[i]) {
        assert Seq(t)[i] in Leaves(t);
      }
    }
  }

  /** All of s matches with one length: its first entry wins. */
  lemma HereWins(w: Walk, t: Tree<Prefix>, q: seq<nat>)
    requires Knows(w, t, q) && OwnBelow(w.s)
    requires forall y | y in Leaves(w.s) :: Matches(q, y) && y.key.pfx == w.s.n.key.pfx
    ensures Longest(Seq(t), q, First(w.s))
  {
    EbScalar.TopIsLeaf(w.s);
    Winner(t, w.c, w.s, q, w.s.n.key.pfx);
  }

  /** A single prefix matches as a whole or not at all. */
  lemma SingleMatch(s: Tree<Prefix>, len: nat, q: seq<nat>)
    requires Prefixed(s, len) && OwnBelow(s) && (s.Leaf? || s.bit < 0) && |q| >= len
    ensures KeyOk(s.n, len)
    ensures forall y | y in Leaves(s) ::
      y.key.pfx == s.n.key.pfx && (Matches(q, y) <==> SameBits(q, s.n.key.bytes, s.n.key.pfx))
  {
    EbScalar.TopIsLeaf(s);
    TopAgrees(s, len, s.n);
    forall y | y in Leaves(s)
      ensures y.key.pfx == s.n.key.pfx && (Matches(q, y) <==> SameBits(q, s.n.key.bytes, s.n.key.pfx))
    {
      TopAgrees(s, len, y);
      SameVia(q, y, s.n, y.key.pfx);
    }
  }

  lemma SameVia(q: seq<nat>, y: Entry, z: Entry, n: nat)
    requires Agree(y, z, n) && n <= 8 * |q|
    ensures SameBits(q, y.key.bytes, n) <==> SameBits(q, z.key.bytes, n)
  {
    var a, b := y.key.bytes, z.key.bytes;
    assert forall i | 0 <= i < n :: BitAt(a, i) == BitAt(b, i);
    assert SameBits(q, a, n) ==> forall i | 0 <= i < n :: BitAt(q, i) == BitAt(a, i) == BitAt(b, i);
    assert SameBits(q, b, n) ==> forall i | 0 <= i < n :: BitAt(q, i) == BitAt(b, i) == BitAt(a, i);
  }

  /** A node whose bits q does not follow has nothing that matches. */
  lemma NothingBelow(s: Tree<Prefix>, len: nat, q: seq<nat>)
    requires Prefixed(s, len) && OwnBelow(s) && s.Inner? && s.bit >= 0 && |q| >= len
    requires !SameBits(q, s.n.key.bytes, s.bit / 2)
    ensures forall y | y in Leaves(s) :: !Matches(q, y)
  {
    forall y | y in Leaves(s) ensures !Matches(q, y) {
      TopAgrees(s, len, y);
      SameVia(q, y, s.n, s.bit / 2);
    }
  }

  /** Going down a cover node: its left branch, which matches as a whole, becomes the cover. */
  ghost function CoverDown(w: Walk): Walk
    requires w.s.Inner? && w.s.bit >= 0
  {
    var s := w.s;
    Walk(InRight(w.c, s.n, s.bit, s.l), s.r, true, InLeft(w.c, s.n, s.bit, s.r), s.l, s.bit / 2)
  }

  lemma CoverStep(w: Walk, t: Tree<Prefix>, q: seq<nat>, len: nat)
    requires Knows(w, t, q) && Prefixed(w.s, len) && OwnBelow(w.s) && |q| >= len
    requires w.s.Inner? && w.s.bit >= 0 && w.s.bit % 2 == 0 && SameBits(q, w.s.n.key.bytes, w.s.bit / 2)
    ensures Knows(CoverDown(w), t, q)
  {
    var s := w.s;
    EbScalar.TopIsLeaf(s.l);
    forall y | y in Leaves(s.l) ensures Matches(q, y) && y.key.pfx == s.bit / 2 {
      TopAgrees(s, len, y);
      SameVia(q, y, s.n, s.bit / 2);
    }
    assert w.covered ==> s.l.n in Leaves(s) && s.bit / 2 > w.p;
  }

  /** Going down a normal node: the other branch differs from q on the deciding bit. */
  ghost function SideDown(w: Walk, turn: bool): Walk
    requires w.s.Inner?
  {
    var s := w.s;
    if turn then w.(c := InRight(w.c, s.n, s.bit, s.l), s := s.r) else w.(c := InLeft(w.c, s.n, s.bit, s.r), s := s.l)
  }

  lemma NormalStep(w: Walk, t: Tree<Prefix>, q: seq<nat>, len: nat)
    requires Knows(w, t, q) && Prefixed(w.s, len) && OwnBelow(w.s) && |q| >= len
    requires w.s.Inner? && w.s.bit >= 0 && w.s.bit % 2 == 1
    ensures Knows(SideDown(w, BitAt(q, w.s.bit / 2) == 1), t, q)
  {
    var s, n := w.s, w.s.bit / 2;
    forall y | y in Leaves(if BitAt(q, n) == 1 then s.l else s.r) ensures !Matches(q, y) {
      TopAgrees(s, len, y);
      assert BitAt(y.key.bytes, n) != BitAt(q, n);
    }
  }

  /** The state of the walk: the bytes before pos are known to agree with everything in s. */
  ghost predicate Walking(w: Walk, pos: nat, t: Tree<Prefix>, q: seq<nat>, len: nat) {
    && Knows(w, t, q) && Prefixed(w.s, len) && OwnBelow(w.s) && KeyOk(w.s.n, len)
    && pos < len && |q| >= len && SameBits(q, w.s.n.key.bytes, 8 * pos)
    && (w.s.Inner? && w.s.bit >= 0 ==> pos <= w.s.bit / 2 / 8)
  }

  /** What the code relies on at each turn. */
  lemma WalkFacts(w: Walk, pos: nat, t: Tree<Prefix>, q: seq<nat>, len: nat)
    requires Walking(w, pos, t, q, len)
    ensures Plug(w.c, w.s) == t && (w.covered ==> Plug(w.cc, w.cv) == t)
    ensures pos < len && |q| >= len && IsBytes(w.s.n.key.bytes) && |w.s.n.key.bytes| == len && w.s.n.key.pfx <= 8 * len
    ensures SameBits(q, w.s.n.key.bytes, 8 * pos)
    ensures w.s.Inner? && w.s.bit >= 0 ==> pos <= w.s.bit / 2 / 8 && w.s.bit / 2 < 8 * len
  {
  }

  /** At a leaf or a duplicate tree the walk ends: everything there matches or nothing does. */
  lemma EndsOnSingle(w: Walk, pos: nat, t: Tree<Prefix>, q: seq<nat>, len: nat)
    requires Walking(w, pos, t, q, len) && (w.s.Leaf? || w.s.bit < 0)
    ensures Longest(Seq(t), q,
      if SameBits(q, w.s.n.key.bytes, w.s.n.key.pfx) then First(w.s) else if w.covered then First(w.cv) else null)
  {
    SingleMatch(w.s, len, q);
    if SameBits(q, w.s.n.key.bytes, w.s.n.key.pfx) {
      HereWins(w, t, q);
    } else {
      CoverWins(w, t, q);
    }
  }

  /** At a node q does not follow the walk ends on the cover. */
  lemma EndsAbove(w: Walk, pos: nat, t: Tree<Prefix>, q: seq<nat>, len: nat)
    requires Walking(w, pos, t, q, len) && w.s.Inner? && w.s.bit >= 0
    requires w.s.bit / 2 < 8 * |w.s.n.key.bytes| && !SameBits(q, w.s.n.key.bytes, w.s.bit / 2)
    ensures Longest(Seq(t), q, if w.covered then First(w.cv) else null)
  {
    NothingBelow(w.s, len, q);
    CoverWins(w, t, q);
  }

  /** At a node q follows the walk goes on. */
  lemma GoesOn(w: Walk, pos: nat, t: Tree<Prefix>, q: seq<nat>, len: nat)
    requires Walking(w, pos, t, q, len) && w.s.Inner? && w.s.bit >= 0
    requires w.s.bit / 2 < 8 * |w.s.n.key.bytes| && SameBits(q, w.s.n.key.bytes, w.s.bit / 2)
    ensures var n := w.s.bit / 2;
      Walking(if w.s.bit % 2 == 0 then CoverDown(w) else SideDown(w, BitAt(q, n) == 1), n / 8, t, q, len)
  {
    var n := w.s.bit / 2;
    if w.s.bit % 2 == 0 {
      CoverStep(w, t, q, len);
      KnownBytes(w.s, w.s.r, q, len);
    } else {
      NormalStep(w, t, q, len);
      KnownBytes(w.s, if BitAt(q, n) == 1 then w.s.r else w.s.l, q, len);
    }
  }

  /** Below a node q follows, the bytes before the deciding bit are still known to agree. */
  lemma KnownBytes(s: Tree<Prefix>, u: Tree<Prefix>, q: seq<nat>, len: nat)
    requires Prefixed(s, len) && OwnBelow(s) && s.Inner? && s.bit >= 0 && |q| >= len
    requires (u == s.l || u == s.r) && SameBits(q, s.n.key.bytes, s.bit / 2)
    ensures Prefixed(u, len) && OwnBelow(u) && KeyOk(u.n, len)
    ensures SameBits(q, u.n.key.bytes, 8 * (s.bit / 2 / 8))
    ensures u.Inner? && u.bit >= 0 ==> s.bit / 2 / 8 <= u.bit / 2 / 8
    ensures s.bit / 2 / 8 < len
  {
    EbScalar.TopIsLeaf(u);
    TopAgrees(s, len, u.n);
    SameVia(q, u.n, s.n, s.bit / 2);
  }

  lemma WalkStart(t: Tree<Prefix>, q: seq<nat>, len: nat)
    requires Prefixed(t, len) && OwnBelow(t) && |q| >= len > 0
    ensures Walking(Walk(Top, t, false, Top, t, 0), 0, t, q, len)
  {
    EbScalar.TopIsLeaf(t);
    TopAgrees(t, len, t.n);
  }

  /** __ebmb_lookup_longest */
  method EbmbLookupLongest(tree: EbTree<Prefix>, q: seq<nat>, ghost len: nat) returns (r: EbNode?<Prefix>)
    requires Holds(tree, len) && IsBytes(q) && |q| >= len
    ensures Longest(tree.Elements(), q, r)
  {
    var troot := tree.head.b0;
    if troot.Null? {
      return null;
    }
    WalkStart(tree.model.t, q, len);
    r := SearchLongest(troot, q, len, Snap(tree.Objects()), tree.head, tree.model.t);
  }

  method SearchLongest(root: Ref<Prefix>, q: seq<nat>, ghost len: nat, ghost m: Mem<Prefix>, ghost head: Entry,
                       ghost t: Tree<Prefix>)
    returns (r: EbNode?<Prefix>)
    requires Represents(m, head, t) && m == Snap(m.Keys) && root == Down(t) && IsBytes(q)
    requires Walking(Walk(Top, t, false, Top, t, 0), 0, t, q, len)
    ensures Longest(Seq(t), q, r)
  {
    hide Represents, Linked, LinkedCtx, Prefixed, Matches, Longest, Knows, OwnBelow, Leaves, Inners, SameBits;
    hide Walking, Plug, BitAt;
    var troot, cover := root, Null(false);
    // The C pointer into the key moves in step with pos, so that it is q + pos.
    var pos: nat := 0;
    ghost var w := Walk(Top, t, false, Top, t, 0);
    while true
      invariant m == Snap(m.Keys)
      invariant Walking(w, pos, t, q, len) && troot == Down(w.s)
      invariant cover == if w.covered then Down(w.cv) else Null(false)
      decreases w.s
    {
      WalkFacts(w, pos, t, q, len);
      LinkedAt(m, head, w.c, w.s);
      var node := troot.node;
      assert m[node].bit == node.bit && m[node].b0 == node.b0 && m[node].b1 == node.b1;
      if troot.tag == LEAF || node.bit < 0 {
        // A leaf, or a duplicate tree, which matches as a whole or not at all.
        EndsOnSingle(w, pos, t, q, len);
        var diff := CheckBits(q, node.key.bytes, pos, node.key.pfx);
        if diff != 0 {
          break;
        }
        if troot.tag == LEAF {
          return node;
        }
        r := WalkDown(node.b0, LEFT, m, w.s.l, To(node, LEFT));
        return;
      }
      var nodeBit := node.bit;
      var ok, pos', side := FollowBits(q, node.key.bytes, pos, nodeBit / 2);
      if !ok {
        EndsAbove(w, pos, t, q, len);
        break;
      }
      GoesOn(w, pos, t, q, len);
      pos := pos';
      if nodeBit % 2 == 0 {
        // A cover node: remember the covering subtree, walk down the covered one.
        cover := node.b0;
        troot := node.b1;
        w := CoverDown(w);
      } else {
        troot := node.Branch(side % 2 == 1);
        w := SideDown(w, side % 2 == 1);
      }
    }
    if w.covered {
      LinkedAt(m, head, w.cc, w.cv);
    }
    r := WalkDown(cover, LEFT, m, w.cv, Up(w.cc, head));
  }

  // ---------------------------------------------------------------------------
  // Exact match

  /** The entry's prefix is the first n bits of q. */
  ghost predicate Exact(q: seq<nat>, n: nat, y: Entry) {
    y.key.pfx == n && Matches(q, y)
  }

  /** r is the first entry for the prefix of n bits of q, or null when there is none. */
  ghost predicate FirstExact(e: seq<Entry>, q: seq<nat>, n: nat, r: EbNode?<Prefix>) {
    if r == null then forall i | 0 <= i < |e| :: !Exact(q, n, e[i])
    else exists i | 0 <= i < |e| :: e[i] == r && Exact(q, n, e[i]) && forall j | 0 <= j < i :: !Exact(q, n, e[j])
  }

  ghost predicate NoneOutside(c: Ctx<Prefix>, q: seq<nat>, n: nat) {
    forall y | y in CLeaves(c) :: !Exact(q, n, y)
  }

  lemma ExactHere(t: Tree<Prefix>, c: Ctx<Prefix>, s: Tree<Prefix>, q: seq<nat>, n: nat)
    requires Plug(c, s) == t && NoneOutside(c, q, n)
    requires forall y | y in Leaves(s) :: Exact(q, n, y)
    ensures FirstExact(Seq(t), q, n, First(s))
  {
    hide Exact, Plug, Leaves, CLeaves, Seq, First;
    PlugSeq(c, s);
    SeqLeaves(s);
    OutsideLeaves(c);
    var e, i := Seq(t), |Before(c)|;
    assert e[i] == Seq(s)[0];
    forall j | 0 <= j < i ensures !Exact(q, n, e[j]) {
      assert e[j] == Before(c)[j];
    }
  }

  lemma ExactNowhere(t: Tree<Prefix>, c: Ctx<Prefix>, s: Tree<Prefix>, q: seq<nat>, n: nat)
    requires Plug(c, s) == t && NoneOutside(c, q, n)
    requires forall y | y in Leaves(s) :: !Exact(q, n, y)
    ensures FirstExact(Seq(t), q, n, null)
  {
    PlugSets(c, s);
    SeqLeaves(t);
    forall i | 0 <= i < |Seq(t)| ensures !Exact(q, n, Seq(t)[i]) {
      assert Seq(t)[i] in Leaves(t);
    }
  }

  /** The state of the exact search, as for the longest match. */
  ghost predicate Seeking(c: Ctx<Prefix>, s: Tree<Prefix>, pos: nat, t: Tree<Prefix>, q: seq<nat>, n: nat, len: nat) {
    && Plug(c, s) == t && NoneOutside(c, q, n) && Prefixed(s, len) && OwnBelow(s) && KeyOk(s.n, len)
    && pos < len && |q| >= len && SameBits(q, s.n.key.bytes, 8 * pos)
    && (s.Inner? && s.bit >= 0 ==> pos <= s.bit / 2 / 8)
  }

  lemma SeekFacts(c: Ctx<Prefix>, s: Tree<Prefix>, pos: nat, t: Tree<Prefix>, q: seq<nat>, n: nat, len: nat)
    requires Seeking(c, s, pos, t, q, n, len)
    ensures Plug(c, s) == t
    ensures pos < len && |q| >= len && IsBytes(s.n.key.bytes) && |s.n.key.bytes| == len && s.n.key.pfx <= 8 * len
    ensures SameBits(q, s.n.key.bytes, 8 * pos)
    ensures s.Inner? && s.bit >= 0 ==> pos <= s.bit / 2 / 8 && s.bit / 2 < 8 * len
  {
  }

  lemma SeekEnds(c: Ctx<Prefix>, s: Tree<Prefix>, pos: nat, t: Tree<Prefix>, q: seq<nat>, n: nat, len: nat)
    requires Seeking(c, s, pos, t, q, n, len)
    ensures s.Leaf? || s.bit < 0 ==>
      FirstExact(Seq(t), q, n, if s.n.key.pfx == n && SameBits(q, s.n.key.bytes, s.n.key.pfx) then First(s) else null)
    ensures s.Inner? && s.bit >= 0 && !SameBits(q, s.n.key.bytes, s.bit / 2) ==> FirstExact(Seq(t), q, n, null)
  {
    if s.Leaf? || s.bit < 0 {
      SingleMatch(s, len, q);
      if s.n.key.pfx == n && SameBits(q, s.n.key.bytes, s.n.key.pfx) {
        ExactHere(t, c, s, q, n);
      } else {
        ExactNowhere(t, c, s, q, n);
      }
    } else if !SameBits(q, s.n.key.bytes, s.bit / 2) {
      NothingBelow(s, len, q);
      ExactNowhere(t, c, s, q, n);
    }
  }

  /** The side of the prefix at a node q follows: the left of its own cover node, otherwise the right of
      a cover node, otherwise the side of the deciding bit. */
  ghost predicate Turns(s: Tree<Prefix>, q: seq<nat>, n: nat)
    requires s.Inner? && 0 <= s.bit / 2 < 8 * |q|
  {
    if s.bit % 2 == 0 then s.bit / 2 != n else BitAt(q, s.bit / 2) == 1
  }

  lemma SeekGoesOn(c: Ctx<Prefix>, s: Tree<Prefix>, pos: nat, t: Tree<Prefix>, q: seq<nat>, n: nat, len: nat)
    requires Seeking(c, s, pos, t, q, n, len) && s.Inner? && s.bit >= 0 && s.bit / 2 < 8 * len
    requires SameBits(q, s.n.key.bytes, s.bit / 2)
    ensures var turn := Turns(s, q, n);
      Seeking(if turn then InRight(c, s.n, s.bit, s.l) else InLeft(c, s.n, s.bit, s.r), if turn then s.r else s.l,
              s.bit / 2 / 8, t, q, n, len)
  {
    var turn := Turns(s, q, n);
    KnownBytes(s, if turn then s.r else s.l, q, len);
    forall y | y in Leaves(if turn then s.l else s.r) ensures !Exact(q, n, y) {
      TopAgrees(s, len, y);
      if s.bit % 2 == 1 {
        assert BitAt(y.key.bytes, s.bit / 2) != BitAt(q, s.bit / 2);
      }
    }
  }

  /** __ebmb_lookup_prefix */
  method EbmbLookupPrefix(tree: EbTree<Prefix>, q: seq<nat>, pfx: nat, ghost len: nat) returns (r: EbNode?<Prefix>)
    requires Holds(tree, len) && IsBytes(q) && |q| >= len
    ensures FirstExact(tree.Elements(), q, pfx, r)
  {
    var troot := tree.head.b0;
    if troot.Null? {
      return null;
    }
    EbScalar.TopIsLeaf(tree.model.t);
    TopAgrees(tree.model.t, len, tree.model.t.n);
    r := SearchExact(troot, q, pfx, len, Snap(tree.Objects()), tree.head, tree.model.t);
  }

  method SearchExact(root: Ref<Prefix>, q: seq<nat>, pfx: nat, ghost len: nat, ghost m: Mem<Prefix>,
                     ghost head: Entry, ghost t: Tree<Prefix>)
    returns (r: EbNode?<Prefix>)
    requires Represents(m, head, t) && m == Snap(m.Keys) && root == Down(t) && IsBytes(q)
    requires Seeking(Top, t, 0, t, q, pfx, len)
    ensures FirstExact(Seq(t), q, pfx, r)
  {
    hide Represents, Linked, LinkedCtx, Prefixed, FirstExact, OwnBelow, Leaves, Inners, SameBits, Seeking, Plug, BitAt;
    var troot := root;
    var pos: nat := 0;
    ghost var c, s := Top, t;
    while true
      invariant m == Snap(m.Keys)
      invariant Seeking(c, s, pos, t, q, pfx, len) && troot == Down(s)
      decreases s
    {
      SeekFacts(c, s, pos, t, q, pfx, len);
      LinkedAt(m, head, c, s);
      SeekEnds(c, s, pos, t, q, pfx, len);
      var node := troot.node;
      assert m[node].bit == node.bit && m[node].b0 == node.b0 && m[node].b1 == node.b1;
      if troot.tag == LEAF || node.bit < 0 {
        if node.key.pfx != pfx {
          return null;
        }
        var diff := CheckBits(q, node.key.bytes, pos, node.key.pfx);
        if diff != 0 {
          return null;
        }
        if troot.tag == LEAF {
          return node;
        }
        r := WalkDown(node.b0, LEFT, m, s.l, To(node, LEFT));
        return;
      }
      var nodeBit := node.bit;
      var ok, pos', side := FollowBits(q, node.key.bytes, pos, nodeBit / 2);
      if !ok {
        return null;
      }
      SeekGoesOn(c, s, pos, t, q, pfx, len);
      pos := pos';
      var turn := if nodeBit % 2 == 0 then nodeBit / 2 != pfx else side % 2 == 1;
      troot := node.Branch(turn);
      c := if turn then InRight(c, s.n, s.bit, s.l) else InLeft(c, s.n, s.bit, s.r);
      s := if turn then s.r else s.l;
    }
  }
}
