/** Trees of prefixes over runs that mix insertions and deletions in any order: the search of the longest prefix
    answers the one that was inserted first among the equal ones that are still there. */
module EbmbHistory {
  import opened Counting
  import opened Sifting
  import opened EbTree
  import opened EbHistory
  import opened EbPrefix
  import opened EbmbPrefix
  import opened EbmbLookup
  import opened Bytes

  ghost function BitsAre(b: seq<nat>): Entry -> bool {
    (x: Entry) => BitsOf(x.key) == b
  }

  /** Prefix by prefix, e has the entries of live in the same order. */
  ghost predicate Recalls(e: seq<Entry>, live: seq<Entry>) {
    forall b: seq<nat> :: Those(e, BitsAre(b)) == Those(live, BitsAre(b))
  }

  ghost predicate AllKeysOk(e: seq<Entry>, len: nat) {
    forall y | y in e :: KeyOk(y, len)
  }

  lemma RecallsIn(e: seq<Entry>, live: seq<Entry>)
    requires Recalls(e, live)
    ensures (forall y | y in e :: y in live) && forall y | y in live :: y in e
  {
    forall y | y in e || y in live ensures y in e && y in live {
      var f := BitsAre(BitsOf(y.key));
      assert Those(e, f) == Those(live, f);
      ThoseIn(e, f);
      ThoseIn(live, f);
    }
  }

  /** Matches of the same length stand for the same prefix. */
  lemma SameLength(q: seq<nat>, x: Entry, y: Entry)
    requires Matches(q, x) && Matches(q, y) && x.key.pfx == y.key.pfx
    ensures BitsOf(x.key) == BitsOf(y.key)
  {
    forall i | 0 <= i < x.key.pfx ensures BitAt(x.key.bytes, i) == BitAt(y.key.bytes, i) {
      assert BitAt(q, i) == BitAt(x.key.bytes, i) && BitAt(q, i) == BitAt(y.key.bytes, i);
    }
    assert BitsOf(x.key) == BitsOf(y.key);
  }

  lemma SameBitsMatch(q: seq<nat>, x: Entry, y: Entry, len: nat)
    requires Matches(q, x) && KeyOk(x, len) && KeyOk(y, len) && BitsOf(x.key) == BitsOf(y.key)
    ensures Matches(q, y) && x.key.pfx == y.key.pfx
  {
    forall i | 0 <= i < x.key.pfx ensures BitAt(q, i) == BitAt(y.key.bytes, i) {
      assert BitAt(q, i) == BitAt(x.key.bytes, i) && BitsOf(x.key)[i] == BitsOf(y.key)[i];
    }
  }

  /** The longest match in walking order is the longest match in the order of insertion. */
  lemma LongestSurvivor(e: seq<Entry>, live: seq<Entry>, q: seq<nat>, r: EbNode?<Prefix>, len: nat)
    requires Recalls(e, live) && Longest(e, q, r) && AllKeysOk(e, len)
    ensures Longest(live, q, r)
  {
    hide Those, Matches, BitsOf, KeyOk;
    RecallsIn(e, live);
    if r == null {
      forall j | 0 <= j < |live| ensures !Matches(q, live[j]) {
        assert live[j] in e;
      }
    } else {
      var b := BitsOf(r.key);
      var f := BitsAre(b);
      assert Those(e, f) == Those(live, f);
      hide Recalls;
      var i := ThoseFirst(e, f);
      var k := ThoseFirst(live, f);
      var m: nat :| m < |e| && e[m] == r && Matches(q, e[m])
        && (forall j | 0 <= j < |e| :: Matches(q, e[j]) ==> e[j].key.pfx <= e[m].key.pfx)
        && (forall j | 0 <= j < m :: Matches(q, e[j]) ==> e[j].key.pfx < e[m].key.pfx);
      assert i == m by {
        ThoseIn(e, f);
        if i < m {
          SameBitsMatch(q, r, e[i], len);
        }
      }
      assert k < |live| && live[k] == r && Matches(q, live[k]);
      forall j | 0 <= j < |live|
        ensures Matches(q, live[j]) ==> live[j].key.pfx <= live[k].key.pfx
        ensures j < k && Matches(q, live[j]) ==> live[j].key.pfx < live[k].key.pfx
      {
        assert live[j] in e;
        if Matches(q, live[j]) && live[j].key.pfx == r.key.pfx {
          SameLength(q, live[j], r);
        }
      }
    }
  }

  /** An entry added behind its equals comes last among those with its bits. */
  lemma AddedBehind(a: seq<Entry>, x: Entry, c: seq<Entry>, b: seq<nat>, len: nat)
    requires NoneSame(c, x) && AllKeysOk(c, len) && KeyOk(x, len)
    ensures Those(a + [x] + c, BitsAre(b)) == Those(a + c, BitsAre(b)) + Those([x], BitsAre(b))
  {
    var f := BitsAre(b);
    if f(x) {
      forall j | 0 <= j < |c| ensures !f(c[j]) {
        assert c[j] in c;
        SameBitsOf(c[j], x, len);
      }
      ThoseNone(c, f);
    } else {
      ThoseNone([x], f);
    }
    hide Those, BitsAre;
    ThoseConcat(a + [x], c, f);
    ThoseConcat(a, [x], f);
    ThoseConcat(a, c, f);
  }

  lemma RecallsAdded(e: seq<Entry>, live: seq<Entry>, x: Entry, e': seq<Entry>, len: nat)
    requires Recalls(e, live) && AddedLast(e, x, e') && AllKeysOk(e, len) && KeyOk(x, len)
    ensures Recalls(e', live + [x]) && AllKeysOk(e', len)
  {
    hide Those, NoneSame, KeyOk;
    var i: nat :| i <= |e| && e' == e[..i] + [x] + e[i..] && NoneSame(e[i..], x);
    assert e == e[..i] + e[i..];
    forall b: seq<nat> ensures Those(e', BitsAre(b)) == Those(live + [x], BitsAre(b)) {
      assert Those(e, BitsAre(b)) == Those(live, BitsAre(b));
      AddedBehind(e[..i], x, e[i..], b, len);
      ThoseConcat(live, [x], BitsAre(b));
    }
  }

  lemma RecallsOmits(e: seq<Entry>, live: seq<Entry>, x: Entry, i: nat, e': seq<Entry>)
    requires Recalls(e, live) && NoRepeats(e)
    requires if x in e then i < |e| && e[i] == x && e' == e[..i] + e[i + 1..] else e' == e
    ensures Recalls(e', Those(live, Other(x)))
  {
    hide Those, NoRepeats;
    forall b: seq<nat> ensures Those(e', BitsAre(b)) == Those(Those(live, Other(x)), BitsAre(b)) {
      assert Those(e, BitsAre(b)) == Those(live, BitsAre(b));
      Omits(e, live, x, i, e', BitsAre(b));
    }
  }

  lemma TreeKeysOk(tree: EbTree<Prefix>, len: nat)
    requires Holds(tree, len)
    ensures AllKeysOk(tree.Elements(), len)
  {
    if tree.model.Full? {
      PrefixedKeys(tree.model.t, len);
      SeqLeaves(tree.model.t);
    }
  }

  lemma AddedIn(e: seq<Entry>, x: Entry, e': seq<Entry>)
    requires AddedLast(e, x, e')
    ensures x in e' && forall y | y in e :: y in e'
    ensures forall y | y in e' :: y == x || y in e
  {
    var i: nat :| i <= |e| && e' == e[..i] + [x] + e[i..] && NoneSame(e[i..], x);
    assert e == e[..i] + e[i..];
  }

  method Step(tree: EbTree<Prefix>, op: Op<Prefix>, len: nat, ghost live: seq<Entry>, ghost pool: set<Entry>)
    requires Holds(tree, len) && !tree.IsUnique() && Pooled(tree, pool) && Recalls(tree.Elements(), live)
    requires op.x in pool && op.x != tree.head && (op.Link? ==> op.x !in live && KeyOk(op.x, len))
    modifies tree, pool
    ensures Holds(tree, len) && !tree.IsUnique() && Pooled(tree, pool)
    ensures Recalls(tree.Elements(), Then(live, op))
  {
    hide Represents, Prefixed, Recalls, NoRepeats, AddedLast, AllKeysOk, NoneSame, Those, KeyOk, DistinctPrefixes;
    ghost var e := tree.Elements();
    ObjectsLinked(tree);
    RecallsIn(e, live);
    TreeKeysOk(tree, len);
    match op
    case Link(x) =>
      var _ := EbmbInsertPrefix(tree, x, len);
      AddedIn(e, x, tree.Elements());
      RecallsAdded(e, live, x, tree.Elements(), len);
    case Unlink(x) =>
      ghost var i := if x in e then tree.Rank(x) else 0;
      EbmbDelete(tree, x, len);
      RecallsOmits(e, live, x, i, tree.Elements());
  }

  /** Any insertions and deletions, from an empty tree on: prefix by prefix, the walk gives the survivors in the
      order of their insertion. */
  method Run(tree: EbTree<Prefix>, ops: seq<Op<Prefix>>, len: nat, ghost pool: set<Entry>)
    requires Holds(tree, len) && !tree.IsUnique() && tree.Elements() == [] && Pooled(tree, pool) && Legal(ops)
    requires forall op | op in ops :: op.x in pool && op.x != tree.head && KeyOk(op.x, len)
    modifies tree, pool
    ensures Holds(tree, len) && Recalls(tree.Elements(), Survivors(ops))
  {
    assert Recalls([], []);
    hide Represents, Recalls, Holds, Pooled, Then, KeyOk;
    var k := 0;
    assert ops[..0] == [];
    while k < |ops|
      invariant 0 <= k <= |ops|
      invariant Holds(tree, len) && !tree.IsUnique() && Pooled(tree, pool)
      invariant Recalls(tree.Elements(), Survivors(ops[..k]))
    {
      Step(tree, ops[k], len, Survivors(ops[..k]), pool);
      assert ops[..k + 1][..k] == ops[..k];
      k := k + 1;
    }
    assert ops[..k] == ops;
  }

  /** And the longest prefix found for a key is the longest one that matches among the survivors, the one inserted
      first among equal ones. */
  method LongestInserted(tree: EbTree<Prefix>, ops: seq<Op<Prefix>>, len: nat, q: seq<nat>, ghost pool: set<Entry>)
    returns (r: EbNode?<Prefix>)
    requires Holds(tree, len) && !tree.IsUnique() && tree.Elements() == [] && Pooled(tree, pool) && Legal(ops)
    requires forall op | op in ops :: op.x in pool && op.x != tree.head && KeyOk(op.x, len)
    requires IsBytes(q) && |q| >= len
    modifies tree, pool
    ensures Longest(Survivors(ops), q, r)
  {
    hide Represents, Recalls, Holds, Pooled, Longest, KeyOk, AllKeysOk;
    Run(tree, ops, len, pool);
    TreeKeysOk(tree, len);
    r := EbmbLookupLongest(tree, q, len);
    LongestSurvivor(tree.Elements(), Survivors(ops), q, r, len);
  }
}
