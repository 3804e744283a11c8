/** Trees with duplicates over runs that mix insertions and deletions in any order: a search answers the entry
    that was inserted first among those with its key that are still there. */
module EbHistory {
  import opened Counting
  import opened Sifting
  import opened EbTree
  import opened EbScalar
  import opened EbRuns
  import opened Eb32
  import opened Eb32Lookup

  datatype Op<K> = Link(x: EbNode<K>) | Unlink(x: EbNode<K>)

  /** The entries still there, in the order in which they were inserted, after one more call. */
  ghost function Then<K>(live: seq<EbNode<K>>, op: Op<K>): seq<EbNode<K>> {
    if op.Link? then live + [op.x] else Those(live, Other(op.x))
  }

  ghost function Survivors<K>(ops: seq<Op<K>>): seq<EbNode<K>> {
    if ops == [] then [] else Then(Survivors(ops[..|ops| - 1]), ops[|ops| - 1])
  }

  /** Callers insert only what is not linked; deleting what is not linked is harmless. */
  ghost predicate Legal<K>(ops: seq<Op<K>>) {
    forall k | 0 <= k < |ops| && ops[k].Link? :: ops[k].x !in Survivors(ops[..k])
  }

  /** The objects of a run are linked in the tree or not at all. */
  ghost predicate Pooled<K>(tree: EbTree<K>, pool: set<EbNode<K>>)
    reads tree, pool
  {
    && tree.head in pool && (forall y | y in tree.Elements() :: y in pool)
    && forall y | y in pool && y != tree.head :: y in tree.Elements() || y.leafP.Null?
  }

  lemma ObjectsLinked<K>(tree: EbTree<K>)
    requires tree.Valid()
    ensures forall y | y in tree.Objects() :: y == tree.head || y in tree.Elements()
    ensures tree.head !in tree.Elements() && NoRepeats(tree.Elements())
  {
    if tree.model.Full? {
      SeqLeaves(tree.model.t);
      InnersAreLeaves(tree.model.t);
      SeqNoRepeats(tree.model.t);
    }
  }

  /** A deletion, as what remains sees it */
  lemma Omits<K>(e: seq<EbNode<K>>, live: seq<EbNode<K>>, x: EbNode<K>, i: nat, e': seq<EbNode<K>>,
                 f: EbNode<K> -> bool)
    requires NoRepeats(e) && Those(e, f) == Those(live, f)
    requires if x in e then i < |e| && e[i] == x && e' == e[..i] + e[i + 1..] else e' == e
    ensures Those(e', f) == Those(Those(live, Other(x)), f)
  {
    if x in e {
      Omitted(e, i);
    } else {
      ThoseAll(e, Other(x));
    }
    hide Those;
    ThoseSwap(e, Other(x), f);
    ThoseSwap(live, f, Other(x));
  }

  // ---------------------------------------------------------------------------
  // Integer keys

  /** Key by key, e has the entries of live in the same order. */
  ghost predicate Recalls(e: seq<EbNode<nat>>, live: seq<EbNode<nat>>) {
    forall k: nat :: OfKey(e, k) == OfKey(live, k)
  }

  lemma RecallsIn(e: seq<EbNode<nat>>, live: seq<EbNode<nat>>)
    requires Recalls(e, live)
    ensures (forall y | y in e :: y in live) && forall y | y in live :: y in e
  {
    forall y | y in e || y in live ensures y in e && y in live {
      assert OfKey(e, y.key) == OfKey(live, y.key);
      ThoseIn(e, KeyIs(y.key));
      ThoseIn(live, KeyIs(y.key));
    }
  }

  /** The first match is the one that was inserted first among the entries still there. */
  lemma FirstSurvivor(e: seq<EbNode<nat>>, live: seq<EbNode<nat>>, k: nat, r: EbNode?<nat>)
    requires Recalls(e, live) && FirstMatch(e, k, r)
    ensures FirstMatch(live, k, r)
  {
    var f := KeyIs(k);
    assert OfKey(e, k) == OfKey(live, k);
    var i := ThoseFirst(e, f);
    var j := ThoseFirst(live, f);
  }

  lemma RecallsPlaced(e: seq<EbNode<nat>>, live: seq<EbNode<nat>>, x: EbNode<nat>, o: Order)
    requires Recalls(e, live) && Sorted(e, o)
    ensures Recalls(Placed(e, x, o), live + [x])
  {
    hide Those, Sorted, Placed;
    forall k: nat ensures OfKey(Placed(e, x, o), k) == OfKey(live + [x], k) {
      OfKeyPlaced(e, x, o, k);
      ThoseConcat(live, [x], KeyIs(k));
    }
  }

  lemma RecallsOmits(e: seq<EbNode<nat>>, live: seq<EbNode<nat>>, x: EbNode<nat>, i: nat, e': seq<EbNode<nat>>)
    requires Recalls(e, live) && NoRepeats(e)
    requires if x in e then i < |e| && e[i] == x && e' == e[..i] + e[i + 1..] else e' == e
    ensures Recalls(e', Those(live, Other(x)))
  {
    hide Those, NoRepeats;
    forall k: nat ensures OfKey(e', k) == OfKey(Those(live, Other(x)), k) {
      assert OfKey(e, k) == OfKey(live, k);
      Omits(e, live, x, i, e', KeyIs(k));
    }
  }

  lemma WalkSorted(tree: EbTree<nat>, o: Order)
    requires Holds(tree, o)
    ensures Sorted(tree.Elements(), o)
  {
    if tree.model.Full? {
      RadixSorted(tree.model.t, o);
    }
  }

  method Step(tree: EbTree<nat>, op: Op<nat>, ghost live: seq<EbNode<nat>>, ghost pool: set<EbNode<nat>>)
    requires Holds(tree, Unsigned) && !tree.IsUnique() && Pooled(tree, pool) && Recalls(tree.Elements(), live)
    requires op.x in pool && op.x != tree.head && (op.Link? ==> op.x !in live)
    modifies tree, pool
    ensures Holds(tree, Unsigned) && !tree.IsUnique() && Pooled(tree, pool)
    ensures Recalls(tree.Elements(), Then(live, op))
  {
    hide Represents, Radix, Recalls, NoRepeats, Sorted, Placed, Those;
    ghost var e := tree.Elements();
    ObjectsLinked(tree);
    RecallsIn(e, live);
    match op
    case Link(x) =>
      WalkSorted(tree, Unsigned);
      RecallsPlaced(e, live, x, Unsigned);
      var _ := Eb32Insert(tree, x);
      PlacedIn(e, x, Unsigned);
    case Unlink(x) =>
      ghost var i := if x in e then tree.Rank(x) else 0;
      Eb32Delete(tree, x, Unsigned);
      RecallsOmits(e, live, x, i, tree.Elements());
  }

  lemma {:induction false} PlacedIn(s: seq<EbNode<nat>>, x: EbNode<nat>, o: Order)
    ensures x in Placed(s, x, o) && forall y | y in s :: y in Placed(s, x, o)
    ensures forall y | y in Placed(s, x, o) :: y == x || y in s
  {
    if s != [] {
      PlacedIn(s[1..], x, o);
    }
  }

  /** Any insertions and deletions, from an empty tree on: key by key, the walk gives the survivors in the order
      of their insertion. */
  method Run(tree: EbTree<nat>, ops: seq<Op<nat>>, ghost pool: set<EbNode<nat>>)
    requires Holds(tree, Unsigned) && !tree.IsUnique() && tree.Elements() == [] && Pooled(tree, pool) && Legal(ops)
    requires forall op | op in ops :: op.x in pool && op.x != tree.head
    modifies tree, pool
    ensures Holds(tree, Unsigned) && Recalls(tree.Elements(), Survivors(ops))
  {
    assert Recalls([], []);
    hide Represents, Radix, Recalls, Holds, Pooled, Then;
    var k := 0;
    assert ops[..0] == [];
    while k < |ops|
      invariant 0 <= k <= |ops|
      invariant Holds(tree, Unsigned) && !tree.IsUnique() && Pooled(tree, pool)
      invariant Recalls(tree.Elements(), Survivors(ops[..k]))
    {
      Step(tree, ops[k], Survivors(ops[..k]), pool);
      assert ops[..k + 1][..k] == ops[..k];
      k := k + 1;
    }
    assert ops[..k] == ops;
  }

  /** And a search answers the first one that was inserted with its key and is still there, or null when there is
      none. */
  method FirstInserted(tree: EbTree<nat>, ops: seq<Op<nat>>, k: nat, ghost pool: set<EbNode<nat>>)
    returns (r: EbNode?<nat>)
    requires Holds(tree, Unsigned) && !tree.IsUnique() && tree.Elements() == [] && Pooled(tree, pool) && Legal(ops)
    requires forall op | op in ops :: op.x in pool && op.x != tree.head
    modifies tree, pool
    ensures FirstMatch(Survivors(ops), k, r)
  {
    Run(tree, ops, pool);
    r := Eb32LookupKey(tree, k);
    FirstSurvivor(tree.Elements(), Survivors(ops), k, r);
  }
}
