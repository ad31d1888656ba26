/** What HASH_FSCK checks, and what a bucket expansion and the expansion policy do, for every table. */
module ExpansionTheorems {
  import opened Bits
  import opened StableSort
  import opened HashElement
  import opened ChainIndex

  // ---- the counts add up ----

  function SumCounts(buckets: seq<Bucket>): nat {
    if buckets == [] then 0 else buckets[0].count + SumCounts(buckets[1..])
  }

  lemma {:induction false} SumIsLength(buckets: seq<Bucket>, chains: Chains)
    requires |buckets| == |chains| && forall b | 0 <= b < |buckets| :: buckets[b].count == |chains[b]|
    ensures SumCounts(buckets) == |Flatten(chains)|
  {
    if buckets != [] {
      SumIsLength(buckets[1..], chains[1..]);
    }
  }

  /** Chains that hold disjoint sets of distinct elements. */
  ghost predicate Disjoint(chains: Chains) {
    && (forall b | 0 <= b < |chains| :: Distinct(chains[b]))
    && (forall b, c | 0 <= b < c < |chains| :: forall e | e in chains[b] :: e !in chains[c])
  }

  lemma DistinctConcat(a: seq<Element>, b: seq<Element>)
    requires Distinct(a) && Distinct(b) && forall e | e in b :: e !in a
    ensures Distinct(a + b)
  {
    forall i, j | 0 <= i < j < |a + b| ensures (a + b)[i] != (a + b)[j] {
      if i < |a| <= j {
        assert (a + b)[i] in a && (a + b)[j] in b;
      }
    }
  }

  lemma {:induction false} FlattenDistinct(chains: Chains)
    requires Disjoint(chains)
    ensures Distinct(Flatten(chains))
    ensures forall e | e in Flatten(chains) :: exists b :: 0 <= b < |chains| && e in chains[b]
    ensures forall b | 0 <= b < |chains| :: forall e | e in chains[b] :: e in Flatten(chains)
  {
    if chains != [] {
      var rest := chains[1..];
      assert forall b | 0 <= b < |rest| :: rest[b] == chains[b + 1];
      FlattenDistinct(rest);
      forall e | e in Flatten(rest) ensures e !in chains[0] {
        var b :| 0 <= b < |rest| && e in rest[b];
        assert e in chains[b + 1];
      }
      DistinctConcat(chains[0], Flatten(rest));
      forall e | e in Flatten(chains) ensures exists b :: 0 <= b < |chains| && e in chains[b] {
        if e !in chains[0] {
          var b :| 0 <= b < |rest| && e in rest[b];
          assert e in chains[b + 1];
        }
      }
      forall b | 0 <= b < |chains| ensures forall e | e in chains[b] :: e in Flatten(chains) {
        if b > 0 {
          assert chains[b] == rest[b - 1];
        }
      }
    }
  }

  /** HASH_FSCK: the bucket counts equal the chain lengths and add up to the number of items. */
  lemma CountsAddUp(hash: Hash, t: Table)
    requires TableOk(hash, t)
    ensures SumCounts(t.ix.buckets) == t.numItems
    ensures forall b | 0 <= b < |t.ix.buckets| :: t.ix.buckets[b].count == |t.ix.chains[b]|
    ensures |t.ix.buckets| == Pow2(t.log2)
  {
    SumIsLength(t.ix.buckets, t.ix.chains);
    FlattenDistinct(t.ix.chains);
    DistinctLength(Flatten(t.ix.chains));
    forall e | e in t.ix.items ensures e in Flatten(t.ix.chains) {
      assert e in t.ix.chains[BucketOf(hash, e, |t.ix.chains|)];
    }
    assert Elements(Flatten(t.ix.chains)) == t.ix.items;
  }

  // ---- one expansion ----

  lemma ModDouble(h: nat, n: nat)
    requires n > 0
    ensures h % (2 * n) == h % n || h % (2 * n) == h % n + n
  {
    var q, r := h / (2 * n), h % (2 * n);
    assert h == (2 * n) * q + r;
    assert (2 * n) * q == (2 * q) * n;
    if r < n {
      ModUnique(h, n, 2 * q, r);
    } else {
      assert (2 * q + 1) * n == (2 * q) * n + n;
      ModUnique(h, n, 2 * q + 1, r - n);
    }
  }

  /** Doubling the number of buckets sends an element of bucket b to b or to b + n. */
  lemma SplitBucket(hash: Hash, e: Element, log2: nat)
    ensures BucketOf(hash, e, Pow2(log2)) < Pow2(log2)
    ensures var b := BucketOf(hash, e, Pow2(log2));
            BucketOf(hash, e, Pow2(log2 + 1)) in {b, b + Pow2(log2)}
  {
    BucketOfIsRemainder(hash, e, log2);
    BucketOfIsRemainder(hash, e, log2 + 1);
    ModDouble(hash(e.key), Pow2(log2));
  }

  /** `expand_mult` is the number of ideal chain lengths that the count amounts to. */
  lemma {:induction false} ExpandMultBounds(count: nat, ideal: nat)
    requires ideal > 0
    ensures ExpandMult(count, ideal) * ideal < count + ideal
    ensures count > ideal ==> ExpandMult(count, ideal) * ideal >= count - 1
  {
    if count > ideal {
      ExpandMultBounds(count - 1, ideal);
      var m := ExpandMult(count - 1, ideal);
      assert (m + 1) * ideal == m * ideal + ideal;
    }
  }

  /** HASH_EXPAND_BUCKETS keeps the elements, doubles the buckets and counts the overlong places. */
  lemma ExpansionCounts(hash: Hash, t: Table)
    requires TableOk(hash, t) && t.noexpand == 0
    ensures var t' := Expand(hash, t);
            && TableOk(hash, t') && t'.ix.items == t.ix.items && |t'.ix.chains| == 2 * |t.ix.chains|
            && t'.ideal == (t.numItems + |t'.ix.chains| - 1) / |t'.ix.chains|
            && t'.nonideal == Excess(t'.ix.chains, t'.ideal)
  {
    hide Expanded, Excess, IdealLength, Shr, BucketOf, Partition;
    ExpandOk(hash, t);
    IdealIsCeiling(t.numItems, t.log2 + 1);
    ExpandedFilled(hash, t.log2, IdealLength(t.numItems, t.log2 + 1), t.ix.chains, t.ix.items);
  }

  /** An element of old bucket b is in new bucket b or b + n. */
  lemma ExpansionSplits(hash: Hash, t: Table, b: nat, e: Element)
    requires TableOk(hash, t) && t.noexpand == 0 && b < |t.ix.chains| && e in t.ix.chains[b]
    ensures |Expand(hash, t).ix.chains| == 2 * |t.ix.chains|
    ensures e in Expand(hash, t).ix.chains[b] || e in Expand(hash, t).ix.chains[b + |t.ix.chains|]
  {
    hide Expand;
    ExpandOk(hash, t);
    ExpansionCounts(hash, t);
    SplitBucket(hash, e, t.log2);
    assert e in Expand(hash, t).ix.chains[BucketOf(hash, e, 2 * |t.ix.chains|)];
  }

  /** The `expand_mult` a bucket is left with. */
  lemma ExpansionMults(hash: Hash, t: Table, b: nat)
    requires TableOk(hash, t) && t.noexpand == 0 && t.numItems > 0 && b < |Expand(hash, t).ix.buckets|
    ensures BoundedMult(Expand(hash, t).ix.buckets[b], Expand(hash, t).ideal)
  {
    hide Expanded, Excess, IdealLength, Partition, ExpandMult, BoundedMult;
    var ideal := IdealLength(t.numItems, t.log2 + 1);
    ExpandedFilled(hash, t.log2, ideal, t.ix.chains, t.ix.items);
    IdealPositive(t.numItems, t.log2 + 1);
    MultBounded(Expand(hash, t).ix.buckets[b], ideal);
  }

  lemma MultBounded(bucket: Bucket, ideal: nat)
    requires ideal > 0 && bucket.expandMult == ExpandMult(bucket.count, ideal)
    ensures BoundedMult(bucket, ideal)
  {
    hide ExpandMult;
    ExpandMultBounds(bucket.count, ideal);
  }

  lemma IdealPositive(numItems: nat, log2: nat)
    requires numItems > 0
    ensures IdealLength(numItems, log2) > 0
  {
    hide IdealLength;
    IdealIsCeiling(numItems, log2);
    CeilPositive(numItems, Pow2(log2));
  }

  lemma CeilPositive(a: nat, n: nat)
    requires a > 0 && n > 0
    ensures (a + n - 1) / n > 0
  {
    var q := (a + n - 1) / n;
    assert a + n - 1 == q * n + (a + n - 1) % n;
  }

  ghost predicate BoundedMult(bucket: Bucket, ideal: nat) {
    && bucket.expandMult * ideal < bucket.count + ideal
    && (bucket.count > ideal ==> bucket.expandMult * ideal >= bucket.count - 1)
  }

  /**
   An expansion is ineffective when more than half of the elements stand beyond the
   ideal length; the second ineffective one in a row inhibits all further ones.
   */
  lemma IneffectiveExpansions(hash: Hash, t: Table)
    requires TableOk(hash, t) && t.noexpand == 0
    ensures var t' := Expand(hash, t);
            var ineffective := 2 * Excess(t'.ix.chains, t'.ideal) > t.numItems;
            && t'.ineffExpands == (if ineffective then t.ineffExpands + 1 else 0)
            && (t'.noexpand == 1 <==> ineffective && t.ineffExpands == 1)
  {
    hide Expanded, Excess, IdealLength, Partition;
    ExpansionCounts(hash, t);
    ExpandOk(hash, t);
    ShrIsDiv(t.numItems, 1);
    assert Pow2(1) == 2;
  }

  /** An addition expands exactly when it makes its chain ten times the bucket's multiplier plus one long. */
  lemma AddExpandsExactly(hash: Hash, t: Table, e: Element)
    requires TableOk(hash, t) && e !in t.ix.items
    ensures var b := hash(e.key) % Pow2(t.log2);
            && b < |t.ix.chains| == |t.ix.buckets|
            && var full := |t.ix.chains[b]| + 1 >= 10 * (t.ix.buckets[b].expandMult + 1);
               AddTo(hash, t, e).log2 == if full && t.noexpand == 0 then t.log2 + 1 else t.log2
  {
    hide Expanded, Excess, IdealLength, Partition;
    BucketOfIsRemainder(hash, e, t.log2);
  }

  /** Of several elements with one key a find returns the newest, as long as no addition expands the table. */
  lemma FindsNewest(hash: Hash, t: Table, e: Element)
    requires TableOk(hash, t) && e !in t.ix.items && AddTo(hash, t, e).log2 == t.log2
    ensures Lookup(hash, AddTo(hash, t, e).ix, e.key) == e
  {
    hide Expand, Partition;
    BucketOfIsRemainder(hash, e, t.log2);
    ExpandRaises(hash, LinkNew(hash, t, e));
  }

  lemma ExpandRaises(hash: Hash, t: Table)
    ensures Expand(hash, t).log2 == t.log2 + 1
  {
    hide Expanded, IdealLength, Shr;
  }

  /** A find returns the first element of its chain that has the key. */
  lemma {:induction false} FirstWithIs(s: seq<Element>, key: Key, i: nat)
    requires i < |s| && s[i].key == key && forall j | 0 <= j < i :: s[j].key != key
    ensures FirstWith(s, key) == s[i]
  {
    if i > 0 {
      FirstWithIs(s[1..], key, i - 1);
    }
  }

  // ---- the policy over whole runs ----

  datatype Op = Put(e: Element) | Delete(e: Element)

  /** The operations on a table that its callers may make in this order. */
  ghost predicate Permitted(ops: seq<Op>, items: set<Element>)
    decreases |ops|
  {
    ops == [] ||
    match ops[0]
    case Put(e) => e !in items && Permitted(ops[1..], items + {e})
    case Delete(e) => e in items && Permitted(ops[1..], items - {e})
  }

  function Apply(hash: Hash, t: Table, op: Op): Table {
    match op
    case Put(e) => AddTo(hash, t, e)
    case Delete(e) => Remove(hash, t, e)
  }

  function ApplyAll(hash: Hash, t: Table, ops: seq<Op>): Table
    decreases |ops|
  {
    if ops == [] then t else ApplyAll(hash, Apply(hash, t, ops[0]), ops[1..])
  }

  function ItemsAfter(items: set<Element>, ops: seq<Op>): set<Element>
    decreases |ops|
  {
    if ops == [] then items
    else
      match ops[0]
      case Put(e) => ItemsAfter(items + {e}, ops[1..])
      case Delete(e) => ItemsAfter(items - {e}, ops[1..])
  }

  lemma ApplyOk(hash: Hash, t: Table, op: Op)
    requires TableOk(hash, t) && (op.Put? ==> op.e !in t.ix.items) && (op.Delete? ==> op.e in t.ix.items)
    ensures TableOk(hash, Apply(hash, t, op))
    ensures Apply(hash, t, op).ix.items == ItemsAfter(t.ix.items, [op])
    ensures t.noexpand == 1 && ItemsAfter(t.ix.items, [op]) != {} ==>
              Apply(hash, t, op).noexpand == 1 && Apply(hash, t, op).log2 == t.log2
  {
    match op {
      case Put(e) => AddToOk(hash, t, e);
      case Delete(e) => RemoveOk(hash, t, e);
    }
  }

  /** Every run keeps the table sound; the run decides what is in it, however often it expanded. */
  lemma {:induction false} RunsKeepTables(hash: Hash, t: Table, ops: seq<Op>)
    requires TableOk(hash, t) && Permitted(ops, t.ix.items)
    ensures TableOk(hash, ApplyAll(hash, t, ops))
    ensures ApplyAll(hash, t, ops).ix.items == ItemsAfter(t.ix.items, ops)
    decreases |ops|
  {
    if ops != [] {
      ApplyOk(hash, t, ops[0]);
      RunsKeepTables(hash, Apply(hash, t, ops[0]), ops[1..]);
    }
  }

  /** The table has elements after every operation. */
  ghost predicate NeverEmptied(ops: seq<Op>, items: set<Element>)
    decreases |ops|
  {
    ops == [] || (ItemsAfter(items, [ops[0]]) != {} && NeverEmptied(ops[1..], ItemsAfter(items, [ops[0]])))
  }

  /**
   Inhibited expansion lasts as long as the table does: until its last element is
   deleted no run changes the number of buckets, and finds stay exact.
   */
  lemma {:induction false} InhibitionLasts(hash: Hash, t: Table, ops: seq<Op>, key: Key)
    requires TableOk(hash, t) && t.noexpand == 1 && Permitted(ops, t.ix.items) && NeverEmptied(ops, t.ix.items)
    ensures var t' := ApplyAll(hash, t, ops);
            && t'.noexpand == 1 && t'.log2 == t.log2 && |t'.ix.buckets| == |t.ix.buckets|
            && (Lookup(hash, t'.ix, key) == null <==> forall e | e in ItemsAfter(t.ix.items, ops) :: e.key != key)
    decreases |ops|
  {
    if ops == [] {
      LookupFinds(hash, t.log2, t.ix, key);
    } else {
      ApplyOk(hash, t, ops[0]);
      InhibitionLasts(hash, Apply(hash, t, ops[0]), ops[1..], key);
    }
  }

  /**
   One step from an inhibited table: it stays inhibited exactly if it still has
   elements. The last deletion frees the table, and the next one starts afresh.
   */
  lemma InhibitionStep(hash: Hash, t: Table, op: Op)
    requires TableOk(hash, t) && t.noexpand == 1 && Permitted([op], t.ix.items)
    ensures Apply(hash, t, op).noexpand == 1 <==> ItemsAfter(t.ix.items, [op]) != {}
    ensures ItemsAfter(t.ix.items, [op]) == {} ==> Apply(hash, t, op) == NewTable()
  {
    ApplyOk(hash, t, op);
    assert ItemsAfter(t.ix.items, [op]) == if op.Put? then t.ix.items + {op.e} else t.ix.items - {op.e};
    if op.Put? {
      assert op.e in ItemsAfter(t.ix.items, [op]);
    } else {
      assert |t.ix.items - {op.e}| == t.numItems - 1;
    }
  }
}
