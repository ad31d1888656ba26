/** The expansion policy over whole runs: the load it bounds, and the inhibition it can reach and leave. */
module ExpansionPolicy {
  import opened Bits
  import opened StableSort
  import opened HashElement
  import opened ChainIndex
  import opened ExpansionTheorems

  // ---- while expansion is not inhibited, the load is bounded ----

  const LOAD := 61

  /** How long the chain of a bucket can be before an addition to it expands the table. */
  function Room(b: Bucket): (r: nat)
    ensures r >= b.count
  {
    var threshold := BKT_CAPACITY_THRESH * (b.expandMult + 1);
    if b.count > threshold then b.count else threshold
  }

  function SumRooms(buckets: seq<Bucket>): nat {
    if buckets == [] then 0 else Room(buckets[0]) + SumRooms(buckets[1..])
  }

  function SumMults(buckets: seq<Bucket>): nat {
    if buckets == [] then 0 else buckets[0].expandMult + SumMults(buckets[1..])
  }

  ghost predicate Bounded(t: Table) {
    t.noexpand == 0 ==> SumRooms(t.ix.buckets) <= LOAD * |t.ix.buckets|
  }

  lemma {:induction false} RoomsHoldCounts(buckets: seq<Bucket>)
    ensures SumCounts(buckets) <= SumRooms(buckets)
  {
    if buckets != [] {
      RoomsHoldCounts(buckets[1..]);
    }
  }

  lemma {:induction false} RoomsUpdate(buckets: seq<Bucket>, i: nat, b: Bucket)
    requires i < |buckets|
    ensures SumRooms(buckets[i := b]) == SumRooms(buckets) - Room(buckets[i]) + Room(b)
  {
    if i > 0 {
      assert buckets[i := b][1..] == buckets[1..][i - 1 := b];
      RoomsUpdate(buckets[1..], i - 1, b);
    }
  }

  lemma {:induction false} RoomsAtMost(buckets: seq<Bucket>)
    ensures SumRooms(buckets) <= SumCounts(buckets) + BKT_CAPACITY_THRESH * (SumMults(buckets) + |buckets|)
  {
    if buckets != [] {
      RoomsAtMost(buckets[1..]);
    }
  }

  lemma {:induction false} NoMultUpToIdeal(count: nat, ideal: nat)
    requires count <= ideal
    ensures ExpandMult(count, ideal) == 0
  {
    if count > 0 {
      NoMultUpToIdeal(count - 1, ideal);
    }
  }

  lemma MultTimesIdeal(count: nat, ideal: nat)
    requires ideal > 0
    ensures ExpandMult(count, ideal) * ideal <= 2 * count
  {
    if count <= ideal {
      NoMultUpToIdeal(count, ideal);
    } else {
      ExpandMultBounds(count, ideal);
    }
  }

  lemma Distribute(a: nat, b: nat, c: nat)
    ensures (a + b) * c == a * c + b * c
  {
  }

  lemma {:induction false} SumMultsTimesIdeal(buckets: seq<Bucket>, ideal: nat)
    requires ideal > 0 && forall b | 0 <= b < |buckets| :: buckets[b].expandMult == ExpandMult(buckets[b].count, ideal)
    ensures SumMults(buckets) * ideal <= 2 * SumCounts(buckets)
  {
    hide ExpandMult;
    if buckets != [] {
      SumMultsTimesIdeal(buckets[1..], ideal);
      MultTimesIdeal(buckets[0].count, ideal);
      Distribute(buckets[0].expandMult, SumMults(buckets[1..]), ideal);
    }
  }

  /** The multipliers of an expanded table add up to at most twice its buckets. */
  lemma ExpandedMults(hash: Hash, t: Table)
    requires TableOk(hash, t) && t.noexpand == 0
    ensures SumMults(Expand(hash, t).ix.buckets) <= 2 * |Expand(hash, t).ix.buckets|
  {
    hide Expanded, Excess, IdealLength, Partition, ExpandMult;
    var t' := Expand(hash, t);
    var n, ideal := |t'.ix.buckets|, t'.ideal;
    ExpandOk(hash, t);
    CountsAddUp(hash, t');
    ExpandedBuckets(hash, t);
    IdealIsCeiling(t.numItems, t.log2 + 1);
    CeilCovers(t.numItems, n);
    if ideal == 0 {
      NoCountsNoMults(t'.ix.buckets, ideal);
    } else {
      SumMultsTimesIdeal(t'.ix.buckets, ideal);
      Quotient(SumMults(t'.ix.buckets), 2 * n, ideal, t.numItems, n);
    }
  }

  lemma ExpandedBuckets(hash: Hash, t: Table)
    requires TableOk(hash, t) && t.noexpand == 0
    ensures var t' := Expand(hash, t);
            forall b | 0 <= b < |t'.ix.buckets| ::
              t'.ix.buckets[b].expandMult == ExpandMult(t'.ix.buckets[b].count, t'.ideal)
  {
    hide Expanded, Excess, IdealLength, Partition, ExpandMult;
    ExpandedFilled(hash, t.log2, IdealLength(t.numItems, t.log2 + 1), t.ix.chains, t.ix.items);
  }

  lemma CeilCovers(a: nat, n: nat)
    requires n > 0
    ensures (a + n - 1) / n * n >= a
  {
    var q := (a + n - 1) / n;
    assert a + n - 1 == q * n + (a + n - 1) % n;
  }

  lemma Quotient(sum: nat, bound: nat, ideal: nat, items: nat, n: nat)
    requires ideal > 0 && sum * ideal <= 2 * items && items <= ideal * n && bound == 2 * n
    ensures sum <= bound
  {
    assert (bound + 1) * ideal == 2 * (ideal * n) + ideal;
    if sum > bound {
      MulLe(bound + 1, sum, ideal);
    }
  }

  lemma {:induction false} NoCountsNoMults(buckets: seq<Bucket>, ideal: nat)
    requires SumCounts(buckets) == 0
    requires forall b | 0 <= b < |buckets| :: buckets[b].expandMult == ExpandMult(buckets[b].count, ideal)
    ensures SumMults(buckets) == 0
  {
    if buckets != [] {
      NoCountsNoMults(buckets[1..], ideal);
    }
  }

  /** An expansion leaves room, whatever the table looked like. */
  lemma ExpansionBounds(hash: Hash, t: Table)
    requires TableOk(hash, t) && t.noexpand == 0 && t.numItems <= LOAD * |t.ix.buckets| + 1
    ensures Bounded(Expand(hash, t))
  {
    hide Expanded, Excess, IdealLength, Partition, Expand;
    var t' := Expand(hash, t);
    ExpansionCounts(hash, t);
    CountsAddUp(hash, t);
    CountsAddUp(hash, t');
    RoomsAtMost(t'.ix.buckets);
    ExpandedMults(hash, t);
  }

  lemma {:induction false} EmptyRooms(buckets: seq<Bucket>)
    requires forall b | 0 <= b < |buckets| :: buckets[b].count == buckets[b].expandMult == 0
    ensures SumRooms(buckets) == BKT_CAPACITY_THRESH * |buckets|
  {
    if buckets != [] {
      EmptyRooms(buckets[1..]);
    }
  }

  lemma NewTableBounded()
    ensures Bounded(NewTable())
  {
    EmptyRooms(NewTable().ix.buckets);
  }

  lemma AddBounded(hash: Hash, t: Table, e: Element)
    requires TableOk(hash, t) && e !in t.ix.items && Bounded(t)
    ensures Bounded(AddTo(hash, t, e))
  {
    hide Expand, Partition;
    var t', b := LinkNew(hash, t, e), BucketOf(hash, e, |t.ix.chains|);
    LinkNewOk(hash, t, e);
    BucketOfIsRemainder(hash, e, t.log2);
    if t.noexpand == 0 {
      var before, after := t.ix.buckets[b], t'.ix.buckets[b];
      RoomsUpdate(t.ix.buckets, b, after);
      if MustExpand(hash, t', e) {
        CountsAddUp(hash, t);
        RoomsHoldCounts(t.ix.buckets);
        ExpansionBounds(hash, t');
      } else {
        assert Room(after) == Room(before);
      }
    }
  }

  lemma RemoveBounded(hash: Hash, t: Table, e: Element)
    requires TableOk(hash, t) && e in t.ix.items && Bounded(t)
    ensures Bounded(Remove(hash, t, e))
  {
    hide Partition, Without;
    NewTableBounded();
    TakeIndexes(hash, t.log2, t.ix, e);
    if t.numItems != 1 && t.noexpand == 0 {
      var b := BucketOf(hash, e, |t.ix.chains|);
      RoomsUpdate(t.ix.buckets, b, RemoveFrom(hash, t, e).ix.buckets[b]);
    }
  }

  // each chain

  const CHAIN := 31

  /** No chain is longer than its bucket's multiplier accounts for. */
  ghost predicate ChainsBounded(t: Table) {
    t.noexpand == 0 ==> forall b | 0 <= b < |t.ix.buckets| :: ChainBounded(t.ix.buckets[b])
  }

  predicate ChainBounded(b: Bucket) {
    b.count <= CHAIN * (b.expandMult + 1)
  }

  lemma {:induction false} CountInSum(buckets: seq<Bucket>, b: nat)
    requires b < |buckets|
    ensures buckets[b].count <= SumCounts(buckets)
  {
    if b > 0 {
      CountInSum(buckets[1..], b - 1);
    }
  }

  lemma MultCoversCount(b: Bucket, ideal: nat)
    requires b.expandMult == ExpandMult(b.count, ideal) && ideal <= CHAIN && (ideal == 0 ==> b.count == 0)
    ensures ChainBounded(b)
  {
    hide ExpandMult;
    if b.count > ideal {
      ExpandMultBounds(b.count, ideal);
      MulLe(ideal, CHAIN, b.expandMult);
    }
  }

  lemma IdealAtMost(items: nat, n: nat)
    requires n > 0 && items <= (LOAD + 1) * n
    ensures (items + 2 * n - 1) / (2 * n) <= CHAIN
  {
    var ideal := (items + 2 * n - 1) / (2 * n);
    assert ideal * (2 * n) <= items + 2 * n - 1;
    if ideal > CHAIN {
      MulLe(CHAIN + 1, ideal, 2 * n);
    }
  }

  /** An expansion of a table of bounded load leaves every chain bounded. */
  lemma ExpandedChains(hash: Hash, t: Table)
    requires TableOk(hash, t) && t.noexpand == 0 && t.numItems <= LOAD * |t.ix.buckets| + 1
    ensures ChainsBounded(Expand(hash, t))
  {
    hide Expanded, Excess, Partition, Expand, ExpandMult, ChainBounded;
    var t' := Expand(hash, t);
    ExpansionCounts(hash, t);
    ExpandKeepsSize(hash, t);
    CountsAddUp(hash, t);
    CountsAddUp(hash, t');
    IdealAtMost(t.numItems, |t.ix.buckets|);
    ExpandedBuckets(hash, t);
    forall b | 0 <= b < |t'.ix.buckets| ensures ChainBounded(t'.ix.buckets[b]) {
      CountInSum(t'.ix.buckets, b);
      NothingIdeal(t'.numItems, |t'.ix.buckets|);
      MultCoversCount(t'.ix.buckets[b], t'.ideal);
    }
  }

  lemma NothingIdeal(items: nat, n: nat)
    requires n > 0
    ensures (items + n - 1) / n == 0 ==> items == 0
  {
    CeilCovers(items, n);
  }

  lemma AddChainsBounded(hash: Hash, t: Table, e: Element)
    requires TableOk(hash, t) && e !in t.ix.items && Bounded(t) && ChainsBounded(t)
    ensures ChainsBounded(AddTo(hash, t, e))
  {
    hide Expand, Partition;
    var t' := LinkNew(hash, t, e);
    LinkNewOk(hash, t, e);
    BucketOfIsRemainder(hash, e, t.log2);
    if t.noexpand == 0 && MustExpand(hash, t', e) {
      CountsAddUp(hash, t);
      RoomsHoldCounts(t.ix.buckets);
      ExpandedChains(hash, t');
    }
  }

  lemma RemoveChainsBounded(hash: Hash, t: Table, e: Element)
    requires TableOk(hash, t) && e in t.ix.items && ChainsBounded(t)
    ensures ChainsBounded(Remove(hash, t, e))
  {
    hide Partition, Without;
    TakeIndexes(hash, t.log2, t.ix, e);
  }

  lemma {:induction false} RunsBounded(hash: Hash, t: Table, ops: seq<Op>)
    requires TableOk(hash, t) && Permitted(ops, t.ix.items) && Bounded(t) && ChainsBounded(t)
    ensures Bounded(ApplyAll(hash, t, ops)) && ChainsBounded(ApplyAll(hash, t, ops))
    decreases |ops|
  {
    hide TableOk, Bounded, ChainsBounded, AddTo, Remove;
    if ops != [] {
      match ops[0] {
        case Put(e) =>
          AddBounded(hash, t, e);
          AddChainsBounded(hash, t, e);
        case Delete(e) =>
          RemoveBounded(hash, t, e);
          RemoveChainsBounded(hash, t, e);
      }
      ApplyOk(hash, t, ops[0]);
      RunsBounded(hash, Apply(hash, t, ops[0]), ops[1..]);
    }
  }

  /** However elements come and go, while expansion is not inhibited every chain is within its bucket's bound. */
  lemma ChainsStayBounded(hash: Hash, ops: seq<Op>, b: nat)
    requires Permitted(ops, {})
    ensures var t := ApplyAll(hash, NewTable(), ops);
            t.noexpand == 0 && b < |t.ix.chains| ==>
              |t.ix.chains| == |t.ix.buckets| && |t.ix.chains[b]| <= CHAIN * (t.ix.buckets[b].expandMult + 1)
  {
    hide ApplyAll, Bounded, Partition;
    var t := ApplyAll(hash, NewTable(), ops);
    NewTableOk(hash);
    NewTableBounded();
    RunsBounded(hash, NewTable(), ops);
    RunsKeepTables(hash, NewTable(), ops);
    CountsAddUp(hash, t);
  }

  /** However elements come and go, while expansion is not inhibited the average chain stays short. */
  lemma LoadStaysBounded(hash: Hash, ops: seq<Op>)
    requires Permitted(ops, {})
    ensures var t := ApplyAll(hash, NewTable(), ops);
            t.noexpand == 0 ==> t.numItems <= LOAD * |t.ix.buckets|
  {
    hide TableOk, ApplyAll;
    var t := ApplyAll(hash, NewTable(), ops);
    NewTableOk(hash);
    NewTableBounded();
    RunsBounded(hash, NewTable(), ops);
    RunsKeepTables(hash, NewTable(), ops);
    CountsAddUp(hash, t);
    RoomsHoldCounts(t.ix.buckets);
  }

  // ---- inhibition is reached: a hundred elements that collide ----

  /** The elements all have the hash value `h`. */
  ghost predicate Collide(hash: Hash, items: set<Element>, h: nat) {
    forall e | e in items :: hash(e.key) == h
  }

  /** `n` elements, all in the bucket that `h` selects, which has the given multiplier. */
  ghost predicate Piled(hash: Hash, t: Table, h: nat, n: nat, log2: nat, mult: nat, ineff: nat) {
    && TableOk(hash, t) && t.numItems == n && t.log2 == log2 && t.ineffExpands == ineff && t.noexpand == 0
    && Collide(hash, t.ix.items, h)
    && h % Pow2(log2) < |t.ix.buckets| && t.ix.buckets[h % Pow2(log2)].expandMult == mult
  }

  lemma PileLength(hash: Hash, t: Table, h: nat)
    requires TableOk(hash, t) && Collide(hash, t.ix.items, h)
    ensures var b := h % Pow2(t.log2);
            b < |t.ix.chains| == |t.ix.buckets| == Pow2(t.log2) && |t.ix.chains[b]| == t.numItems
  {
    var b := h % Pow2(t.log2);
    forall e | e in t.ix.items ensures BucketOf(hash, e, |t.ix.chains|) == b {
      BucketOfIsRemainder(hash, e, t.log2);
    }
    DistinctLength(t.ix.chains[b]);
    assert Elements(t.ix.chains[b]) == t.ix.items;
  }

  lemma {:induction false} MultOfOnes(count: nat)
    requires count > 0
    ensures ExpandMult(count, 1) == count - 1
  {
    if count > 1 {
      MultOfOnes(count - 1);
    }
  }

  lemma PileGrows(hash: Hash, t: Table, h: nat, n: nat, log2: nat, mult: nat, ineff: nat, e: Element)
    requires Piled(hash, t, h, n, log2, mult, ineff) && e !in t.ix.items && hash(e.key) == h && n + 1 < 10 * (mult + 1)
    ensures Piled(hash, AddTo(hash, t, e), h, n + 1, log2, mult, ineff)
  {
    hide Partition, Expand;
    AddToOk(hash, t, e);
    AddExpandsExactly(hash, t, e);
    PileLength(hash, t, h);
    BucketOfIsRemainder(hash, e, t.log2);
  }

  /** The addition that reaches the threshold expands, and moving a pile elsewhere does not help. */
  lemma PileExpands(hash: Hash, t: Table, h: nat, n: nat, log2: nat, mult: nat, ineff: nat, e: Element)
    requires Piled(hash, t, h, n, log2, mult, ineff) && e !in t.ix.items && hash(e.key) == h && n + 1 == 10 * (mult + 1)
    requires n < Pow2(log2 + 1) && ineff < 2
    ensures var t' := AddTo(hash, t, e);
            if ineff == 1 then t'.noexpand == 1 else Piled(hash, t', h, n + 1, log2 + 1, n, 1)
  {
    hide Partition, Expand, Expanded, Excess, ExpandMult;
    var linked := LinkNew(hash, t, e);
    LinkNewOk(hash, t, e);
    AddExpandsExactly(hash, t, e);
    PileLength(hash, t, h);
    BucketOfIsRemainder(hash, e, t.log2);
    ExpandedPile(hash, linked, h);
  }

  /** Expanding a pile that a bucket each would have room for is ineffective, and leaves a pile. */
  lemma ExpandedPile(hash: Hash, t: Table, h: nat)
    requires TableOk(hash, t) && t.noexpand == 0 && Collide(hash, t.ix.items, h)
    requires 2 < t.numItems <= Pow2(t.log2 + 1)
    ensures var t', b := Expand(hash, t), h % Pow2(t.log2 + 1);
            && TableOk(hash, t') && t'.ix.items == t.ix.items && t'.numItems == t.numItems && t'.log2 == t.log2 + 1
            && t'.ineffExpands == t.ineffExpands + 1 && b < |t'.ix.buckets|
            && t'.ix.buckets[b].expandMult == t.numItems - 1
  {
    hide Partition, Expanded, Excess, ExpandMult, Expand;
    var t', b := Expand(hash, t), h % Pow2(t.log2 + 1);
    ExpansionCounts(hash, t);
    ExpandKeepsSize(hash, t);
    PileLength(hash, t', h);
    OneEach(t.numItems, |t'.ix.chains|);
    ExcessReaches(t'.ix.chains, b, 1);
    IneffectiveExpansions(hash, t);
    ExpandedBuckets(hash, t);
    MultOfOnes(t.numItems);
  }

  lemma ExpandKeepsSize(hash: Hash, t: Table)
    ensures Expand(hash, t).numItems == t.numItems && Expand(hash, t).log2 == t.log2 + 1
  {
    hide Expanded, IdealLength, Shr;
  }

  lemma OneEach(a: nat, n: nat)
    requires 0 < a <= n
    ensures (a + n - 1) / n == 1
  {
    ModUnique(a + n - 1, n, 1, a - 1);
  }

  lemma {:induction false} ExcessReaches(chains: Chains, b: nat, ideal: nat)
    requires b < |chains|
    ensures Excess(chains, ideal) + ideal >= |chains[b]|
  {
    if b > 0 {
      ExcessReaches(chains[1..], b - 1, ideal);
    }
  }

  function Puts(es: seq<Element>): (ops: seq<Op>)
    ensures |ops| == |es|
  {
    if es == [] then [] else [Put(es[0])] + Puts(es[1..])
  }

  /** A pile of `n`, and the elements that are still to come. */
  lemma {:induction false} PileRun(hash: Hash, t: Table, h: nat, n: nat, log2: nat, mult: nat, ineff: nat,
                                   es: seq<Element>)
    requires Piled(hash, t, h, n, log2, mult, ineff)
    requires Distinct(es) && forall e | e in es :: e !in t.ix.items && hash(e.key) == h
    requires (log2, mult, ineff) in {(5, 0, 0), (6, 9, 1)} && n < 10 * (mult + 1) && n + |es| == 100
    ensures ApplyAll(hash, t, Puts(es)).noexpand == 1
    decreases |es|
  {
    hide TableOk, AddTo, Indexes;
    var e, rest := es[0], es[1..];
    var t' := AddTo(hash, t, e);
    SoundPile(hash, t, h, n, log2, mult, ineff);
    AddToOk(hash, t, e);
    assert Puts(es)[1..] == Puts(rest);
    assert forall x | x in rest :: x in es && x != e;
    if n + 1 < 10 * (mult + 1) {
      PileGrows(hash, t, h, n, log2, mult, ineff, e);
      PileRun(hash, t', h, n + 1, log2, mult, ineff, rest);
    } else {
      SmallPowers();
      PileExpands(hash, t, h, n, log2, mult, ineff, e);
      if ineff == 0 {
        PileRun(hash, t', h, 10, 6, 9, 1, rest);
      }
    }
  }

  lemma SoundPile(hash: Hash, t: Table, h: nat, n: nat, log2: nat, mult: nat, ineff: nat)
    requires Piled(hash, t, h, n, log2, mult, ineff)
    ensures TableOk(hash, t)
  {
  }

  lemma SmallPowers()
    ensures Pow2(5) == 32 && Pow2(6) == 64 && Pow2(7) == 128
  {
    assert Pow2(5) == 2 * Pow2(4) == 4 * Pow2(3) == 8 * Pow2(2);
  }

  lemma {:induction false} PutsPermitted(es: seq<Element>, items: set<Element>)
    requires Distinct(es) && forall e | e in es :: e !in items
    ensures Permitted(Puts(es), items)
    decreases |es|
  {
    if es != [] {
      assert Puts(es)[1..] == Puts(es[1..]);
      assert forall x | x in es[1..] :: x in es && x != es[0];
      PutsPermitted(es[1..], items + {es[0]});
    }
  }

  /** Whatever the hash function, a hundred additions of keys that collide inhibit the expansion of a new table. */
  lemma InhibitionIsReached(hash: Hash, es: seq<Element>, h: nat)
    requires (forall e | e in es :: hash(e.key) == h) && Distinct(es) && |es| == 100
    ensures Permitted(Puts(es), {}) && ApplyAll(hash, NewTable(), Puts(es)).noexpand == 1
  {
    NewTableOk(hash);
    SmallPowers();
    PutsPermitted(es, {});
    PileRun(hash, NewTable(), h, 0, 5, 0, 0, es);
  }
}
