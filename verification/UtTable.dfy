/**
 The intrusive hash table of uthash: every element is linked into two doubly
 linked structures at once, the application-order list (`prev`, `next`) and the
 chain of its bucket (`hhPrev`, `hhNext`). The `head` variable a macro is given
 and the UT_hash_table it leads to are one object here.
 */
module UtTable {
  import opened Bits
  import opened ChainIndex
  import opened HashElement

  const INITIAL_NUM_BUCKETS := 32

  /** The allocation of a bucket array and its uthash_bzero. */
  method ZeroedBuckets(n: nat, ghost log2: nat) returns (buckets: array<Bucket>)
    requires n == Pow2(log2)
    ensures fresh(buckets) && buckets.Length == n && buckets[..] == EmptyIndex(log2).buckets
  {
    buckets := new Bucket[n](_ => Bucket(null, 0, 0));
  }

  // ---- linking into one chain ----

  /** `s` is a chain whose links lead past position `k`. */
  ghost predicate LinkedPast(s: seq<Element>, k: nat)
    reads s`hhPrev, s`hhNext
  {
    && (forall i {:trigger s[i].hhPrev} | 0 <= i < |s| && i != k ::
         s[i].hhPrev == At(s, if i == k + 1 then k - 1 else i - 1))
    && (forall i {:trigger s[i].hhNext} | 0 <= i < |s| && i != k ::
         s[i].hhNext == At(s, if i == k - 1 then k + 1 else i + 1))
  }

  lemma WithoutAt(s: seq<Element>, k: nat, i: int)
    requires k < |s| && Distinct(s)
    ensures |Without(s, s[k])| == |s| - 1 && At(Without(s, s[k]), i) == At(s, if i < k then i else i + 1)
  {
    WithoutSplits(s, k);
    var d := s[..k] + s[k + 1..];
    if 0 <= i < k {
      assert d[i] == s[i];
    } else if k <= i < |d| {
      assert d[i] == s[i + 1];
    }
  }

  lemma ChainWithout(s: seq<Element>, k: nat)
    requires k < |s| && Distinct(s) && LinkedPast(s, k)
    ensures ChainLinked(Without(s, s[k])) && At(Without(s, s[k]), 0) == At(s, if k == 0 then 1 else 0)
  {
    hide Without, Distinct;
    var d := Without(s, s[k]);
    WithoutAt(s, k, 0);
    forall i | 0 <= i < |d| ensures d[i].hhPrev == At(d, i - 1) && d[i].hhNext == At(d, i + 1) {
      WithoutAt(s, k, i - 1);
      WithoutAt(s, k, i);
      WithoutAt(s, k, i + 1);
      var j := if i < k then i else i + 1;
      assert s[j].hhPrev == At(s, if j == k + 1 then k - 1 else j - 1);
      assert s[j].hhNext == At(s, if j == k - 1 then k + 1 else j + 1);
    }
  }

  /** Unlink `e` from its chain `c`, that of bucket `b`. */
  method UnlinkFrom(buckets: array<Bucket>, b: nat, e: Element, ghost c: seq<Element>, ghost k: nat)
    requires b < buckets.Length && buckets[b].hhHead == At(c, 0) && k < |c| && e == c[k]
    requires Distinct(c) && ChainLinked(c)
    modifies buckets, c`hhPrev, c`hhNext
    ensures buckets[..] == old(buckets[..])[b := old(buckets[b]).(hhHead := At(c, if k == 0 then 1 else 0))]
    ensures LinkedPast(c, k)
  {
    assert e.hhPrev == At(c, k - 1) && e.hhNext == At(c, k + 1);
    if buckets[b].hhHead == e {
      buckets[b] := buckets[b].(hhHead := e.hhNext);
    }
    if e.hhPrev != null {
      e.hhPrev.hhNext := e.hhNext;
    }
    if e.hhNext != null {
      e.hhNext.hhPrev := e.hhPrev;
    }
  }

  method UnlinkFromChain(buckets: array<Bucket>, b: nat, e: Element, ghost c: seq<Element>)
    requires b < buckets.Length && buckets[b].hhHead == At(c, 0) && e in c
    requires Distinct(c) && ChainLinked(c)
    modifies buckets, c`hhPrev, c`hhNext
    ensures buckets[..] == old(buckets[..])[b := old(buckets[b]).(hhHead := At(Without(c, e), 0))]
    ensures ChainLinked(Without(c, e))
  {
    ghost var k :| 0 <= k < |c| && c[k] == e;
    UnlinkFrom(buckets, b, e, c, k);
    ChainWithout(c, k);
  }

  /** Unlink `e` from the chain of bucket `b`. */
  method UnlinkFromBucket(buckets: array<Bucket>, b: nat, e: Element, ghost ix: Index, ghost to: Index)
    requires b < buckets.Length && Apart(ix, b) && buckets[b].hhHead == At(ix.chains[b], 0)
    requires e in ix.chains[b] && ChainsLinked(ix)
    requires to.chains == ix.chains[b := Without(ix.chains[b], e)] && to.items == ix.items - {e}
    modifies buckets, ix.items`hhPrev, ix.items`hhNext
    ensures buckets[..] == old(buckets[..])[b := old(buckets[b]).(hhHead := At(to.chains[b], 0))]
    ensures ChainsLinked(to)
  {
    WithoutKeeps(ix.chains[b], e);
    UnlinkFromChain(buckets, b, e, ix.chains[b]);
    forall k | 0 <= k < |ix.chains| && k != b ensures ChainLinked(ix.chains[k]) {
      ChainKept(ix.chains[k]);
    }
  }

  /** Every element has its hash value stored. */
  ghost predicate Hashed(hash: Hash, items: set<Element>)
    reads items`hashv
  {
    forall e | e in items :: e.hashv == hash(e.key)
  }

  /** The chains are linked, and made of the items. */
  ghost predicate ChainsLinked(ix: Index)
    reads ix.items`hhPrev, ix.items`hhNext
  {
    match ix
    case Index(_, chains, items) =>
      forall b | 0 <= b < |chains| :: (forall e | e in chains[b] :: e in items) && ChainLinked(chains[b])
  }

  /** Link `e` in front of the chain `c` of bucket `b`. */
  method LinkFirst(buckets: array<Bucket>, b: nat, e: Element, ghost c: seq<Element>)
    requires b < buckets.Length && buckets[b].hhHead == At(c, 0)
    requires e !in c && Distinct(c) && ChainLinked(c)
    modifies buckets, e`hhPrev, e`hhNext, c`hhPrev
    ensures buckets[..] == old(buckets[..])[b := old(buckets[b]).(hhHead := e)]
    ensures ChainLinked([e] + c)
  {
    e.hhNext := buckets[b].hhHead;
    e.hhPrev := null;
    if buckets[b].hhHead != null {
      buckets[b].hhHead.hhPrev := e;
    }
    buckets[b] := buckets[b].(hhHead := e);
    assert forall i | 0 <= i < |c| :: ([e] + c)[i + 1] == c[i];
  }

  /** Link `e`, which is in no chain, in front of the chain of bucket `b`. */
  method LinkIntoBucket(buckets: array<Bucket>, b: nat, e: Element, ghost ix: Index, ghost to: Index)
    requires b < buckets.Length && Apart(ix, b) && buckets[b].hhHead == At(ix.chains[b], 0)
    requires e !in ix.items && ChainsLinked(ix)
    requires to.chains == ix.chains[b := [e] + ix.chains[b]] && to.items == ix.items + {e}
    modifies buckets, e`hhPrev, e`hhNext, ix.items`hhPrev
    ensures buckets[..] == old(buckets[..])[b := old(buckets[b]).(hhHead := e)]
    ensures ChainsLinked(to)
  {
    LinkFirst(buckets, b, e, ix.chains[b]);
    forall k | 0 <= k < |ix.chains| && k != b ensures ChainLinked(ix.chains[k]) {
      ChainKept(ix.chains[k]);
    }
  }

  /** The elements from there on still lead to the rest of their old chain. */
  ghost predicate RestLinked(w: Walk)
    reads w.items`hhNext
  {
    match w
    case Walk(was, i, j, items) =>
      && (forall k, l | 0 <= k < |was| && 0 <= l < |was[k]| :: was[k][l] in items)
      && (forall k, l {:trigger was[k][l].hhNext}
            | 0 <= k < |was| && 0 <= l < |was[k]| && (k > i || (k == i && l >= j)) ::
            was[k][l].hhNext == At(was[k], l + 1))
  }

  /** (A two-state lemma takes one argument here.) */
  twostate lemma RestKept(w: Walk)
    requires old(RestLinked(w))
    requires w.i < |w.was|
    requires w.j < |w.was[w.i]|
    requires OnlyAt(w.was, w.i, w.j, w.was[w.i][w.j])
    requires forall x | x in w.items && x != w.was[w.i][w.j] :: x.hhNext == old(x.hhNext)
    ensures RestLinked(w.(j := w.j + 1))
  {
  }

  lemma RestNext(w: Walk)
    requires RestLinked(w) && w.i < |w.was| && w.j == |w.was[w.i]|
    ensures RestLinked(Walk(w.was, w.i + 1, 0, w.items))
  {
  }

  class HashTable {
    const hash: Hash
    var tail: Element?
    var buckets: array<Bucket>
    var numBuckets: nat
    var log2NumBuckets: nat
    var numItems: nat
    var idealChainMaxlen: nat
    var nonidealItems: nat
    var ineffExpands: nat
    var noexpand: nat

    ghost var chains: Chains

    /** The body of the inner loop of HASH_EXPAND_BUCKETS. */
    method MoveElement(e: Element, newBuckets: array<Bucket>, ghost b: nat, ghost x: Filling, ghost y: Filling)
      requires numBuckets > 0 && newBuckets[..] == x.ix.buckets && |x.ix.chains| == newBuckets.Length == 2 * numBuckets
      requires b == BucketOf(hash, e, |x.ix.chains|) < newBuckets.Length
      requires newBuckets[b].hhHead == At(x.ix.chains[b], 0)
      requires e.hashv == hash(e.key) && nonidealItems == x.nonideal
      requires e !in x.ix.items && Apart(x.ix, b) && ChainsLinked(x.ix)
      requires y == Move(hash, idealChainMaxlen, x, e)
      modifies newBuckets, `nonidealItems, e`hhPrev, e`hhNext, x.ix.items`hhPrev
      ensures newBuckets[..] == y.ix.buckets && nonidealItems == y.nonideal
      ensures ChainsLinked(y.ix)
    {
      var bkt := And(e.hashv, numBuckets * 2 - 1);
      newBuckets[bkt] := newBuckets[bkt].(count := newBuckets[bkt].count + 1);
      if newBuckets[bkt].count > idealChainMaxlen {
        nonidealItems := nonidealItems + 1;
        if newBuckets[bkt].count > newBuckets[bkt].expandMult * idealChainMaxlen {
          newBuckets[bkt] := newBuckets[bkt].(expandMult := newBuckets[bkt].expandMult + 1);
        }
      }
      LinkIntoBucket(newBuckets, bkt, e, x.ix, y.ix);
    }

    /** The inner loop of HASH_EXPAND_BUCKETS: move the elements of chain `i`. */
    method MoveChain(i: nat, newBuckets: array<Bucket>, ghost x0: Filling, ghost items: set<Element>)
      returns (ghost x: Filling)
      requires i < buckets.Length && i < |chains| == numBuckets == Pow2(log2NumBuckets)
      requires newBuckets != buckets && buckets[i].hhHead == At(chains[i], 0)
      requires Tracks(hash, log2NumBuckets, idealChainMaxlen, Walk(chains, i, 0, items), x0)
      requires newBuckets[..] == x0.ix.buckets && nonidealItems == x0.nonideal
      requires RestLinked(Walk(chains, i, 0, items)) && ChainsLinked(x0.ix) && Hashed(hash, items)
      modifies newBuckets, `nonidealItems, items`hhPrev, items`hhNext
      ensures Tracks(hash, log2NumBuckets, idealChainMaxlen, Walk(chains, i, |chains[i]|, items), x)
      ensures newBuckets[..] == x.ix.buckets && nonidealItems == x.nonideal
      ensures RestLinked(Walk(chains, i, |chains[i]|, items)) && ChainsLinked(x.ix) && Hashed(hash, items)
    {
      hide Tracks, ChainsLinked, Filled;
      x := x0;
      ghost var w := Walk(chains, i, 0, items);
      var e := buckets[i].hhHead;
      while e != null
        invariant w == Walk(chains, i, w.j, items) && w.j <= |chains[i]| && e == At(chains[i], w.j)
        invariant Tracks(hash, log2NumBuckets, idealChainMaxlen, w, x)
        invariant newBuckets[..] == x.ix.buckets && nonidealItems == x.nonideal
        invariant RestLinked(w) && ChainsLinked(x.ix) && Hashed(hash, items)
        decreases |chains[i]| - w.j
      {
        var nxt := e.hhNext;
        label Before:
        StepWalk(hash, log2NumBuckets, idealChainMaxlen, w, x);
        ghost var y := Move(hash, idealChainMaxlen, x, e);
        MoveElement(e, newBuckets, BucketOf(hash, e, |x.ix.chains|), x, y);
        RestKept@Before(w);
        e, w, x := nxt, w.(j := w.j + 1), y;
      }
    }

    lemma BeforeExpansion(items: set<Element>)
      requires BucketsOk(items)
      ensures |chains| == numBuckets == buckets.Length == Pow2(log2NumBuckets) && Partition(hash, chains, items)
      ensures forall b | 0 <= b < buckets.Length :: buckets[b].hhHead == At(chains[b], 0)
      ensures RestLinked(Walk(chains, 0, 0, items)) && Hashed(hash, items)
      ensures ChainsLinked(EmptyIndex(log2NumBuckets + 1))
    {
    }

    lemma BucketCount(items: set<Element>)
      requires BucketsOk(items)
      ensures numBuckets > 0 && Pow2(log2NumBuckets + 1) == 2 * numBuckets
    {
    }

    /** The loops of HASH_EXPAND_BUCKETS: move every element into the new buckets. */
    method Redistribute(newBuckets: array<Bucket>, ghost items: set<Element>, ghost to: Filling)
      requires BucketsOk(items) && newBuckets != buckets
      requires to == Expanded(hash, log2NumBuckets, idealChainMaxlen, chains)
      requires newBuckets[..] == EmptyIndex(log2NumBuckets + 1).buckets && nonidealItems == 0
      modifies newBuckets, `nonidealItems, items`hhPrev, items`hhNext
      ensures newBuckets[..] == to.ix.buckets && nonidealItems == to.nonideal
      ensures to.ix.items == items && ChainsLinked(to.ix)
    {
      hide BucketsOk, Tracks, ChainsLinked, Filled, EmptyIndex, Pow2, Expanded, RestLinked, Hashed, Partition;
      ghost var x := Filling(EmptyIndex(log2NumBuckets + 1), 0);
      ghost var w := Walk(chains, 0, 0, items);
      BeforeExpansion(items);
      StartWalk(hash, log2NumBuckets, idealChainMaxlen, w);
      var i := 0;
      while i < numBuckets
        invariant w == Walk(chains, i, 0, items) && i <= numBuckets
        invariant Tracks(hash, log2NumBuckets, idealChainMaxlen, w, x)
        invariant newBuckets[..] == x.ix.buckets && nonidealItems == x.nonideal
        invariant RestLinked(w) && ChainsLinked(x.ix) && Hashed(hash, items)
      {
        x := MoveChain(i, newBuckets, x, items);
        w := w.(j := |chains[i]|);
        RestNext(w);
        NextChain(hash, log2NumBuckets, idealChainMaxlen, w, x);
        i := i + 1;
        w := Walk(chains, i, 0, items);
      }
      EndWalk(hash, log2NumBuckets, idealChainMaxlen, w, x);
    }

    ghost function Model(items: set<Element>): Table
      reads `buckets, `log2NumBuckets, `chains, `numItems, `idealChainMaxlen, `nonidealItems
      reads `ineffExpands, `noexpand, buckets
    {
      Table(Index(buckets[..], chains, items), log2NumBuckets, numItems, idealChainMaxlen, nonidealItems,
            ineffExpands, noexpand)
    }

    /** The ideal chain length for twice the buckets; no element exceeds it yet. */
    method ComputeIdeal()
      requires numBuckets > 0 && Pow2(log2NumBuckets + 1) == 2 * numBuckets
      modifies `idealChainMaxlen, `nonidealItems
      ensures idealChainMaxlen == IdealLength(numItems, log2NumBuckets + 1) && nonidealItems == 0
    {
      idealChainMaxlen := Shr(numItems, log2NumBuckets + 1)
        + (if And(numItems, numBuckets * 2 - 1) != 0 then 1 else 0);
      nonidealItems := 0;
    }

    /** Adopt the new buckets, and count the expansion as effective or not. */
    method AdoptBuckets(newBuckets: array<Bucket>, ghost newChains: Chains)
      modifies this
      ensures tail == old(tail) && numItems == old(numItems)
      ensures idealChainMaxlen == old(idealChainMaxlen) && nonidealItems == old(nonidealItems)
      ensures buckets == newBuckets && numBuckets == 2 * old(numBuckets) && log2NumBuckets == old(log2NumBuckets) + 1
      ensures chains == newChains
      ensures ineffExpands == if nonidealItems > Shr(numItems, 1) then old(ineffExpands) + 1 else 0
      ensures noexpand == if ineffExpands > 1 then 1 else old(noexpand)
    {
      numBuckets := numBuckets * 2;
      log2NumBuckets := log2NumBuckets + 1;
      buckets, chains := newBuckets, newChains;
      ineffExpands := if nonidealItems > Shr(numItems, 1) then ineffExpands + 1 else 0;
      if ineffExpands > 1 {
        noexpand := 1;
      }
    }

    /** HASH_EXPAND_BUCKETS */
    method ExpandBuckets(ghost items: set<Element>, ghost to: Table)
      requires BucketsOk(items) && to == Expand(hash, Model(items))
      modifies this, items`hhPrev, items`hhNext
      ensures tail == old(tail)
      ensures fresh(buckets) && buckets.Length == numBuckets
      ensures Model(items) == to && ChainsLinked(to.ix)
    {
      hide Expanded, IdealLength, BucketsOk, ChainsLinked, Pow2, EmptyIndex, Shr;
      BucketCount(items);
      var newBuckets := ZeroedBuckets(numBuckets * 2, log2NumBuckets + 1);
      ComputeIdeal();
      Redistribute(newBuckets, items, Filling(to.ix, to.nonideal));
      AdoptBuckets(newBuckets, to.ix.chains);
    }

    /** The buckets index exactly `items`. */
    ghost predicate BucketsOk(items: set<Element>)
      reads `numBuckets, `log2NumBuckets, `buckets, `chains, buckets, items`hashv, items`hhPrev, items`hhNext
    {
      && numBuckets == buckets.Length
      && Indexes(hash, log2NumBuckets, Index(buckets[..], chains, items))
      && ChainsLinked(Index(buckets[..], chains, items))
      && Hashed(hash, items)
    }

    lemma Assembled(items: set<Element>, to: Table)
      requires Model(items) == to && TableOk(hash, to) && ChainsLinked(to.ix) && Hashed(hash, items)
      requires numBuckets == buckets.Length
      ensures BucketsOk(items)
    {
      hide ChainsLinked, Hashed, Partition;
    }

    /** HASH_ADD_TO_BKT, up to the expansion. */
    method AddToBucket(bkt: nat, e: Element, ghost items: set<Element>, ghost to: Index)
      requires BucketsOk(items) && e !in items && e.hashv == hash(e.key)
      requires bkt == BucketOf(hash, e, numBuckets) < numBuckets && Apart(Model(items).ix, bkt)
      requires buckets[bkt].hhHead == At(chains[bkt], 0)
      requires to == Put(hash, Model(items).ix, e, buckets[bkt].expandMult)
      modifies buckets, items`hhPrev, e`hhPrev, e`hhNext, `chains
      ensures Model(items + {e}).ix == to && BucketsOk(items + {e}) && ChainsLinked(to)
    {
      hide Put, BucketOf, Apart, Partition;
      PutIndexes(hash, log2NumBuckets, Model(items).ix, e, buckets[bkt].expandMult);
      PutParts(hash, Model(items).ix, e, buckets[bkt].expandMult);
      buckets[bkt] := buckets[bkt].(count := buckets[bkt].count + 1);
      LinkIntoBucket(buckets, bkt, e, Model(items).ix, to);
      chains := to.chains;
    }

    lemma BeforeAdding(e: Element, items: set<Element>)
      requires BucketsOk(items) && e !in items
      ensures var b, t, t' := BucketOf(hash, e, numBuckets), Model(items), LinkNew(hash, Model(items), e);
              && b < numBuckets == buckets.Length && Apart(t.ix, b) && buckets[b].hhHead == At(chains[b], 0)
              && t'.ix == Put(hash, t.ix, e, buckets[b].expandMult) && t' == t.(ix := t'.ix, numItems := t.numItems + 1)
              && |t'.ix.chains| == numBuckets
              && AddTo(hash, t, e) == if MustExpand(hash, t', e) then Expand(hash, t') else t'
    {
      PutIndexes(hash, log2NumBuckets, Model(items).ix, e, 0);
    }

    /** HASH_ADD_TO_TABLE */
    method AddToTable(e: Element, ghost items: set<Element>, ghost to: Table)
      requires BucketsOk(items) && e !in items && e.hashv == hash(e.key)
      requires to == AddTo(hash, Model(items), e)
      modifies this, buckets, items`hhPrev, items`hhNext, e`hhPrev, e`hhNext
      ensures tail == old(tail)
      ensures (buckets == old(buckets) || fresh(buckets)) && buckets.Length == numBuckets
      ensures Model(items + {e}) == to && ChainsLinked(to.ix)
    {
      hide BucketsOk, Expand, AddTo, LinkNew, Put, ChainsLinked, Apart;
      ghost var linked := LinkNew(hash, Model(items), e);
      BeforeAdding(e, items);
      numItems := numItems + 1;
      var bkt := And(e.hashv, numBuckets - 1);
      AddToBucket(bkt, e, items, linked.ix);
      if buckets[bkt].count >= (buckets[bkt].expandMult + 1) * BKT_CAPACITY_THRESH && noexpand == 0 {
        ExpandBuckets(items + {e}, to);
      }
    }

    /** HASH_MAKE_TABLE */
    constructor MakeTable(hash: Hash, head: Element)
      ensures this.hash == hash && tail == head && fresh(buckets)
      ensures Model({}) == NewTable() && BucketsOk({})
    {
      this.hash := hash;
      tail := head;
      numBuckets, log2NumBuckets := INITIAL_NUM_BUCKETS, INITIAL_NUM_BUCKETS_LOG2;
      numItems, idealChainMaxlen, nonidealItems, ineffExpands, noexpand := 0, 0, 0, 0, 0;
      chains := NewTable().ix.chains;
      assert Pow2(5) == 2 * Pow2(4) == 4 * Pow2(3) == 8 * Pow2(2) == 32;
      var zeroed := ZeroedBuckets(INITIAL_NUM_BUCKETS, INITIAL_NUM_BUCKETS_LOG2);
      buckets := zeroed;
      EmptyIndexes(hash, INITIAL_NUM_BUCKETS_LOG2);
      new;
    }

    lemma BeforeRemoving(e: Element, items: set<Element>)
      requires BucketsOk(items) && e in items && numItems > 0
      ensures var b, t, t' := BucketOf(hash, e, numBuckets), Model(items), Take(hash, Model(items).ix, e);
              && b < numBuckets == buckets.Length && Apart(t.ix, b) && b < |chains| && e in chains[b]
              && e.hashv == hash(e.key) && ChainsLinked(t.ix)
              && buckets[b].hhHead == At(chains[b], 0) && buckets[b].count > 0
              && RemoveFrom(hash, t, e) == t.(ix := t', numItems := t.numItems - 1)
              && t'.chains == chains[b := Without(chains[b], e)] && t'.items == items - {e}
              && t'.buckets == buckets[..][b := buckets[b].(hhHead := At(t'.chains[b], 0),
                                                            count := buckets[b].count - 1)]
    {
      TakeIndexes(hash, log2NumBuckets, Model(items).ix, e);
    }

    /** HASH_DEL_IN_BKT and the end of HASH_DELETE_HH */
    method RemoveFromTable(e: Element, ghost items: set<Element>, ghost to: Table)
      requires BucketsOk(items) && e in items && numItems > 0
      requires to == RemoveFrom(hash, Model(items), e)
      modifies `numItems, `chains, buckets, items`hhPrev, items`hhNext
      ensures Model(items - {e}) == to && ChainsLinked(to.ix)
    {
      hide BucketsOk, ChainsLinked, Apart, RemoveFrom, Take, Without;
      BeforeRemoving(e, items);
      ghost var ix := Model(items).ix;
      var bkt := And(e.hashv, numBuckets - 1);
      buckets[bkt] := buckets[bkt].(count := buckets[bkt].count - 1);
      UnlinkFromBucket(buckets, bkt, e, ix, to.ix);
      chains := to.ix.chains;
      numItems := numItems - 1;
    }

    /** HASH_FIND_BYHASHVALUE and HASH_FIND_IN_BKT */
    method Find(key: Key, hashval: U32, ghost items: set<Element>) returns (out: Element?)
      requires BucketsOk(items) && hashval == hash(key)
      ensures out == Lookup(hash, Model(items).ix, key)
    {
      AndMask(hashval, log2NumBuckets);
      var bkt := And(hashval, numBuckets - 1);
      ghost var c := chains[bkt];
      ghost var i := 0;
      out := buckets[bkt].hhHead;
      while out != null
        invariant i <= |c| && out == At(c, i) && FirstWith(c, key) == FirstWith(c[i..], key)
        decreases |c| - i
      {
        if out.hashv == hashval && |out.key| == |key| {
          if out.key == key {
            break;
          }
        }
        out := out.hhNext;
        i := i + 1;
      }
    }
  }
}
