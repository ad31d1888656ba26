/** The bucket array of a hash table and its chains, as values. */
module ChainIndex {
  import opened Bits
  import opened HashElement
  import opened StableSort

  datatype Bucket = Bucket(hhHead: Element?, count: nat, expandMult: nat)

  type Chains = seq<seq<Element>>

  /** A bucket array, the chains its heads lead to, and the elements it indexes. */
  datatype Index = Index(buckets: seq<Bucket>, chains: Chains, items: set<Element>)

  /** HASH_TO_BKT */
  function BucketOf(hash: Hash, e: Element, numBuckets: nat): nat {
    if numBuckets == 0 then 0 else And(hash(e.key), numBuckets - 1)
  }

  lemma BucketOfIsRemainder(hash: Hash, e: Element, log2: nat)
    ensures BucketOf(hash, e, Pow2(log2)) == hash(e.key) % Pow2(log2) < Pow2(log2)
  {
    AndMask(hash(e.key), log2);
  }

  /** Each element of `items` is in exactly one chain, the one its hash selects, and there once. */
  ghost predicate Partition(hash: Hash, chains: Chains, items: set<Element>) {
    && (forall b | 0 <= b < |chains| :: Distinct(chains[b]))
    && (forall b | 0 <= b < |chains| :: forall e | e in chains[b] :: e in items && BucketOf(hash, e, |chains|) == b)
    && (forall e | e in items :: BucketOf(hash, e, |chains|) < |chains| && e in chains[BucketOf(hash, e, |chains|)])
  }

  /** The bucket array agrees with the chains, and the chains with the elements. */
  ghost predicate Indexes(hash: Hash, log2: nat, ix: Index) {
    match ix
    case Index(buckets, chains, items) =>
      && |buckets| == |chains| == Pow2(log2)
      && (forall b {:trigger buckets[b]} | 0 <= b < |buckets| ::
           buckets[b].hhHead == At(chains[b], 0) && buckets[b].count == |chains[b]|)
      && Partition(hash, chains, items)
  }

  /** All chains are made of the items, and the chain of bucket `b` shares none with the others. */
  ghost predicate Apart(ix: Index, b: nat) {
    match ix
    case Index(_, chains, items) =>
      && b < |chains|
      && Distinct(chains[b])
      && (forall k | 0 <= k < |chains| :: forall e | e in chains[k] :: e in items && (k != b ==> e !in chains[b]))
  }

  lemma {:induction false} DistinctLength(s: seq<Element>)
    requires Distinct(s)
    ensures |Elements(s)| == |s|
  {
    if s == [] {
      assert Elements(s) == {};
    } else {
      DistinctLength(s[1..]);
      assert s[0] !in Elements(s[1..]);
      assert Elements(s) == {s[0]} + Elements(s[1..]);
    }
  }

  // ---- an empty index ----

  function NoChains(n: nat): (r: Chains)
    ensures |r| == n
  {
    seq(n, i => [])
  }

  function EmptyIndex(log2: nat): Index {
    Index(seq(Pow2(log2), i => Bucket(null, 0, 0)), NoChains(Pow2(log2)), {})
  }

  lemma EmptyIndexes(hash: Hash, log2: nat)
    ensures Indexes(hash, log2, EmptyIndex(log2))
  {
  }

  // ---- adding an element ----

  /** Put `e` at the front of its chain, and set the `expand_mult` of its bucket. */
  function Put(hash: Hash, ix: Index, e: Element, expandMult: nat): Index {
    var b := BucketOf(hash, e, |ix.chains|);
    if b < |ix.chains| == |ix.buckets| then
      Index(ix.buckets[b := Bucket(e, ix.buckets[b].count + 1, expandMult)],
            ix.chains[b := [e] + ix.chains[b]], ix.items + {e})
    else ix
  }

  lemma PutParts(hash: Hash, ix: Index, e: Element, expandMult: nat)
    requires BucketOf(hash, e, |ix.chains|) < |ix.chains| == |ix.buckets|
    ensures var b, ix' := BucketOf(hash, e, |ix.chains|), Put(hash, ix, e, expandMult);
            && ix'.buckets == ix.buckets[b := Bucket(e, ix.buckets[b].count + 1, expandMult)]
            && ix'.chains == ix.chains[b := [e] + ix.chains[b]] && ix'.items == ix.items + {e}
  {
  }

  lemma PutIndexes(hash: Hash, log2: nat, ix: Index, e: Element, expandMult: nat)
    requires Indexes(hash, log2, ix) && e !in ix.items
    ensures Indexes(hash, log2, Put(hash, ix, e, expandMult))
    ensures var b := BucketOf(hash, e, |ix.chains|);
            && b < |ix.chains| == |ix.buckets| && Apart(ix, b)
            && ix.buckets[b].hhHead == At(ix.chains[b], 0) && ix.buckets[b].count == |ix.chains[b]|
  {
    BucketOfIsRemainder(hash, e, log2);
  }

  // ---- doubling the number of buckets ----

  /** The number of elements whose place in their chain exceeds `ideal`. */
  function Excess(chains: Chains, ideal: nat): nat {
    if chains == [] then 0
    else (if |chains[0]| > ideal then |chains[0]| - ideal else 0) + Excess(chains[1..], ideal)
  }

  /** `expand_mult` of a bucket that `count` elements were moved into. */
  function ExpandMult(count: nat, ideal: nat): nat {
    if count <= ideal then 0
    else BumpMult(count, ExpandMult(count - 1, ideal), ideal)
  }

  function BumpMult(count: nat, m: nat, ideal: nat): nat {
    if count > ideal && count > m * ideal then m + 1 else m
  }

  /** An index being filled, with the count of elements beyond the ideal chain length. */
  datatype Filling = Filling(ix: Index, nonideal: nat)

  /** What the body of the inner loop of HASH_EXPAND_BUCKETS does with one element. */
  function Move(hash: Hash, ideal: nat, x: Filling, e: Element): Filling {
    var b := BucketOf(hash, e, |x.ix.chains|);
    if b < |x.ix.buckets| then
      var count, m := x.ix.buckets[b].count + 1, x.ix.buckets[b].expandMult;
      Filling(Put(hash, x.ix, e, BumpMult(count, m, ideal)), x.nonideal + (if count > ideal then 1 else 0))
    else x
  }

  function MoveAll(hash: Hash, ideal: nat, x: Filling, es: seq<Element>): Filling
    decreases |es|
  {
    if es == [] then x else MoveAll(hash, ideal, Move(hash, ideal, x, es[0]), es[1..])
  }

  function Flatten(chains: Chains): seq<Element> {
    if chains == [] then [] else chains[0] + Flatten(chains[1..])
  }

  /** The outcome of an expansion. */
  function Expanded(hash: Hash, log2: nat, ideal: nat, chains: Chains): Filling {
    MoveAll(hash, ideal, Filling(EmptyIndex(log2 + 1), 0), Flatten(chains))
  }

  /** The elements from position `j` of chain `i` on. */
  function Pending(chains: Chains, i: nat, j: nat): seq<Element> {
    if i < |chains| && j <= |chains[i]| then chains[i][j..] + Flatten(chains[i + 1..]) else []
  }

  lemma PendingStep(chains: Chains, i: nat, j: nat)
    requires i < |chains| && j < |chains[i]|
    ensures Pending(chains, i, j) == [chains[i][j]] + Pending(chains, i, j + 1)
  {
  }

  lemma PendingNext(chains: Chains, i: nat)
    requires i < |chains|
    ensures Pending(chains, i, |chains[i]|) == Pending(chains, i + 1, 0)
  {
  }

  /** The counters of an index being filled. */
  ghost predicate Filled(hash: Hash, log2: nat, ideal: nat, x: Filling) {
    match x
    case Filling(ix, nonideal) =>
      && Indexes(hash, log2, ix)
      && nonideal == Excess(ix.chains, ideal)
      && forall b | 0 <= b < |ix.chains| :: ix.buckets[b].expandMult == ExpandMult(|ix.chains[b]|, ideal)
  }

  lemma MoveFills(hash: Hash, log2: nat, ideal: nat, x: Filling, e: Element)
    requires Filled(hash, log2, ideal, x) && e !in x.ix.items
    ensures Filled(hash, log2, ideal, Move(hash, ideal, x, e))
  {
    BucketOfIsRemainder(hash, e, log2);
    var b := BucketOf(hash, e, |x.ix.chains|);
    PutIndexes(hash, log2, x.ix, e, BumpMult(|x.ix.chains[b]| + 1, x.ix.buckets[b].expandMult, ideal));
    ExcessUpdate(x.ix.chains, b, [e] + x.ix.chains[b], ideal);
  }

  lemma {:induction false} ExcessUpdate(chains: Chains, b: nat, c: seq<Element>, ideal: nat)
    requires b < |chains| && |c| == |chains[b]| + 1
    ensures Excess(chains[b := c], ideal) == Excess(chains, ideal) + (if |c| > ideal then 1 else 0)
  {
    if b > 0 {
      assert chains[b := c][1..] == chains[1..][b - 1 := c];
      ExcessUpdate(chains[1..], b - 1, c, ideal);
    } else {
      assert chains[b := c][1..] == chains[1..];
    }
  }

  lemma {:induction false} ExcessNone(n: nat, ideal: nat)
    ensures Excess(NoChains(n), ideal) == 0
  {
    if n > 0 {
      assert NoChains(n)[1..] == NoChains(n - 1);
      ExcessNone(n - 1, ideal);
    }
  }

  lemma EmptyFilled(hash: Hash, log2: nat, ideal: nat)
    ensures Filled(hash, log2, ideal, Filling(EmptyIndex(log2), 0))
  {
    EmptyIndexes(hash, log2);
    ExcessNone(Pow2(log2), ideal);
  }

  // ---- walking over the old chains ----

  /** A walk over the old chains that has come to position `j` of chain `i`. */
  datatype Walk = Walk(was: Chains, i: nat, j: nat, items: set<Element>)

  /** Exactly the elements before position `j` of chain `i` are in `moved`. */
  ghost predicate MovedUpTo(w: Walk, moved: set<Element>) {
    match w
    case Walk(was, i, j, items) =>
      forall k, l | 0 <= k < |was| && 0 <= l < |was[k]| :: was[k][l] in moved <==> k < i || (k == i && l < j)
  }

  ghost predicate OnlyAt(was: Chains, i: nat, j: nat, e: Element) {
    forall k, l | 0 <= k < |was| && 0 <= l < |was[k]| && was[k][l] == e :: k == i && l == j
  }

  /** `x` holds the elements passed so far, and moving the rest gives the expanded table. */
  ghost predicate Tracks(hash: Hash, log2: nat, ideal: nat, w: Walk, x: Filling) {
    match w
    case Walk(was, i, j, items) =>
      && Partition(hash, was, items)
      && Filled(hash, log2 + 1, ideal, x) && MovedUpTo(w, x.ix.items) && x.ix.items <= items
      && MoveAll(hash, ideal, x, Pending(was, i, j)) == Expanded(hash, log2, ideal, was)
  }

  lemma StartWalk(hash: Hash, log2: nat, ideal: nat, w: Walk)
    requires Partition(hash, w.was, w.items) && w.i == w.j == 0
    ensures Tracks(hash, log2, ideal, w, Filling(EmptyIndex(log2 + 1), 0))
  {
    EmptyFilled(hash, log2 + 1, ideal);
    assert Pending(w.was, 0, 0) == Flatten(w.was);
  }

  lemma StandsOnce(hash: Hash, w: Walk)
    requires Partition(hash, w.was, w.items) && w.i < |w.was| && w.j < |w.was[w.i]|
    ensures w.was[w.i][w.j] in w.items && OnlyAt(w.was, w.i, w.j, w.was[w.i][w.j])
  {
    var e := w.was[w.i][w.j];
    assert e in w.was[w.i];
    forall k, l | 0 <= k < |w.was| && 0 <= l < |w.was[k]| && w.was[k][l] == e ensures k == w.i && l == w.j {
      assert w.was[k][l] in w.was[k];
    }
  }

  lemma MovedNext(w: Walk, moved: set<Element>)
    requires MovedUpTo(w, moved) && w.i < |w.was| && w.j < |w.was[w.i]|
    requires OnlyAt(w.was, w.i, w.j, w.was[w.i][w.j])
    ensures w.was[w.i][w.j] !in moved && MovedUpTo(w.(j := w.j + 1), moved + {w.was[w.i][w.j]})
  {
  }

  /** What moving one element does to the elements, and where it finds its bucket. */
  lemma MoveOne(hash: Hash, log2: nat, ideal: nat, x: Filling, e: Element)
    requires Indexes(hash, log2, x.ix) && e !in x.ix.items
    ensures Move(hash, ideal, x, e).ix.items == x.ix.items + {e}
    ensures var b := BucketOf(hash, e, |x.ix.chains|);
            && b < |x.ix.chains| == |x.ix.buckets| == Pow2(log2)
            && Apart(x.ix, b) && x.ix.buckets[b].hhHead == At(x.ix.chains[b], 0)
  {
    hide Partition, BumpMult, Apart, BucketOf;
    PutIndexes(hash, log2, x.ix, e, 0);
  }

  lemma MoveFirst(hash: Hash, ideal: nat, x: Filling, e: Element, rest: seq<Element>)
    ensures MoveAll(hash, ideal, x, [e] + rest) == MoveAll(hash, ideal, Move(hash, ideal, x, e), rest)
  {
    hide Move;
    assert ([e] + rest)[1..] == rest;
  }

  lemma StepWalk(hash: Hash, log2: nat, ideal: nat, w: Walk, x: Filling)
    requires Tracks(hash, log2, ideal, w, x) && w.i < |w.was| && w.j < |w.was[w.i]|
    ensures var e := w.was[w.i][w.j];
            var b := BucketOf(hash, e, |x.ix.chains|);
            && Tracks(hash, log2, ideal, w.(j := w.j + 1), Move(hash, ideal, x, e))
            && e in w.items && x.ix.items <= w.items && e !in x.ix.items && OnlyAt(w.was, w.i, w.j, e)
            && b < |x.ix.chains| == |x.ix.buckets| == Pow2(log2 + 1)
            && Apart(x.ix, b) && x.ix.buckets[b].hhHead == At(x.ix.chains[b], 0)
  {
    hide Partition, MovedUpTo, OnlyAt, Move, MoveAll, Put, BumpMult, Excess, Indexes, Apart, BucketOf;
    hide Expanded, Pending;
    var e := w.was[w.i][w.j];
    StandsOnce(hash, w);
    MovedNext(w, x.ix.items);
    MoveFills(hash, log2 + 1, ideal, x, e);
    MoveOne(hash, log2 + 1, ideal, x, e);
    PendingStep(w.was, w.i, w.j);
    MoveFirst(hash, ideal, x, e, Pending(w.was, w.i, w.j + 1));
  }

  lemma NextChain(hash: Hash, log2: nat, ideal: nat, w: Walk, x: Filling)
    requires Tracks(hash, log2, ideal, w, x) && w.i < |w.was| && w.j == |w.was[w.i]|
    ensures Tracks(hash, log2, ideal, w.(i := w.i + 1, j := 0), x)
  {
    PendingNext(w.was, w.i);
  }

  lemma EndWalk(hash: Hash, log2: nat, ideal: nat, w: Walk, x: Filling)
    requires Tracks(hash, log2, ideal, w, x) && w.i == |w.was| && w.j == 0
    ensures x.ix.items == w.items && x == Expanded(hash, log2, ideal, w.was)
    ensures Filled(hash, log2 + 1, ideal, x)
  {
    forall e | e in w.items ensures e in x.ix.items {
      assert e in w.was[BucketOf(hash, e, |w.was|)];
    }
  }

  /** What an expansion makes of an index: the same elements, and counters that are as filled. */
  lemma ExpandedFilled(hash: Hash, log2: nat, ideal: nat, was: Chains, items: set<Element>)
    requires Partition(hash, was, items)
    ensures var x := Expanded(hash, log2, ideal, was);
            Filled(hash, log2 + 1, ideal, x) && x.ix.items == items
  {
    var w := Walk(was, 0, 0, items);
    StartWalk(hash, log2, ideal, w);
    FinishWalk(hash, log2, ideal, w, Filling(EmptyIndex(log2 + 1), 0));
  }

  lemma {:induction false} FinishWalk(hash: Hash, log2: nat, ideal: nat, w: Walk, x: Filling)
    requires Tracks(hash, log2, ideal, w, x)
    requires (w.i < |w.was| ==> w.j <= |w.was[w.i]|) && (w.i >= |w.was| ==> w.i == |w.was| && w.j == 0)
    ensures var y := Expanded(hash, log2, ideal, w.was);
            Filled(hash, log2 + 1, ideal, y) && y.ix.items == w.items
    decreases |w.was| - w.i, if w.i < |w.was| then |w.was[w.i]| - w.j else 0
  {
    if w.i == |w.was| {
      EndWalk(hash, log2, ideal, w, x);
    } else if w.j == |w.was[w.i]| {
      NextChain(hash, log2, ideal, w, x);
      FinishWalk(hash, log2, ideal, w.(i := w.i + 1, j := 0), x);
    } else {
      StepWalk(hash, log2, ideal, w, x);
      FinishWalk(hash, log2, ideal, w.(j := w.j + 1), Move(hash, ideal, x, w.was[w.i][w.j]));
    }
  }

  // ---- the ideal chain length ----

  /** ceil(numItems / numBuckets), as HASH_EXPAND_BUCKETS computes it for Pow2(log2) buckets. */
  function IdealLength(numItems: nat, log2: nat): nat {
    Shr(numItems, log2) + (if And(numItems, Pow2(log2) - 1) != 0 then 1 else 0)
  }

  lemma IdealIsCeiling(numItems: nat, log2: nat)
    ensures IdealLength(numItems, log2) == (numItems + Pow2(log2) - 1) / Pow2(log2)
  {
    ShrIsDiv(numItems, log2);
    AndMask(numItems, log2);
    CeilDiv(numItems, Pow2(log2));
  }

  lemma CeilDiv(a: nat, n: nat)
    requires n > 0
    ensures (a + n - 1) / n == a / n + (if a % n != 0 then 1 else 0)
  {
    var q, r := a / n, a % n;
    assert a == n * q + r;
    if r == 0 {
      assert a + n - 1 == q * n + (n - 1);
      ModUnique(a + n - 1, n, q, n - 1);
    } else {
      assert (q + 1) * n == q * n + n;
      assert a + n - 1 == (q + 1) * n + (r - 1);
      ModUnique(a + n - 1, n, q + 1, r - 1);
    }
  }

  // ---- the whole table as a value ----

  const BKT_CAPACITY_THRESH := 10

  datatype Table = Table(ix: Index, log2: nat, numItems: nat, ideal: nat, nonideal: nat,
                         ineffExpands: nat, noexpand: nat)

  /** HASH_EXPAND_BUCKETS */
  function Expand(hash: Hash, t: Table): Table {
    var ideal := IdealLength(t.numItems, t.log2 + 1);
    var x := Expanded(hash, t.log2, ideal, t.ix.chains);
    var ineff := if x.nonideal > Shr(t.numItems, 1) then t.ineffExpands + 1 else 0;
    Table(x.ix, t.log2 + 1, t.numItems, ideal, x.nonideal, ineff, if ineff > 1 then 1 else t.noexpand)
  }

  const INITIAL_NUM_BUCKETS_LOG2 := 5

  /** HASH_MAKE_TABLE */
  function NewTable(): Table {
    Table(EmptyIndex(INITIAL_NUM_BUCKETS_LOG2), INITIAL_NUM_BUCKETS_LOG2, 0, 0, 0, 0, 0)
  }

  /** HASH_ADD_TO_TABLE before any expansion: link `e` into its bucket. */
  function LinkNew(hash: Hash, t: Table, e: Element): Table {
    var b := BucketOf(hash, e, |t.ix.chains|);
    if b < |t.ix.buckets| then
      t.(ix := Put(hash, t.ix, e, t.ix.buckets[b].expandMult), numItems := t.numItems + 1)
    else t
  }

  /** The chain of the bucket of `e` has grown too long. */
  predicate MustExpand(hash: Hash, t: Table, e: Element) {
    var b := BucketOf(hash, e, |t.ix.chains|);
    && b < |t.ix.buckets|
    && t.ix.buckets[b].count >= (t.ix.buckets[b].expandMult + 1) * BKT_CAPACITY_THRESH
    && t.noexpand == 0
  }

  /** HASH_ADD_TO_TABLE */
  function AddTo(hash: Hash, t: Table, e: Element): Table {
    var t' := LinkNew(hash, t, e);
    if MustExpand(hash, t', e) then Expand(hash, t') else t'
  }

  /** Unlink `e` from its chain. */
  function Take(hash: Hash, ix: Index, e: Element): Index {
    var b := BucketOf(hash, e, |ix.chains|);
    if b < |ix.chains| == |ix.buckets| && ix.buckets[b].count > 0 then
      var c := Without(ix.chains[b], e);
      Index(ix.buckets[b := ix.buckets[b].(hhHead := At(c, 0), count := ix.buckets[b].count - 1)],
            ix.chains[b := c], ix.items - {e})
    else ix
  }

  /** HASH_DELETE_HH of an element that is not the only one. */
  function RemoveFrom(hash: Hash, t: Table, e: Element): Table {
    if t.numItems > 0 then t.(ix := Take(hash, t.ix, e), numItems := t.numItems - 1) else t
  }

  /** HASH_DELETE: the table is freed with its last element. */
  function Remove(hash: Hash, t: Table, e: Element): Table {
    if t.numItems == 1 then NewTable() else RemoveFrom(hash, t, e)
  }

  /** `s` without the first occurrence of `e`. */
  function Without(s: seq<Element>, e: Element): seq<Element> {
    if s == [] then []
    else if s[0] == e then s[1..]
    else [s[0]] + Without(s[1..], e)
  }

  /** HASH_FIND: the first element with the key in the chain the key's hash selects. */
  function Lookup(hash: Hash, ix: Index, key: Key): Element? {
    var b := And(hash(key), if |ix.chains| > 0 then |ix.chains| - 1 else 0);
    if b < |ix.chains| then FirstWith(ix.chains[b], key) else null
  }

  function FirstWith(s: seq<Element>, key: Key): Element? {
    if s == [] then null else if s[0].key == key then s[0] else FirstWith(s[1..], key)
  }

  /** What HASH_FSCK and the expansion policy keep about a table. */
  ghost predicate TableOk(hash: Hash, t: Table) {
    && Indexes(hash, t.log2, t.ix)
    && t.numItems == |t.ix.items|
    && t.noexpand <= 1 && t.ineffExpands <= 2 && (t.noexpand == 1 <==> t.ineffExpands == 2)
  }

  lemma NewTableOk(hash: Hash)
    ensures TableOk(hash, NewTable())
  {
    EmptyIndexes(hash, INITIAL_NUM_BUCKETS_LOG2);
  }

  lemma ExpandOk(hash: Hash, t: Table)
    requires TableOk(hash, t) && t.noexpand == 0
    ensures TableOk(hash, Expand(hash, t)) && Expand(hash, t).ix.items == t.ix.items
  {
    hide Expanded, IdealLength, Partition, Excess, ExpandMult, Shr;
    ExpandedFilled(hash, t.log2, IdealLength(t.numItems, t.log2 + 1), t.ix.chains, t.ix.items);
  }

  lemma LinkNewOk(hash: Hash, t: Table, e: Element)
    requires TableOk(hash, t) && e !in t.ix.items
    ensures TableOk(hash, LinkNew(hash, t, e)) && LinkNew(hash, t, e).ix.items == t.ix.items + {e}
  {
    BucketOfIsRemainder(hash, e, t.log2);
    var b := BucketOf(hash, e, |t.ix.chains|);
    PutIndexes(hash, t.log2, t.ix, e, t.ix.buckets[b].expandMult);
  }

  lemma AddToOk(hash: Hash, t: Table, e: Element)
    requires TableOk(hash, t) && e !in t.ix.items
    ensures TableOk(hash, AddTo(hash, t, e)) && AddTo(hash, t, e).ix.items == t.ix.items + {e}
  {
    LinkNewOk(hash, t, e);
    if MustExpand(hash, LinkNew(hash, t, e), e) {
      ExpandOk(hash, LinkNew(hash, t, e));
    }
  }

  lemma {:induction false} WithoutKeeps(s: seq<Element>, e: Element)
    requires Distinct(s) && e in s
    ensures |Without(s, e)| == |s| - 1 && Distinct(Without(s, e))
    ensures forall x | x in Without(s, e) :: x in s && x != e
    ensures forall x | x in s && x != e :: x in Without(s, e)
  {
    if s[0] != e {
      WithoutKeeps(s[1..], e);
      assert s[0] !in s[1..];
      assert s[0] !in Without(s[1..], e);
    }
  }

  lemma {:induction false} WithoutSplits(s: seq<Element>, k: nat)
    requires Distinct(s) && k < |s|
    ensures Without(s, s[k]) == s[..k] + s[k + 1..]
  {
    hide Distinct;
    if k > 0 {
      DistinctTail(s, k);
      WithoutSplits(s[1..], k - 1);
      TailSplits(s, k);
    }
  }

  lemma DistinctTail(s: seq<Element>, k: nat)
    requires Distinct(s) && 0 < k < |s|
    ensures Distinct(s[1..]) && s[0] != s[k] && s[1..][k - 1] == s[k]
  {
  }

  lemma TailSplits(s: seq<Element>, k: nat)
    requires 0 < k < |s|
    ensures s[..k] + s[k + 1..] == [s[0]] + (s[1..][..k - 1] + s[1..][k..])
  {
    assert s[..k] == [s[0]] + s[1..][..k - 1] && s[k + 1..] == s[1..][k..];
  }

  lemma TakeIndexes(hash: Hash, log2: nat, ix: Index, e: Element)
    requires Indexes(hash, log2, ix) && e in ix.items
    ensures Indexes(hash, log2, Take(hash, ix, e)) && Take(hash, ix, e).items == ix.items - {e}
    ensures var b := BucketOf(hash, e, |ix.chains|);
            && b < |ix.chains| == |ix.buckets| && Apart(ix, b) && e in ix.chains[b]
            && ix.buckets[b].hhHead == At(ix.chains[b], 0) && ix.buckets[b].count == |ix.chains[b]| > 0
  {
    BucketOfIsRemainder(hash, e, log2);
    WithoutKeeps(ix.chains[BucketOf(hash, e, |ix.chains|)], e);
  }

  lemma RemoveFromOk(hash: Hash, t: Table, e: Element)
    requires TableOk(hash, t) && e in t.ix.items
    ensures TableOk(hash, RemoveFrom(hash, t, e)) && RemoveFrom(hash, t, e).ix.items == t.ix.items - {e}
    ensures t.numItems > 0
  {
    TakeIndexes(hash, t.log2, t.ix, e);
  }

  lemma RemoveOk(hash: Hash, t: Table, e: Element)
    requires TableOk(hash, t) && e in t.ix.items
    ensures TableOk(hash, Remove(hash, t, e)) && Remove(hash, t, e).ix.items == t.ix.items - {e}
  {
    if t.numItems == 1 {
      NewTableOk(hash);
      assert |t.ix.items - {e}| == 0;
    } else {
      RemoveFromOk(hash, t, e);
    }
  }

  lemma {:induction false} FirstWithFinds(s: seq<Element>, key: Key)
    ensures var r := FirstWith(s, key);
            if r == null then forall e | e in s :: e.key != key else r in s && r.key == key
  {
    if s != [] && s[0].key != key {
      FirstWithFinds(s[1..], key);
    }
  }

  /** A lookup misses exactly the absent keys. */
  lemma LookupFinds(hash: Hash, log2: nat, ix: Index, key: Key)
    requires Indexes(hash, log2, ix)
    ensures var r := Lookup(hash, ix, key);
            if r == null then forall e | e in ix.items :: e.key != key else r in ix.items && r.key == key
  {
    AndMask(hash(key), log2);
    FirstWithFinds(ix.chains[hash(key) % Pow2(log2)], key);
  }
}
