/**
 Sorting, as uthash does it, on sequences: the bottom-up merge sort of HASH_SRT
 and the ordered insertion of the INORDER macros. A comparator is a function
 `cmp(a, b)` of which only `cmp(a, b) <= 0` ("a may precede b") is ever tested.
 */
module StableSort {
  type Cmp<!T> = (T, T) -> int

  function Min(a: nat, b: nat): nat { if a <= b then a else b }

  /** Merge two runs; a tie takes from the left run. */
  function Merge<T>(cmp: Cmp<T>, a: seq<T>, b: seq<T>): (r: seq<T>)
    ensures |r| == |a| + |b|
    decreases |a| + |b|
  {
    if a == [] then b
    else if b == [] then a
    else if cmp(a[0], b[0]) <= 0 then [a[0]] + Merge(cmp, a[1..], b)
    else [b[0]] + Merge(cmp, a, b[1..])
  }

  /** One sweep: merge neighbouring runs of the given width. */
  function Pass<T>(cmp: Cmp<T>, s: seq<T>, width: nat): (r: seq<T>)
    requires width > 0
    ensures |r| == |s|
  {
    if s == [] then []
    else
      var mid, hi := Min(width, |s|), Min(2 * width, |s|);
      Merge(cmp, s[..mid], s[mid..hi]) + Pass(cmp, s[hi..], width)
  }

  /** Sweeps of doubling width until one sweep made at most one merge. */
  function BottomUp<T>(cmp: Cmp<T>, s: seq<T>, width: nat): (r: seq<T>)
    requires width > 0
    ensures |r| == |s|
    decreases |s| - width
  {
    var t := Pass(cmp, s, width);
    if |s| <= 2 * width then t else BottomUp(cmp, t, 2 * width)
  }

  /** Put `e` before the first element that must follow it. */
  function Insert<T>(cmp: Cmp<T>, s: seq<T>, e: T): seq<T> {
    if s == [] then [e]
    else if cmp(s[0], e) > 0 then [e] + s
    else [s[0]] + Insert(cmp, s[1..], e)
  }

  function InsertAll<T>(cmp: Cmp<T>, s: seq<T>, es: seq<T>): seq<T>
    decreases |es|
  {
    if es == [] then s else InsertAll(cmp, Insert(cmp, s, es[0]), es[1..])
  }

  // ---- what sorting means ----

  ghost predicate PreorderOn<T>(cmp: Cmp<T>, dom: set<T>) {
    && (forall a, b | a in dom && b in dom :: cmp(a, b) <= 0 || cmp(b, a) <= 0)
    && (forall a, b, c | a in dom && b in dom && c in dom && cmp(a, b) <= 0 && cmp(b, c) <= 0 :: cmp(a, c) <= 0)
  }

  ghost function Elements<T>(s: seq<T>): set<T> {
    set x | x in s
  }

  ghost predicate Within<T>(s: seq<T>, dom: set<T>) {
    forall x | x in s :: x in dom
  }

  ghost predicate Sorted<T>(cmp: Cmp<T>, s: seq<T>) {
    forall i, j | 0 <= i < j < |s| :: cmp(s[i], s[j]) <= 0
  }

  /** The elements of `s` that tie with `g`, in the order of `s`. */
  ghost function Ties<T>(cmp: Cmp<T>, g: T, s: seq<T>): (r: seq<T>)
    ensures forall x | x in r :: x in s && cmp(x, g) <= 0 && cmp(g, x) <= 0
    ensures forall x | x in s && cmp(x, g) <= 0 && cmp(g, x) <= 0 :: x in r
  {
    if s == [] then []
    else if cmp(s[0], g) <= 0 && cmp(g, s[0]) <= 0 then [s[0]] + Ties(cmp, g, s[1..])
    else Ties(cmp, g, s[1..])
  }

  /** `r` is a permutation of `s` in which elements that tie keep their order. */
  ghost predicate StablePermutation<T>(cmp: Cmp<T>, dom: set<T>, r: seq<T>, s: seq<T>) {
    && multiset(r) == multiset(s)
    && forall g | g in dom :: Ties(cmp, g, r) == Ties(cmp, g, s)
  }

  lemma {:induction false} TiesConcat<T>(cmp: Cmp<T>, g: T, a: seq<T>, b: seq<T>)
    ensures Ties(cmp, g, a + b) == Ties(cmp, g, a) + Ties(cmp, g, b)
  {
    if a == [] {
      assert a + b == b;
    } else {
      assert a + b == [a[0]] + (a[1..] + b);
      TiesConcat(cmp, g, a[1..], b);
    }
  }

  // ---- merging ----

  lemma {:induction false} MergePermutes<T>(cmp: Cmp<T>, a: seq<T>, b: seq<T>)
    ensures multiset(Merge(cmp, a, b)) == multiset(a) + multiset(b)
    decreases |a| + |b|
  {
    if a != [] && b != [] {
      assert a == [a[0]] + a[1..] && b == [b[0]] + b[1..];
      if cmp(a[0], b[0]) <= 0 {
        MergePermutes(cmp, a[1..], b);
      } else {
        MergePermutes(cmp, a, b[1..]);
      }
    }
  }

  lemma {:induction false} SortedCons<T>(cmp: Cmp<T>, x: T, s: seq<T>)
    requires Sorted(cmp, s) && forall y | y in s :: cmp(x, y) <= 0
    ensures Sorted(cmp, [x] + s)
  {
  }

  lemma {:induction false} MergeSorts<T>(cmp: Cmp<T>, dom: set<T>, a: seq<T>, b: seq<T>)
    requires PreorderOn(cmp, dom) && Within(a, dom) && Within(b, dom)
    requires Sorted(cmp, a) && Sorted(cmp, b)
    ensures Sorted(cmp, Merge(cmp, a, b))
    decreases |a| + |b|
  {
    hide PreorderOn, Within, Sorted;
    if a != [] && b != [] {
      SortedTail(cmp, dom, a);
      SortedTail(cmp, dom, b);
      if cmp(a[0], b[0]) <= 0 {
        MergeSorts(cmp, dom, a[1..], b);
        MergedHead(cmp, dom, a, b, a[0], a[1..], b);
      } else {
        MergeSorts(cmp, dom, a, b[1..]);
        MergedHead(cmp, dom, a, b, b[0], a, b[1..]);
      }
    }
  }

  /** The lesser head in front of what is left of the two runs, merged. */
  lemma MergedHead<T>(cmp: Cmp<T>, dom: set<T>, a: seq<T>, b: seq<T>, x: T, p: seq<T>, q: seq<T>)
    requires PreorderOn(cmp, dom) && Within(a, dom) && Within(b, dom)
    requires Sorted(cmp, a) && Sorted(cmp, b) && a != [] && b != []
    requires if cmp(a[0], b[0]) <= 0 then x == a[0] && p == a[1..] && q == b else x == b[0] && p == a && q == b[1..]
    requires Sorted(cmp, Merge(cmp, p, q))
    ensures Sorted(cmp, [x] + Merge(cmp, p, q))
  {
    hide PreorderOn, Within, Sorted;
    var rest := Merge(cmp, p, q);
    MergePermutes(cmp, p, q);
    forall y | y in rest ensures cmp(x, y) <= 0 {
      assert y in multiset(rest);
      assert y in p || y in q;
      HeadFirst(cmp, dom, a, b, y);
    }
    SortedCons(cmp, x, rest);
  }

  lemma HeadFirst<T>(cmp: Cmp<T>, dom: set<T>, a: seq<T>, b: seq<T>, y: T)
    requires PreorderOn(cmp, dom) && Within(a, dom) && Within(b, dom)
    requires Sorted(cmp, a) && Sorted(cmp, b) && a != [] && b != [] && (y in a || y in b)
    ensures cmp(if cmp(a[0], b[0]) <= 0 then a[0] else b[0], y) <= 0
  {
    assert a[0] in a && b[0] in b;
    assert y in a ==> cmp(a[0], y) <= 0;
    assert y in b ==> cmp(b[0], y) <= 0;
  }

  lemma WithinTail<T>(dom: set<T>, s: seq<T>)
    requires Within(s, dom) && s != []
    ensures s[0] in dom && Within(s[1..], dom)
  {
    assert s[0] in s && forall x | x in s[1..] :: x in s;
  }

  lemma SortedTail<T>(cmp: Cmp<T>, dom: set<T>, s: seq<T>)
    requires Within(s, dom) && Sorted(cmp, s) && s != []
    ensures s[0] in dom && Within(s[1..], dom) && Sorted(cmp, s[1..])
  {
    WithinTail(dom, s);
  }

  lemma {:induction false} MergeStable<T>(cmp: Cmp<T>, dom: set<T>, g: T, a: seq<T>, b: seq<T>)
    requires PreorderOn(cmp, dom) && Within(a, dom) && Within(b, dom) && g in dom
    requires Sorted(cmp, a)
    ensures Ties(cmp, g, Merge(cmp, a, b)) == Ties(cmp, g, a) + Ties(cmp, g, b)
    decreases |a| + |b|
  {
    hide PreorderOn, Sorted, Within, Ties;
    if a == [] || b == [] {
      NoTies0(cmp, g);
      assert Ties(cmp, g, a) + Ties(cmp, g, b) == Ties(cmp, g, Merge(cmp, a, b));
    } else {
      SortedTail(cmp, dom, a);
      WithinTail(dom, b);
      if cmp(a[0], b[0]) <= 0 {
        MergeStable(cmp, dom, g, a[1..], b);
        LeftFirst(cmp, g, a, b, Merge(cmp, a[1..], b));
      } else {
        MergeStable(cmp, dom, g, a, b[1..]);
        RightFirst(cmp, dom, g, a, b, Merge(cmp, a, b[1..]));
      }
    }
  }

  /** The head of the left run in front of the rest, merged. */
  lemma LeftFirst<T>(cmp: Cmp<T>, g: T, a: seq<T>, b: seq<T>, rest: seq<T>)
    requires a != [] && Ties(cmp, g, rest) == Ties(cmp, g, a[1..]) + Ties(cmp, g, b)
    ensures Ties(cmp, g, [a[0]] + rest) == Ties(cmp, g, a) + Ties(cmp, g, b)
  {
    hide Ties;
    TiesCons(cmp, g, a[0], rest, Ties(cmp, g, a[1..]), Ties(cmp, g, b));
    TiesHead(cmp, g, a);
  }

  /** The head of the right run: what ties with it is nowhere in the left one. */
  lemma RightFirst<T>(cmp: Cmp<T>, dom: set<T>, g: T, a: seq<T>, b: seq<T>, rest: seq<T>)
    requires PreorderOn(cmp, dom) && Within(a, dom) && g in dom && Sorted(cmp, a) && a != []
    requires b != [] && b[0] in dom && cmp(a[0], b[0]) > 0
    requires Ties(cmp, g, rest) == Ties(cmp, g, a) + Ties(cmp, g, b[1..])
    ensures Ties(cmp, g, [b[0]] + rest) == Ties(cmp, g, a) + Ties(cmp, g, b)
  {
    hide PreorderOn, Sorted, Within, Ties;
    TiesCons(cmp, g, b[0], rest, Ties(cmp, g, a), Ties(cmp, g, b[1..]));
    TiesHead(cmp, g, b);
    if cmp(b[0], g) <= 0 && cmp(g, b[0]) <= 0 {
      NoTies(cmp, dom, g, a, b[0]);
    }
  }

  lemma NoTies0<T>(cmp: Cmp<T>, g: T)
    ensures Ties(cmp, g, []) == []
  {
  }

  lemma TiesHead<T>(cmp: Cmp<T>, g: T, s: seq<T>)
    requires s != []
    ensures Ties(cmp, g, s)
         == if cmp(s[0], g) <= 0 && cmp(g, s[0]) <= 0 then [s[0]] + Ties(cmp, g, s[1..]) else Ties(cmp, g, s[1..])
  {
  }

  lemma TiesCons<T>(cmp: Cmp<T>, g: T, x: T, s: seq<T>, p: seq<T>, q: seq<T>)
    requires Ties(cmp, g, s) == p + q
    ensures Ties(cmp, g, [x] + s) == if cmp(x, g) <= 0 && cmp(g, x) <= 0 then [x] + p + q else p + q
  {
    assert ([x] + s)[1..] == s;
  }

  /** Nothing in a sorted run ties with `g` when the run starts above something that does. */
  lemma NoTies<T>(cmp: Cmp<T>, dom: set<T>, g: T, a: seq<T>, x: T)
    requires PreorderOn(cmp, dom) && Within(a, dom) && g in dom && x in dom
    requires Sorted(cmp, a) && a != [] && cmp(a[0], x) > 0 && cmp(x, g) <= 0 && cmp(g, x) <= 0
    ensures Ties(cmp, g, a) == []
  {
    assert a[0] in a;
    forall y | y in a ensures !(cmp(y, g) <= 0 && cmp(g, y) <= 0) {
      assert cmp(a[0], y) <= 0;
    }
  }

  // ---- sweeps ----

  /** Every run of the given width (the last may be shorter) is sorted. */
  ghost predicate RunsSorted<T>(cmp: Cmp<T>, s: seq<T>, width: nat)
    requires width > 0
  {
    s == [] || (Sorted(cmp, s[..Min(width, |s|)]) && RunsSorted(cmp, s[Min(width, |s|)..], width))
  }

  lemma {:induction false} SingletonRuns<T>(cmp: Cmp<T>, s: seq<T>)
    ensures RunsSorted(cmp, s, 1)
  {
    if s != [] {
      SingletonRuns(cmp, s[1..]);
    }
  }

  lemma SecondRun<T>(cmp: Cmp<T>, s: seq<T>, width: nat)
    requires width > 0 && s != [] && RunsSorted(cmp, s, width)
    ensures Sorted(cmp, s[Min(width, |s|)..Min(2 * width, |s|)])
    ensures RunsSorted(cmp, s[Min(2 * width, |s|)..], width)
  {
    var mid, hi := Min(width, |s|), Min(2 * width, |s|);
    var t := s[mid..];
    if t == [] {
      assert s[mid..hi] == [] && s[hi..] == [];
    } else {
      assert t[..Min(width, |t|)] == s[mid..hi];
      assert t[Min(width, |t|)..] == s[hi..];
    }
  }

  /** A sweep splits off two neighbouring runs and merges them. */
  lemma PassUnfold<T>(cmp: Cmp<T>, s: seq<T>, width: nat) returns (a: seq<T>, b: seq<T>, c: seq<T>)
    requires width > 0 && s != []
    ensures s == a + b + c && 0 < |a + b| <= 2 * width && (|a + b| == 2 * width || c == [])
    ensures Pass(cmp, s, width) == Merge(cmp, a, b) + Pass(cmp, c, width)
    ensures RunsSorted(cmp, s, width) ==> Sorted(cmp, a) && Sorted(cmp, b) && RunsSorted(cmp, c, width)
  {
    var mid, hi := Min(width, |s|), Min(2 * width, |s|);
    a, b, c := s[..mid], s[mid..hi], s[hi..];
    if RunsSorted(cmp, s, width) {
      SecondRun(cmp, s, width);
    }
  }

  lemma {:induction false} PassSorts<T>(cmp: Cmp<T>, dom: set<T>, s: seq<T>, width: nat)
    requires width > 0 && PreorderOn(cmp, dom) && Within(s, dom) && RunsSorted(cmp, s, width)
    ensures RunsSorted(cmp, Pass(cmp, s, width), 2 * width)
    decreases |s|
  {
    if s != [] {
      var a, b, c := PassUnfold(cmp, s, width);
      WithinConcat(a, b, c, dom);
      PassSorts(cmp, dom, c, width);
      MergeSorts(cmp, dom, a, b);
      RunsSortedConcat(cmp, Merge(cmp, a, b), Pass(cmp, c, width), 2 * width);
    }
  }

  lemma WithinConcat<T>(a: seq<T>, b: seq<T>, c: seq<T>, dom: set<T>)
    requires Within(a + b + c, dom)
    ensures Within(a, dom) && Within(b, dom) && Within(c, dom)
  {
    forall x | x in a || x in b || x in c ensures x in dom {
      assert x in a + b + c;
    }
  }

  lemma RunsSortedConcat<T>(cmp: Cmp<T>, run: seq<T>, rest: seq<T>, width: nat)
    requires width > 0 && 0 < |run| <= width && (|run| == width || rest == [])
    requires Sorted(cmp, run) && RunsSorted(cmp, rest, width)
    ensures RunsSorted(cmp, run + rest, width)
  {
    var s := run + rest;
    assert s[..Min(width, |s|)] == run && s[Min(width, |s|)..] == rest;
  }

  lemma {:induction false} PassPermutes<T>(cmp: Cmp<T>, s: seq<T>, width: nat)
    requires width > 0
    ensures multiset(Pass(cmp, s, width)) == multiset(s)
    decreases |s|
  {
    if s != [] {
      var a, b, c := PassUnfold(cmp, s, width);
      MergePermutes(cmp, a, b);
      PassPermutes(cmp, c, width);
    }
  }

  lemma {:induction false} PassStable<T>(cmp: Cmp<T>, dom: set<T>, g: T, s: seq<T>, width: nat)
    requires width > 0 && PreorderOn(cmp, dom) && Within(s, dom) && RunsSorted(cmp, s, width) && g in dom
    ensures Ties(cmp, g, Pass(cmp, s, width)) == Ties(cmp, g, s)
    decreases |s|
  {
    if s != [] {
      var a, b, c := PassUnfold(cmp, s, width);
      WithinConcat(a, b, c, dom);
      PassStable(cmp, dom, g, c, width);
      MergeStable(cmp, dom, g, a, b);
      TiesConcat(cmp, g, Merge(cmp, a, b), Pass(cmp, c, width));
      TiesConcat(cmp, g, a + b, c);
      TiesConcat(cmp, g, a, b);
    }
  }

  lemma {:induction false} BottomUpPermutes<T>(cmp: Cmp<T>, s: seq<T>, width: nat)
    requires width > 0
    ensures multiset(BottomUp(cmp, s, width)) == multiset(s)
    decreases |s| - width
  {
    PassPermutes(cmp, s, width);
    if |s| > 2 * width {
      BottomUpPermutes(cmp, Pass(cmp, s, width), 2 * width);
    }
  }

  lemma {:induction false} BottomUpSorts<T>(cmp: Cmp<T>, dom: set<T>, s: seq<T>, width: nat)
    requires width > 0 && PreorderOn(cmp, dom) && Within(s, dom) && RunsSorted(cmp, s, width)
    ensures Sorted(cmp, BottomUp(cmp, s, width))
    ensures StablePermutation(cmp, dom, BottomUp(cmp, s, width), s)
    decreases |s| - width
  {
    var t := Pass(cmp, s, width);
    PassSorts(cmp, dom, s, width);
    PassPermutes(cmp, s, width);
    forall g | g in dom ensures Ties(cmp, g, t) == Ties(cmp, g, s) {
      PassStable(cmp, dom, g, s, width);
    }
    if |s| <= 2 * width {
      assert t[..|t|] == t;
    } else {
      forall x | x in t ensures x in dom {
        assert x in multiset(t);
        assert x in multiset(s);
      }
      BottomUpSorts(cmp, dom, t, 2 * width);
    }
  }

  // ---- ordered insertion ----

  lemma {:induction false} InsertSorts<T>(cmp: Cmp<T>, dom: set<T>, s: seq<T>, e: T)
    requires PreorderOn(cmp, dom) && Within(s, dom) && e in dom && Sorted(cmp, s)
    ensures Sorted(cmp, Insert(cmp, s, e))
    ensures multiset(Insert(cmp, s, e)) == multiset(s) + multiset{e}
  {
    hide PreorderOn, Within;
    if s != [] {
      assert s == [s[0]] + s[1..];
      if cmp(s[0], e) > 0 {
        AboveAll(cmp, dom, s, e);
        SortedCons(cmp, e, s);
      } else {
        SortedTail(cmp, dom, s);
        InsertSorts(cmp, dom, s[1..], e);
        var r := Insert(cmp, s[1..], e);
        forall y | y in r ensures cmp(s[0], y) <= 0 {
          assert y in multiset(s[1..]) + multiset{e};
          assert y in s[1..] || y == e;
        }
        SortedCons(cmp, s[0], r);
      }
    }
  }

  lemma AboveAll<T>(cmp: Cmp<T>, dom: set<T>, s: seq<T>, e: T)
    requires PreorderOn(cmp, dom) && Within(s, dom) && e in dom && Sorted(cmp, s) && s != [] && cmp(s[0], e) > 0
    ensures forall y | y in s :: cmp(e, y) <= 0
  {
    assert s[0] in s;
    forall y | y in s ensures cmp(e, y) <= 0 {
      assert cmp(s[0], y) <= 0;
    }
  }

  lemma {:induction false} InsertStable<T>(cmp: Cmp<T>, dom: set<T>, g: T, s: seq<T>, e: T)
    requires PreorderOn(cmp, dom) && Within(s, dom) && e in dom && g in dom && Sorted(cmp, s)
    ensures Ties(cmp, g, Insert(cmp, s, e)) == Ties(cmp, g, s) + Ties(cmp, g, [e])
  {
    if s != [] {
      if cmp(s[0], e) > 0 {
        if cmp(e, g) <= 0 && cmp(g, e) <= 0 {
          NoTies(cmp, dom, g, s, e);
        }
      } else {
        InsertStable(cmp, dom, g, s[1..], e);
      }
    }
  }

  lemma {:induction false} InsertAllSorts<T>(cmp: Cmp<T>, dom: set<T>, s: seq<T>, es: seq<T>)
    requires PreorderOn(cmp, dom) && Within(s, dom) && Within(es, dom) && Sorted(cmp, s)
    ensures Sorted(cmp, InsertAll(cmp, s, es))
    ensures multiset(InsertAll(cmp, s, es)) == multiset(s) + multiset(es)
    decreases |es|
  {
    if es != [] {
      InsertWithin(cmp, dom, s, es);
      InsertAllSorts(cmp, dom, Insert(cmp, s, es[0]), es[1..]);
      assert es == [es[0]] + es[1..];
    }
  }

  lemma InsertWithin<T>(cmp: Cmp<T>, dom: set<T>, s: seq<T>, es: seq<T>)
    requires PreorderOn(cmp, dom) && Within(s, dom) && Within(es, dom) && Sorted(cmp, s) && es != []
    ensures Within(Insert(cmp, s, es[0]), dom) && Sorted(cmp, Insert(cmp, s, es[0]))
    ensures multiset(Insert(cmp, s, es[0])) == multiset(s) + multiset{es[0]}
  {
    var t := Insert(cmp, s, es[0]);
    assert es[0] in es;
    InsertSorts(cmp, dom, s, es[0]);
    forall x | x in t ensures x in dom {
      assert x in multiset(t);
      assert x in s || x == es[0];
    }
  }

  lemma {:induction false} InsertAllStable<T>(cmp: Cmp<T>, dom: set<T>, g: T, s: seq<T>, es: seq<T>)
    requires PreorderOn(cmp, dom) && Within(s, dom) && Within(es, dom) && Sorted(cmp, s) && g in dom
    ensures Ties(cmp, g, InsertAll(cmp, s, es)) == Ties(cmp, g, s) + Ties(cmp, g, es)
    decreases |es|
  {
    hide PreorderOn, Within, Sorted, Ties, Insert;
    if es == [] {
      NoTies0(cmp, g);
      assert Ties(cmp, g, s) + [] == Ties(cmp, g, s);
    } else {
      var e, rest := es[0], es[1..];
      InsertWithin(cmp, dom, s, es);
      WithinTail(dom, es);
      var t := Insert(cmp, s, e);
      calc {
        Ties(cmp, g, InsertAll(cmp, t, rest));
        { InsertAllStable(cmp, dom, g, t, rest); }
        Ties(cmp, g, t) + Ties(cmp, g, rest);
        { InsertStable(cmp, dom, g, s, e); }
        Ties(cmp, g, s) + Ties(cmp, g, [e]) + Ties(cmp, g, rest);
        Ties(cmp, g, s) + (Ties(cmp, g, [e]) + Ties(cmp, g, rest));
        { UnfoldTies(cmp, g, es); }
        Ties(cmp, g, s) + Ties(cmp, g, es);
      }
    }
  }

  lemma UnfoldTies<T>(cmp: Cmp<T>, g: T, s: seq<T>)
    requires s != []
    ensures Ties(cmp, g, s) == Ties(cmp, g, [s[0]]) + Ties(cmp, g, s[1..])
  {
    assert s == [s[0]] + s[1..];
    TiesConcat(cmp, g, [s[0]], s[1..]);
  }

  // ---- stable sorting has one answer ----

  lemma {:induction false} StableSortUnique<T>(cmp: Cmp<T>, dom: set<T>, a: seq<T>, b: seq<T>)
    requires PreorderOn(cmp, dom) && Within(a, dom) && Within(b, dom)
    requires Sorted(cmp, a) && Sorted(cmp, b)
    requires forall g | g in dom :: Ties(cmp, g, a) == Ties(cmp, g, b)
    ensures a == b
    decreases |a|
  {
    hide PreorderOn, Sorted, Within, Ties;
    if a == [] {
      if b != [] {
        SameHead(cmp, dom, b, a);
      }
    } else {
      SameHead(cmp, dom, a, b);
      SortedTail(cmp, dom, a);
      SortedTail(cmp, dom, b);
      forall g | g in dom ensures Ties(cmp, g, a[1..]) == Ties(cmp, g, b[1..]) {
        TailTies(cmp, g, a);
        TailTies(cmp, g, b);
      }
      StableSortUnique(cmp, dom, a[1..], b[1..]);
      assert a == [a[0]] + a[1..] && b == [b[0]] + b[1..];
    }
  }

  lemma SameHead<T>(cmp: Cmp<T>, dom: set<T>, a: seq<T>, b: seq<T>)
    requires PreorderOn(cmp, dom) && Within(a, dom) && Within(b, dom)
    requires Sorted(cmp, a) && Sorted(cmp, b) && a != []
    requires forall g | g in dom :: Ties(cmp, g, a) == Ties(cmp, g, b)
    ensures b != [] && a[0] == b[0]
  {
    var x := a[0];
    assert x in a;
    assert cmp(x, x) <= 0;
    assert x in Ties(cmp, x, b);
    var y := b[0];
    assert y in b;
    assert cmp(y, y) <= 0;
    assert y in Ties(cmp, y, a);
    assert cmp(x, y) <= 0 && cmp(y, x) <= 0;
    assert Ties(cmp, x, a)[0] == x && Ties(cmp, x, b)[0] == y;
  }

  lemma TailTies<T>(cmp: Cmp<T>, g: T, s: seq<T>)
    requires s != []
    ensures Ties(cmp, g, s[1..]) ==
            (if cmp(s[0], g) <= 0 && cmp(g, s[0]) <= 0 then Ties(cmp, g, s)[1..] else Ties(cmp, g, s))
  {
  }

  /** HASH_SRT is a stable sort of the list it is given. */
  lemma {:induction false} MergeSortIsStableSort<T>(cmp: Cmp<T>, s: seq<T>)
    requires PreorderOn(cmp, Elements(s))
    ensures Sorted(cmp, BottomUp(cmp, s, 1))
    ensures StablePermutation(cmp, Elements(s), BottomUp(cmp, s, 1), s)
  {
    SingletonRuns(cmp, s);
    BottomUpSorts(cmp, Elements(s), s, 1);
  }

  /** Inserting in order of arrival and sorting the arrival order give the same list. */
  lemma {:induction false} InsertionIsSorting<T>(cmp: Cmp<T>, s: seq<T>)
    requires PreorderOn(cmp, Elements(s))
    ensures InsertAll(cmp, [], s) == BottomUp(cmp, s, 1)
  {
    var dom := Elements(s);
    MergeSortIsStableSort(cmp, s);
    InsertAllSorts(cmp, dom, [], s);
    forall g | g in dom ensures Ties(cmp, g, InsertAll(cmp, [], s)) == Ties(cmp, g, s) {
      InsertAllStable(cmp, dom, g, [], s);
    }
    var a, b := InsertAll(cmp, [], s), BottomUp(cmp, s, 1);
    forall x | x in a ensures x in dom { assert x in multiset(a); assert x in multiset(s); }
    forall x | x in b ensures x in dom { assert x in multiset(b); assert x in multiset(s); }
    StableSortUnique(cmp, dom, a, b);
  }
}
