/**
 The loops of HASH_SRT: a bottom-up merge sort that relinks the elements of an
 application-order list in place.
 */
module ListSort {
  import opened HashElement
  import opened StableSort

  /** `s` is linked, except that its last `next` is still to be set. */
  ghost predicate OutLinked(s: seq<Element>)
    reads s`prev, s`next
  {
    && (forall i {:trigger s[i].prev} | 0 <= i < |s| :: s[i].prev == At(s, i - 1))
    && (forall i {:trigger s[i].next} | 0 <= i < |s| - 1 :: s[i].next == At(s, i + 1))
  }

  /**
   A merge under way: of the list `l`, the runs [lo, mid) and [mid, hi) are being
   merged, and what is left of them is [i, mid) and [j, hi).
   */
  datatype Merging = Merging(l: seq<Element>, i: nat, mid: nat, j: nat, hi: nat) {
    ghost predicate Ok() {
      i <= mid <= j <= hi <= |l| && Distinct(l)
    }

    /** The position has not been merged yet. */
    ghost predicate Left(k: int) {
      i <= k < mid || j <= k < |l|
    }

    ghost predicate NotIn(out: seq<Element>)
      requires Ok()
    {
      forall k | Left(k) :: l[k] !in out
    }

    /** What is left is still linked as it was. */
    ghost predicate RestLinked()
      requires Ok()
      reads l`next
    {
      forall k {:trigger l[k].next} | Left(k) :: l[k].next == At(l, k + 1)
    }

    function Rest(cmp: Cmp<Element>): seq<Element> {
      if i <= mid <= j <= hi <= |l| then Merge(cmp, l[i..mid], l[j..hi]) else []
    }
  }

  /** Append `e` to the merged list. */
  method Emit(e: Element, list: Element?, tail: Element?, ghost out: seq<Element>)
    returns (list': Element?, tail': Element)
    requires OutLinked(out) && Distinct(out) && list == At(out, 0) && tail == At(out, |out| - 1) && e !in out
    modifies out`next, e`prev
    ensures OutLinked(out + [e]) && Distinct(out + [e]) && list' == At(out + [e], 0) && tail' == e
  {
    list' := list;
    if tail != null {
      tail.next := e;
    } else {
      list' := e;
    }
    e.prev := tail;
    tail' := e;
  }

  /** Walk from `p` over a run of at most `insize` elements, to the start `q` of the next one. */
  method CountRun(p: Element, insize: nat, ghost l: seq<Element>, ghost lo: nat) returns (q: Element?, psize: nat)
    requires lo < |l| && p == l[lo] && insize > 0
    requires forall k {:trigger l[k].next} | lo <= k < |l| :: l[k].next == At(l, k + 1)
    ensures psize == Min(insize, |l| - lo) && q == At(l, lo + psize)
  {
    q, psize := p, 0;
    for i := 0 to insize
      invariant psize == i && lo + i < |l| && q == l[lo + i]
    {
      psize := psize + 1;
      q := q.next;
      if q == null {
        break;
      }
    }
  }

  /** The element the merge takes next. */
  function Taken(cmp: Cmp<Element>, m: Merging): Element
    requires m.Ok() && (m.i < m.mid || m.j < m.hi)
  {
    if m.i == m.mid then m.l[m.j]
    else if m.j == m.hi then m.l[m.i]
    else if cmp(m.l[m.i], m.l[m.j]) <= 0 then m.l[m.i] else m.l[m.j]
  }

  function Step(cmp: Cmp<Element>, m: Merging): Merging
    requires m.Ok() && (m.i < m.mid || m.j < m.hi)
  {
    if m.i < m.mid && Taken(cmp, m) == m.l[m.i] then m.(i := m.i + 1) else m.(j := m.j + 1)
  }

  lemma MergeHead(cmp: Cmp<Element>, a: seq<Element>, b: seq<Element>)
    requires a != [] || b != []
    ensures if b == [] || (a != [] && cmp(a[0], b[0]) <= 0) then Merge(cmp, a, b) == [a[0]] + Merge(cmp, a[1..], b)
            else Merge(cmp, a, b) == [b[0]] + Merge(cmp, a, b[1..])
  {
  }

  lemma StepMerges(cmp: Cmp<Element>, m: Merging, out: seq<Element>)
    requires m.Ok() && (m.i < m.mid || m.j < m.hi)
    ensures Step(cmp, m).Ok() && out + m.Rest(cmp) == out + [Taken(cmp, m)] + Step(cmp, m).Rest(cmp)
    ensures Step(cmp, m) == m.(i := Step(cmp, m).i, j := Step(cmp, m).j)
    ensures Step(cmp, m).i + Step(cmp, m).j == m.i + m.j + 1
  {
    hide Merge;
    var a, b := m.l[m.i..m.mid], m.l[m.j..m.hi];
    MergeHead(cmp, a, b);
    assert a != [] ==> a[0] == m.l[m.i] && a[1..] == m.l[m.i + 1..m.mid];
    assert b != [] ==> b[0] == m.l[m.j] && b[1..] == m.l[m.j + 1..m.hi];
    assert m.Rest(cmp) == [Taken(cmp, m)] + Step(cmp, m).Rest(cmp);
  }

  lemma StepLeaves(cmp: Cmp<Element>, m: Merging, out: seq<Element>)
    requires m.Ok() && (m.i < m.mid || m.j < m.hi) && m.NotIn(out)
    ensures var e := Taken(cmp, m);
            Step(cmp, m).Ok() && Step(cmp, m).NotIn(out + [e]) && e !in out && e in m.l
  {
  }

  /** The variables of the innermost loop of HASH_SRT: what is left of the runs `p` and `q` lead to. */
  datatype Cursor = Cursor(p: Element?, psize: nat, q: Element?, qsize: nat)

  ghost predicate Points(c: Cursor, m: Merging, insize: nat)
    requires m.Ok()
  {
    && c.psize == m.mid - m.i && (m.i < m.mid ==> c.p == m.l[m.i])
    && c.q == At(m.l, m.j) && c.qsize == insize - (m.j - m.mid)
  }

  /** Choose the next element and advance past it. */
  method Advance(cmp: Cmp<Element>, c: Cursor, ghost m: Merging, ghost insize: nat) returns (e: Element, c': Cursor)
    requires m.Ok() && m.RestLinked() && m.hi == Min(m.mid + insize, |m.l|) && Points(c, m, insize)
    requires c.psize != 0 || (c.qsize != 0 && c.q != null)
    ensures (m.i < m.mid || m.j < m.hi) && Step(cmp, m).Ok()
    ensures e == Taken(cmp, m) && Points(c', Step(cmp, m), insize)
  {
    if c.psize == 0 {
      e := c.q;
      c' := c.(q := c.q.next, qsize := c.qsize - 1);
    } else if c.qsize == 0 || c.q == null {
      e := c.p;
      c' := c.(p := c.p.next, psize := c.psize - 1);
    } else if cmp(c.p, c.q) <= 0 {
      e := c.p;
      c' := c.(p := c.p.next, psize := c.psize - 1);
    } else {
      e := c.q;
      c' := c.(q := c.q.next, qsize := c.qsize - 1);
    }
  }

  /** The merged list so far. */
  ghost predicate Merged(list: Element?, tail: Element?, out: seq<Element>)
    reads out`prev, out`next
  {
    OutLinked(out) && Distinct(out) && list == At(out, 0) && tail == At(out, |out| - 1)
  }

  /** The body of the innermost loop of HASH_SRT. */
  method MergeStep(cmp: Cmp<Element>, c: Cursor, list: Element?, tail: Element?,
                   ghost m: Merging, ghost insize: nat, ghost out: seq<Element>, ghost items: set<Element>)
    returns (c': Cursor, list': Element?, tail': Element?)
    requires m.Ok() && m.RestLinked() && m.hi == Min(m.mid + insize, |m.l|) && Points(c, m, insize)
    requires c.psize != 0 || (c.qsize != 0 && c.q != null)
    requires m.NotIn(out) && Merged(list, tail, out) && Within(m.l, items) && Within(out, items)
    modifies items`prev, items`next
    ensures (m.i < m.mid || m.j < m.hi) && Step(cmp, m).Ok() && Points(c', Step(cmp, m), insize)
    ensures Step(cmp, m).RestLinked() && Step(cmp, m).NotIn(out + [Taken(cmp, m)])
    ensures Merged(list', tail', out + [Taken(cmp, m)]) && Within(out + [Taken(cmp, m)], items)
  {
    var e: Element;
    e, c' := Advance(cmp, c, m, insize);
    StepLeaves(cmp, m, out);
    list', tail' := Emit(e, list, tail, out);
  }

  /** The merge of two runs: the innermost loop of HASH_SRT. */
  method MergeRuns(cmp: Cmp<Element>, c0: Cursor, list0: Element?, tail0: Element?,
                   ghost m0: Merging, ghost insize: nat, ghost out0: seq<Element>, ghost to: seq<Element>,
                   ghost items: set<Element>)
    returns (list: Element?, tail: Element?, q: Element?)
    requires m0.Ok() && m0.i < m0.mid == m0.j && m0.hi == Min(m0.mid + insize, |m0.l|) && Points(c0, m0, insize)
    requires m0.NotIn(out0) && m0.RestLinked() && Merged(list0, tail0, out0)
    requires Within(m0.l, items) && Within(out0, items) && to == out0 + m0.Rest(cmp)
    modifies items`prev, items`next
    ensures Merged(list, tail, to) && Within(to, items) && q == At(m0.l, m0.hi)
    ensures m0.(i := m0.mid, j := m0.hi).NotIn(to) && m0.(i := m0.mid, j := m0.hi).RestLinked()
  {
    hide Merged, Step, Taken, Merge, Merging.Rest;
    list, tail := list0, tail0;
    var c := c0;
    ghost var m, out: seq<Element> := m0, out0;
    while c.psize != 0 || (c.qsize != 0 && c.q != null)
      invariant m.Ok() && m == m0.(i := m.i, j := m.j) && Points(c, m, insize)
      invariant out + m.Rest(cmp) == to
      invariant m.NotIn(out) && m.RestLinked() && Merged(list, tail, out) && Within(out, items)
      decreases m.mid + m.hi - m.i - m.j
    {
      c, list, tail := MergeStep(cmp, c, list, tail, m, insize, out, items);
      StepMerges(cmp, m, out);
      m, out := Step(cmp, m), out + [Taken(cmp, m)];
    }
    NothingLeft(cmp, m);
    assert out == to;
    q := c.q;
  }

  lemma NothingLeft(cmp: Cmp<Element>, m: Merging)
    requires m.Ok() && m.i == m.mid && m.j == m.hi
    ensures m.Rest(cmp) == []
  {
  }

  // ---- sweeps ----

  /** Nothing is being merged, and what is left of `l` starts at `lo`. */
  function Between(l: seq<Element>, lo: nat): Merging {
    Merging(l, lo, lo, lo, lo)
  }

  /** The merge of the two runs from `lo` on. */
  function RunsFrom(l: seq<Element>, lo: nat, width: nat): Merging {
    var mid := lo + Min(width, if lo <= |l| then |l| - lo else 0);
    Merging(l, lo, mid, mid, Min(mid + width, |l|))
  }

  function PassFrom(cmp: Cmp<Element>, l: seq<Element>, lo: nat, width: nat): seq<Element>
    requires width > 0
  {
    if lo <= |l| then Pass(cmp, l[lo..], width) else []
  }

  lemma PassStep(cmp: Cmp<Element>, l: seq<Element>, lo: nat, width: nat, out: seq<Element>)
    requires width > 0 && lo < |l|
    ensures var m := RunsFrom(l, lo, width);
            out + PassFrom(cmp, l, lo, width) == out + m.Rest(cmp) + PassFrom(cmp, l, m.hi, width)
  {
    hide Merge, Pass;
    var m, s := RunsFrom(l, lo, width), l[lo..];
    var mid, hi := Min(width, |s|), Min(2 * width, |s|);
    PassHead(cmp, s, width);
    SliceBehind(l, lo, 0, mid);
    SliceBehind(l, lo, mid, hi);
    SliceBehind(l, lo, hi, |s|);
    assert s[..mid] == s[0..mid] && s[hi..] == s[hi..|s|] && l[m.hi..] == l[m.hi..|l|];
  }

  lemma PassHead(cmp: Cmp<Element>, s: seq<Element>, width: nat)
    requires width > 0 && s != []
    ensures var mid, hi := Min(width, |s|), Min(2 * width, |s|);
            Pass(cmp, s, width) == Merge(cmp, s[..mid], s[mid..hi]) + Pass(cmp, s[hi..], width)
  {
    hide Merge;
  }

  lemma SliceBehind(l: seq<Element>, lo: nat, i: nat, j: nat)
    requires lo <= |l| && i <= j <= |l| - lo
    ensures l[lo..][i..j] == l[lo + i..lo + j]
  {
  }

  lemma StartSweep(cmp: Cmp<Element>, l: seq<Element>, width: nat)
    requires width > 0 && ListLinked(l) && Distinct(l)
    ensures Between(l, 0).NotIn([]) && Between(l, 0).RestLinked() && Merged(null, null, [])
    ensures PassFrom(cmp, l, 0, width) == Pass(cmp, l, width) && PassFrom(cmp, l, |l|, width) == []
  {
    assert l[0..] == l;
  }

  lemma StartMerge(l: seq<Element>, lo: nat, width: nat, out: seq<Element>)
    requires width > 0 && lo < |l| && Distinct(l) && Between(l, lo).NotIn(out) && Between(l, lo).RestLinked()
    ensures var m := RunsFrom(l, lo, width);
            && m.Ok() && m.NotIn(out) && m.RestLinked() && m.l == l && m.i == lo < m.mid == m.j && m.hi > lo
            && m.mid == lo + Min(width, |l| - lo) && m.hi == Min(m.mid + width, |l|)
            && Points(Cursor(l[lo], m.mid - lo, At(l, m.mid), width), m, width)
    ensures forall k {:trigger l[k].next} | lo <= k < |l| :: l[k].next == At(l, k + 1)
  {
  }

  lemma FinishMerge(m: Merging, out: seq<Element>)
    requires m.Ok() && m.(i := m.mid, j := m.hi).NotIn(out) && m.(i := m.mid, j := m.hi).RestLinked()
    ensures Between(m.l, m.hi).NotIn(out) && Between(m.l, m.hi).RestLinked()
  {
  }

  /** The number of merges made, as far as HASH_SRT looks at it. */
  ghost predicate Counted(nmerges: nat, lo: nat, len: nat, width: nat) {
    && (nmerges == 0 <==> lo == 0)
    && (nmerges == 1 ==> lo == Min(2 * width, len))
    && (nmerges >= 2 ==> lo > 2 * width)
  }

  lemma CountMerge(nmerges: nat, l: seq<Element>, lo: nat, width: nat)
    requires width > 0 && lo < |l| && Counted(nmerges, lo, |l|, width)
    ensures Counted(nmerges + 1, RunsFrom(l, lo, width).hi, |l|, width)
  {
  }

  lemma NoneCounted(len: nat, width: nat)
    requires width > 0 && len > 0
    ensures Counted(0, 0, len, width)
  {
  }

  lemma AllCounted(nmerges: nat, len: nat, width: nat)
    requires width > 0 && len > 0 && Counted(nmerges, len, len, width)
    ensures nmerges <= 1 <==> len <= 2 * width
  {
  }

  /** End the merged list. */
  method CloseList(list: Element?, tail: Element?, ghost out: seq<Element>)
    requires Merged(list, tail, out) && out != []
    modifies out`next
    ensures ListLinked(out) && Distinct(out) && list == out[0] && tail == out[|out| - 1]
  {
    tail.next := null;
  }

  /** One sweep of HASH_SRT over the list. */
  method Sweep(cmp: Cmp<Element>, start: Element, insize: nat, ghost l: seq<Element>, ghost to: seq<Element>,
               ghost items: set<Element>)
    returns (list: Element, tail: Element, nmerges: nat)
    requires insize > 0 && Distinct(l) && ListLinked(l) && l != [] && start == l[0] && Within(l, items)
    requires to == Pass(cmp, l, insize)
    modifies items`prev, items`next
    ensures ListLinked(to) && Distinct(to) && Within(to, items) && list == to[0] && tail == to[|to| - 1]
    ensures nmerges <= 1 <==> |l| <= 2 * insize
  {
    hide Pass, PassFrom, RunsFrom, Min, Points, Merged, Counted, Merging.Rest, Merging.NotIn, Merging.RestLinked;
    var p: Element?, list': Element?, tail': Element? := start, null, null;
    nmerges := 0;
    ghost var lo, out: seq<Element> := 0, [];
    StartSweep(cmp, l, insize);
    NoneCounted(|l|, insize);
    while p != null
      invariant lo <= |l| && p == At(l, lo) && Counted(nmerges, lo, |l|, insize)
      invariant Between(l, lo).NotIn(out) && Between(l, lo).RestLinked()
      invariant Merged(list', tail', out) && Within(out, items)
      invariant out + PassFrom(cmp, l, lo, insize) == to
      decreases |l| - lo
    {
      CountMerge(nmerges, l, lo, insize);
      nmerges := nmerges + 1;
      StartMerge(l, lo, insize, out);
      PassStep(cmp, l, lo, insize, out);
      var q, psize := CountRun(p, insize, l, lo);
      ghost var m := RunsFrom(l, lo, insize);
      list', tail', q :=
        MergeRuns(cmp, Cursor(p, psize, q, insize), list', tail', m, insize, out, out + m.Rest(cmp), items);
      out := out + m.Rest(cmp);
      FinishMerge(m, out);
      lo := m.hi;
      p := q;
    }
    AllCounted(nmerges, |l|, insize);
    assert out == to;
    CloseList(list', tail', to);
    list, tail := list', tail';
  }

  /** The outer loop of HASH_SRT; the list starts and ends where the results say. */
  method Sort(cmp: Cmp<Element>, head: Element, ghost l0: seq<Element>) returns (list: Element, tail: Element)
    requires Distinct(l0) && ListLinked(l0) && l0 != [] && head == l0[0]
    modifies l0`prev, l0`next
    ensures ListLinked(BottomUp(cmp, l0, 1)) && Distinct(BottomUp(cmp, l0, 1))
    ensures list == BottomUp(cmp, l0, 1)[0] && tail == BottomUp(cmp, l0, 1)[|l0| - 1]
  {
    hide BottomUp, Pass, ListLinked, Distinct;
    var insize, looping := 1, true;
    list, tail := head, head;
    ghost var l, to, items: set<Element> := l0, BottomUp(cmp, l0, 1), Elements(l0);
    while looping
      invariant insize > 0 && |l| == |to| > 0 && list == l[0] && Within(l, items)
      invariant Distinct(l) && ListLinked(l)
      invariant if looping then to == BottomUp(cmp, l, insize) else l == to && tail == l[|l| - 1]
      decreases looping, |l0| - insize
    {
      var nmerges;
      ghost var next := Pass(cmp, l, insize);
      BottomUpStep(cmp, l, insize);
      list, tail, nmerges := Sweep(cmp, list, insize, l, next, items);
      l := next;
      if nmerges <= 1 {
        looping := false;
      }
      insize := insize * 2;
    }
  }

  lemma BottomUpStep(cmp: Cmp<Element>, s: seq<Element>, width: nat)
    requires width > 0
    ensures var t := Pass(cmp, s, width);
            BottomUp(cmp, s, width) == if |s| <= 2 * width then t else BottomUp(cmp, t, 2 * width)
  {
  }
}
