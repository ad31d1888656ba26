/**
 The hash table macros of uthash, on the variable `head` that names the first
 element and leads to the UT_hash_table. Every element is linked into the
 application-order list (`prev`, `next`) and into the chain of its bucket.
 */
module UtHash {
  import opened StableSort
  import opened HashElement
  import opened ChainIndex
  import opened UtTable
  import ListSort

  // ---- surgery on the application-order list ----

  /** `s` is a list whose links lead through `e` just before position `k`. */
  ghost predicate LinkedThrough(s: seq<Element>, k: nat, e: Element)
    reads s`prev, s`next, e`prev, e`next
  {
    && e.prev == At(s, k - 1) && e.next == At(s, k)
    && (forall i {:trigger s[i].prev} | 0 <= i < |s| :: s[i].prev == if i == k then e else At(s, i - 1))
    && (forall i {:trigger s[i].next} | 0 <= i < |s| :: s[i].next == if i == k - 1 then e else At(s, i + 1))
  }

  function InsertAt(s: seq<Element>, k: nat, e: Element): (r: seq<Element>)
    requires k <= |s|
    ensures |r| == |s| + 1
  {
    s[..k] + [e] + s[k..]
  }

  lemma InsertedAt(s: seq<Element>, k: nat, e: Element, i: int)
    requires k <= |s|
    ensures At(InsertAt(s, k, e), i) == if i < k then At(s, i) else if i == k then e else At(s, i - 1)
  {
  }

  lemma InsertDistinct(s: seq<Element>, k: nat, e: Element)
    requires k <= |s| && e !in s && Distinct(s)
    ensures Distinct(InsertAt(s, k, e)) && Elements(InsertAt(s, k, e)) == Elements(s) + {e}
  {
    forall x | x in s ensures x in InsertAt(s, k, e) {
      assert s == s[..k] + s[k..];
      assert x in s[..k] || x in s[k..];
    }
  }

  lemma ListWith(s: seq<Element>, k: nat, e: Element)
    requires k <= |s| && LinkedThrough(s, k, e)
    ensures ListLinked(InsertAt(s, k, e))
  {
    var d := InsertAt(s, k, e);
    forall i | 0 <= i < |d| ensures d[i].prev == At(d, i - 1) && d[i].next == At(d, i + 1) {
      InsertedAt(s, k, e, i - 1);
      InsertedAt(s, k, e, i);
      InsertedAt(s, k, e, i + 1);
    }
  }

  /** `s` is a list whose links lead past position `k`. */
  ghost predicate ListLinkedPast(s: seq<Element>, k: nat)
    reads s`prev, s`next
  {
    && (forall i {:trigger s[i].prev} | 0 <= i < |s| && i != k ::
         s[i].prev == At(s, if i == k + 1 then k - 1 else i - 1))
    && (forall i {:trigger s[i].next} | 0 <= i < |s| && i != k ::
         s[i].next == At(s, if i == k - 1 then k + 1 else i + 1))
  }

  lemma ListWithout(s: seq<Element>, k: nat)
    requires k < |s| && Distinct(s) && ListLinkedPast(s, k)
    ensures ListLinked(Without(s, s[k]))
  {
    hide Without, Distinct;
    var d := Without(s, s[k]);
    WithoutAt(s, k, 0);
    forall i | 0 <= i < |d| ensures d[i].prev == At(d, i - 1) && d[i].next == At(d, i + 1) {
      WithoutAt(s, k, i - 1);
      WithoutAt(s, k, i);
      WithoutAt(s, k, i + 1);
      var j := if i < k then i else i + 1;
      assert s[j].prev == At(s, if j == k + 1 then k - 1 else j - 1);
      assert s[j].next == At(s, if j == k - 1 then k + 1 else j + 1);
    }
  }

  class HashHead {
    const hash: Hash
    var head: Element?
    var tbl: HashTable?
    /** The application-order list. */
    ghost var app: seq<Element>

    constructor (hash: Hash)
      ensures Valid() && app == [] && this.hash == hash
    {
      this.hash := hash;
      head, tbl, app := null, null, [];
    }

    ghost predicate ListOk()
      reads this, tbl, app`prev, app`next
    {
      && tbl != null
      && head == At(app, 0) && tbl.tail == At(app, |app| - 1)
      && Distinct(app) && ListLinked(app)
    }

    /** The table the macros see; a first addition makes a new one. */
    ghost function Contents(): Table
      reads this, tbl, if tbl == null then {} else {tbl.buckets}
    {
      if head == null || tbl == null then NewTable() else tbl.Model(Elements(app))
    }

    /** HASH_FSCK, and more: the chains partition the list by hash value. */
    ghost predicate Valid()
      reads this, tbl, if tbl == null then {} else {tbl.buckets}, app
    {
      if head == null then app == []
      else
        && ListOk() && tbl.hash == hash
        && tbl.BucketsOk(Elements(app))
        && TableOk(hash, Contents())
    }

    /** HASH_APPEND_LIST */
    method AppendList(e: Element)
      requires ListOk() && app != [] && e !in app
      modifies `app, tbl`tail, app`next, e`prev, e`next
      ensures ListOk() && app == old(app) + [e]
    {
      e.next := null;
      e.prev := tbl.tail;
      tbl.tail.next := e;
      tbl.tail := e;
      ListWith(app, |app|, e);
      InsertDistinct(app, |app|, e);
      assert InsertAt(app, |app|, e) == app + [e];
      app := app + [e];
    }

    /** The four pointers that lead through `e` to the element at position `k`. */
    method PatchBefore(iter: Element, ghost k: nat, e: Element)
      requires ListOk() && k < |app| && iter == app[k] && e !in app
      modifies `head, app`prev, app`next, e`prev, e`next
      ensures LinkedThrough(app, k, e) && head == if k == 0 then e else old(head)
    {
      e.next := iter;
      e.prev := iter.prev;
      if e.prev != null {
        e.prev.next := e;
      } else {
        head := e;
      }
      iter.prev := e;
    }

    /** Link `e` into the list before its element at position `k`. */
    method LinkBefore(iter: Element, ghost k: nat, e: Element)
      requires ListOk() && k < |app| && iter == app[k] && e !in app
      modifies `app, `head, app`prev, app`next, e`prev, e`next
      ensures ListOk() && app == InsertAt(old(app), k, e)
    {
      PatchBefore(iter, k, e);
      ListWith(app, k, e);
      InsertDistinct(app, k, e);
      InsertedAt(app, k, e, 0);
      InsertedAt(app, k, e, |app|);
      app := InsertAt(app, k, e);
    }

    /** The patch-up of HASH_DELETE_HH for the application-order list. */
    method PatchList(e: Element, ghost k: nat)
      requires ListOk() && |app| > 1 && k < |app| && e == app[k]
      modifies `head, tbl`tail, app`prev, app`next
      ensures ListLinkedPast(app, k)
      ensures head == At(app, if k == 0 then 1 else 0)
      ensures tbl.tail == At(app, if k == |app| - 1 then k - 1 else |app| - 1)
    {
      assert e.prev == At(app, k - 1) && e.next == At(app, k + 1);
      if e == tbl.tail {
        tbl.tail := e.prev;
      }
      if e.prev != null {
        e.prev.next := e.next;
      } else {
        head := e.next;
      }
      if e.next != null {
        e.next.prev := e.prev;
      }
    }

    /** Unlink an element that is not the only one from the list. */
    method UnlinkFromList(e: Element, ghost k: nat)
      requires ListOk() && |app| > 1 && k < |app| && e == app[k]
      modifies `app, `head, tbl`tail, app`prev, app`next
      ensures ListOk() && app == Without(old(app), e)
    {
      hide Without, Distinct;
      PatchList(e, k);
      ListWithout(app, k);
      WithoutKeeps(app, e);
      WithoutAt(app, k, 0);
      WithoutAt(app, k, |app| - 2);
      app := Without(app, e);
    }

    lemma AllHashed(items: set<Element>, e: Element)
      requires tbl != null && tbl.hash == hash && tbl.BucketsOk(items) && e.hashv == hash(e.key)
      ensures Hashed(hash, items + {e})
    {
    }

    lemma Whole(items: set<Element>, to: Table)
      requires head != null && tbl != null && ListOk() && Elements(app) == items
      requires tbl.hash == hash && tbl.BucketsOk(items)
      requires TableOk(hash, to) && tbl.Model(items) == to
      ensures Valid() && Contents() == to
    {
      hide ListOk, TableOk, HashTable.BucketsOk;
    }

    /** HASH_ADD_TO_TABLE, once `e` is in the list: put it into the table too. */
    method Enter(e: Element, ghost items: set<Element>, ghost to: Table)
      requires head != null && ListOk() && tbl.hash == hash && tbl.BucketsOk(items) && TableOk(hash, tbl.Model(items))
      requires Elements(app) == items + {e} && e !in items && e.hashv == hash(e.key)
      requires to == AddTo(hash, tbl.Model(items), e)
      modifies tbl, tbl.buckets, items`hhPrev, items`hhNext, e`hhPrev, e`hhNext
      ensures Valid() && Contents() == to
      ensures tbl.buckets == old(tbl.buckets) || fresh(tbl.buckets)
    {
      hide AddTo, TableOk, Distinct, ListLinked, ChainsLinked, HashTable.BucketsOk, Valid, Contents;
      AddToOk(hash, tbl.Model(items), e);
      AllHashed(items, e);
      tbl.AddToTable(e, items, to);
      assert ListLinked(app);
      assert Hashed(hash, items + {e});
      tbl.Assembled(items + {e}, to);
      Whole(items + {e}, to);
    }

    /** The list and the table of a first element. */
    method Start(e: Element)
      requires head == null
      modifies `head, `tbl, `app, e`prev, e`next
      ensures head != null && ListOk() && app == [e] && fresh(tbl) && fresh(tbl.buckets)
      ensures tbl.hash == hash && tbl.BucketsOk({}) && tbl.Model({}) == NewTable()
    {
      e.next := null;
      e.prev := null;
      tbl := new HashTable.MakeTable(hash, e);
      head := e;
      app := [e];
    }

    /** HASH_ADD_KEYPTR, into a table that has elements. */
    method AddToEnd(e: Element, ghost to: Table)
      requires head != null && Valid() && e !in app && to == AddTo(hash, tbl.Model(Elements(app)), e)
      modifies this, tbl, tbl.buckets, app, e
      ensures Valid() && app == old(app) + [e] && Contents() == to
      ensures tbl == old(tbl) && (tbl.buckets == old(tbl.buckets) || fresh(tbl.buckets))
    {
      hide AddTo, TableOk;
      ghost var items := Elements(app);
      e.hashv := hash(e.key);
      AppendList(e);
      assert Elements(app) == items + {e};
      Enter(e, items, to);
    }

    /** HASH_ADD_KEYPTR */
    method Add(e: Element, ghost to: Table)
      requires Valid() && e !in app && to == AddTo(hash, Contents(), e)
      modifies this, tbl, if tbl == null then {} else {tbl.buckets}, app, e
      ensures Valid() && app == old(app) + [e] && Contents() == to
      ensures Footprint(old(tbl), if old(tbl) == null then null else old(tbl.buckets))
    {
      hide AddTo, NewTable;
      if head == null {
        e.hashv := hash(e.key);
        Start(e);
        NewTableOk(hash);
        assert Elements(app) == {e};
        Enter(e, {}, to);
      } else {
        AddToEnd(e, to);
      }
    }

    /** HASH_AKBI_INNER_LOOP: the first element that compares above `e`. */
    method FindPlace(e: Element, cmp: Cmp<Element>) returns (iter: Element?, ghost k: nat)
      requires ListOk()
      ensures k <= |app| && iter == At(app, k)
      ensures Insert(cmp, app, e) == InsertAt(app, k, e)
    {
      iter, k := head, 0;
      while iter != null && cmp(iter, e) <= 0
        invariant k <= |app| && iter == At(app, k)
        invariant Insert(cmp, app, e) == app[..k] + Insert(cmp, app[k..], e)
        decreases |app| - k
      {
        iter := iter.next;
        k := k + 1;
      }
    }

    /** HASH_AKBI_INNER_LOOP and the linking of HASH_ADD_KEYPTR_BYHASHVALUE_INORDER */
    method InsertIntoList(e: Element, cmp: Cmp<Element>)
      requires ListOk() && app != [] && e !in app
      modifies `app, `head, tbl`tail, app`prev, app`next, e`prev, e`next
      ensures ListOk() && app == Insert(cmp, old(app), e)
      ensures Elements(app) == Elements(old(app)) + {e} && head != null
    {
      hide Insert;
      var iter, k := FindPlace(e, cmp);
      InsertDistinct(app, k, e);
      if iter != null {
        LinkBefore(iter, k, e);
      } else {
        assert InsertAt(app, k, e) == app + [e];
        AppendList(e);
      }
    }

    /** HASH_ADD_KEYPTR_INORDER, into a table that has elements. */
    method AddAmong(e: Element, cmp: Cmp<Element>, ghost to: Table)
      requires head != null && Valid() && e !in app && to == AddTo(hash, tbl.Model(Elements(app)), e)
      modifies this, tbl, tbl.buckets, app, e
      ensures Valid() && app == Insert(cmp, old(app), e) && Contents() == to
      ensures tbl == old(tbl) && (tbl.buckets == old(tbl.buckets) || fresh(tbl.buckets))
    {
      hide AddTo, TableOk;
      ghost var items := Elements(app);
      e.hashv := hash(e.key);
      InsertIntoList(e, cmp);
      Enter(e, items, to);
    }

    /** HASH_ADD_KEYPTR_INORDER */
    method AddInOrder(e: Element, cmp: Cmp<Element>, ghost to: Table)
      requires Valid() && e !in app && to == AddTo(hash, Contents(), e)
      modifies this, tbl, if tbl == null then {} else {tbl.buckets}, app, e
      ensures Valid() && app == Insert(cmp, old(app), e) && Contents() == to
      ensures Footprint(old(tbl), if old(tbl) == null then null else old(tbl.buckets))
    {
      hide AddTo, NewTable;
      if head == null {
        e.hashv := hash(e.key);
        Start(e);
        NewTableOk(hash);
        assert Elements(app) == {e};
        Enter(e, {}, to);
      } else {
        AddAmong(e, cmp, to);
      }
    }

    /** The table and its buckets are the given ones, or new. */
    twostate predicate Footprint(was: HashTable?, buckets: array?<Bucket>)
      reads this, tbl
    {
      && (tbl == null || tbl == was || fresh(tbl))
      && (tbl == null || tbl.buckets == buckets || fresh(tbl.buckets))
    }

    /** HASH_FIND */
    method Find(key: Key) returns (out: Element?)
      requires Valid()
      ensures out == Lookup(hash, Contents().ix, key)
      ensures if out == null then forall e | e in app :: e.key != key else out in app && out.key == key
    {
      LookupFinds(hash, Contents().log2, Contents().ix, key);
      if head == null {
        out := null;
      } else {
        out := tbl.Find(key, hash(key), Elements(app));
      }
    }

    /** The end of HASH_DELETE_HH, once `e` is out of the list: take it out of the table too. */
    method Leave(e: Element, ghost items: set<Element>, ghost to: Table)
      requires head != null && ListOk() && tbl.hash == hash && tbl.BucketsOk(items) && TableOk(hash, tbl.Model(items))
      requires Elements(app) == items - {e} && e in items
      requires to == RemoveFrom(hash, tbl.Model(items), e)
      modifies tbl, tbl.buckets, items`hhPrev, items`hhNext
      ensures Valid() && Contents() == to
    {
      hide RemoveFrom, Take, Without, Partition;
      RemoveFromOk(hash, tbl.Model(items), e);
      tbl.RemoveFromTable(e, items, to);
      assert ListLinked(app);
    }

    /** HASH_DELETE_HH of an element that is not the only one. */
    method DeleteAmong(e: Element, ghost k: nat, ghost to: Table)
      requires head != null && Valid() && |app| > 1 && k < |app| && app[k] == e
      requires to == RemoveFrom(hash, tbl.Model(Elements(app)), e)
      modifies `app, `head, tbl, tbl.buckets, app
      ensures Valid() && app == Without(old(app), e) && Contents() == to
    {
      hide RemoveFrom, TableOk, Without;
      ghost var items := Elements(app);
      WithoutKeeps(app, e);
      UnlinkFromList(e, k);
      assert Elements(app) == items - {e};
      Leave(e, items, to);
    }

    /** HASH_DELETE */
    method Delete(e: Element)
      requires Valid() && e in app
      modifies this, tbl, tbl.buckets, app
      ensures Valid() && app == Without(old(app), e)
      ensures Contents() == Remove(hash, old(Contents()), e)
    {
      DistinctLength(app);
      ghost var k :| 0 <= k < |app| && app[k] == e;
      assert e.prev == At(app, k - 1) && e.next == At(app, k + 1);
      if e.prev == null && e.next == null {
        head := null;
        app := [];
      } else {
        DeleteAmong(e, k, RemoveFrom(hash, Contents(), e));
      }
    }

    /** HASH_SRT of the list itself. */
    method SortList(cmp: Cmp<Element>, ghost to: seq<Element>)
      requires head != null && ListOk() && to == BottomUp(cmp, app, 1)
      modifies `head, `app, tbl`tail, app`prev, app`next
      ensures ListOk() && app == to && Elements(app) == Elements(old(app))
    {
      hide BottomUp;
      SamePlaces(cmp);
      var list, tail := ListSort.Sort(cmp, head, app);
      head := list;
      tbl.tail := tail;
      app := to;
    }

    /** HASH_SRT: the list becomes sorted in place, and the buckets stay as they are. */
    method Sort(cmp: Cmp<Element>, ghost to: seq<Element>)
      requires Valid() && to == BottomUp(cmp, app, 1)
      modifies `head, `app, (if tbl == null then {} else {tbl})`tail, app`prev, app`next
      ensures Valid() && app == to && Contents() == old(Contents())
    {
      hide BottomUp, TableOk;
      if head != null {
        SortList(cmp, to);
      }
    }

    lemma SamePlaces(cmp: Cmp<Element>)
      ensures Elements(BottomUp(cmp, app, 1)) == Elements(app)
    {
      BottomUpPermutes(cmp, app, 1);
      var t := BottomUp(cmp, app, 1);
      forall x | x in t ensures x in app { assert x in multiset(t); assert x in multiset(app); }
      forall x | x in app ensures x in t { assert x in multiset(app); assert x in multiset(t); }
    }
  }

  /** A client that adds elements in order, one after the other, ends up with the list HASH_SRT makes of them. */
  method AddEachInOrder(table: HashHead, es: seq<Element>, cmp: Cmp<Element>)
    requires table.Valid() && table.app == [] && Distinct(es) && PreorderOn(cmp, Elements(es))
    modifies table, table.tbl, if table.tbl == null then {} else {table.tbl.buckets}, es
    ensures table.Valid() && table.app == BottomUp(cmp, es, 1)
  {
    hide HashHead.Valid, HashHead.Contents, AddTo, Insert, BottomUp, PreorderOn;
    var i := 0;
    assert es[0..] == es;
    while i < |es|
      invariant i <= |es| && table.Valid()
      invariant table.tbl == null || table.tbl == old(table.tbl) || fresh(table.tbl)
      invariant table.tbl != null ==>
                  fresh(table.tbl.buckets) || (old(table.tbl) != null && table.tbl.buckets == old(table.tbl.buckets))
      invariant forall k | 0 <= k < |table.app| :: table.app[k] in es[..i]
      invariant InsertAll(cmp, table.app, es[i..]) == InsertAll(cmp, [], es)
    {
      var e := es[i];
      assert es[i..][0] == e && es[i..][1..] == es[i + 1..];
      InsertedElements(cmp, table.app, e);
      ghost var was := table.app;
      assert forall x | x in was :: x in es[..i];
      assert es[..i + 1] == es[..i] + [e];
      table.AddInOrder(e, cmp, AddTo(table.hash, table.Contents(), e));
      assert forall k | 0 <= k < |table.app| :: table.app[k] in Insert(cmp, was, e);
      i := i + 1;
    }
    InsertionIsSorting(cmp, es);
  }

  /** A client that adds the same elements at the end, and sorts. */
  method AddEachAndSort(table: HashHead, es: seq<Element>, cmp: Cmp<Element>)
    requires table.Valid() && table.app == [] && Distinct(es)
    modifies table, table.tbl, if table.tbl == null then {} else {table.tbl.buckets}, es
    ensures table.Valid() && table.app == BottomUp(cmp, es, 1)
  {
    hide HashHead.Valid, HashHead.Contents, AddTo, BottomUp;
    var i := 0;
    while i < |es|
      invariant i <= |es| && table.Valid() && table.app == es[..i]
      invariant table.tbl == null || table.tbl == old(table.tbl) || fresh(table.tbl)
      invariant table.tbl != null ==>
                  fresh(table.tbl.buckets) || (old(table.tbl) != null && table.tbl.buckets == old(table.tbl.buckets))
    {
      var e := es[i];
      assert es[..i + 1] == es[..i] + [e];
      table.Add(e, AddTo(table.hash, table.Contents(), e));
      i := i + 1;
    }
    assert es[..|es|] == es;
    table.Sort(cmp, BottomUp(cmp, es, 1));
  }

  lemma {:induction false} InsertedElements(cmp: Cmp<Element>, s: seq<Element>, e: Element)
    ensures forall x | x in Insert(cmp, s, e) :: x in s || x == e
  {
    if s != [] {
      InsertedElements(cmp, s[1..], e);
    }
  }
}
