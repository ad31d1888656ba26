/** The assembler's symbol table, the client that keeps the keys of a uthash table unique. */
module SymbolTable {
  import opened Arena
  import opened Bits
  import opened HashElement
  import opened ChainIndex
  import opened UtHash

  datatype Option<+T> = None | Some(value: T)

  const SIZEOF_ENTRY := 72

  /** What the arena gives for a symbol: the entry and the copy of its key. */
  function EntrySize(key: Key): nat {
    Block(SIZEOF_ENTRY) + CopySize(key)
  }

  /** No two elements have the same symbol. */
  ghost predicate UniqueKeys(s: seq<Element>) {
    forall i, j | 0 <= i < j < |s| :: s[i].key != s[j].key
  }

  /** The map a list of symbols stands for. */
  function Bindings(s: seq<Element>): map<Key, U32> {
    if s == [] then map[]
    else Bindings(s[..|s| - 1])[s[|s| - 1].key := s[|s| - 1].address]
  }

  lemma {:induction false} BindingsAre(s: seq<Element>)
    requires UniqueKeys(s)
    ensures forall e | e in s :: e.key in Bindings(s) && Bindings(s)[e.key] == e.address
    ensures forall key | key in Bindings(s) :: exists e :: e in s && e.key == key
  {
    if s != [] {
      var t, last := s[..|s| - 1], s[|s| - 1];
      BindingsAre(t);
      forall e | e in s ensures e.key in Bindings(s) && Bindings(s)[e.key] == e.address {
        if e != last {
          assert e in t;
        }
      }
      forall key | key in Bindings(s) ensures exists e :: e in s && e.key == key {
        if key == last.key {
          assert last in s;
        } else {
          var e :| e in t && e.key == key;
          assert e in s;
        }
      }
    }
  }

  lemma BindingsGrow(s: seq<Element>, e: Element)
    requires UniqueKeys(s) && forall x | x in s :: x.key != e.key
    ensures UniqueKeys(s + [e]) && Bindings(s + [e]) == Bindings(s)[e.key := e.address]
  {
    assert (s + [e])[..|s|] == s;
  }

  /** A symbol table whose entries are the bindings. */
  ghost predicate Ok(table: HashHead)
    reads table, table.tbl, if table.tbl == null then {} else {table.tbl.buckets}, table.app
  {
    table.Valid() && UniqueKeys(table.app)
  }

  /** symbol_table_init */
  method Init(hash: Hash) returns (table: HashHead)
    ensures fresh(table) && Ok(table) && Bindings(table.app) == map[]
  {
    table := new HashHead(hash);
  }

  /** symbol_table_add; `exited` where the arena does not hold a new entry. */
  method Add(arena: MemoryArena, table: HashHead, key: Key, value: U32) returns (exited: bool, added: bool)
    requires arena.Valid() && Ok(table)
    modifies arena, arena.buffer, table, table.tbl, if table.tbl == null then {} else {table.tbl.buckets}, table.app
    ensures arena.Valid() && Ok(table)
    ensures exited <==> key !in old(Bindings(table.app)) && EntrySize(key) > old(arena.Free())
    ensures !exited ==> (added <==> key !in old(Bindings(table.app)))
                        && arena.Free() == if added then old(arena.Free()) - EntrySize(key) else old(arena.Free())
    ensures exited ==> !added
    ensures Bindings(table.app) == if added then old(Bindings(table.app))[key := value] else old(Bindings(table.app))
    ensures table.Footprint(old(table.tbl), if old(table.tbl) == null then null else old(table.tbl.buckets))
    ensures !added ==> table.app == old(table.app) && table.Contents() == old(table.Contents())
    ensures added ==> |table.app| == |old(table.app)| + 1 && table.app[..|old(table.app)|] == old(table.app)
                      && fresh(table.app[|old(table.app)|])
  {
    hide HashHead.Valid, HashHead.Contents, AddTo, Lookup, Bindings, MemoryArena.Valid, MemoryArena.Free;
    BindingsAre(table.app);
    var found := table.Find(key);
    if found != null {
      return false, false;
    }
    var ok := arena.Reserve(SIZEOF_ENTRY);
    if !ok {
      return true, false;
    }
    ok := arena.Reserve(|key| + 1);
    if !ok {
      return true, false;
    }
    var st := new Element(key, value);
    BindingsGrow(table.app, st);
    table.Add(st, AddTo(table.hash, table.Contents(), st));
    exited, added := false, true;
  }

  /** symbol_table_get; `None` where the source dereferences a null pointer. */
  method Get(table: HashHead, key: Key) returns (r: Option<U32>)
    requires Ok(table)
    ensures r == if key in Bindings(table.app) then Some(Bindings(table.app)[key]) else None
  {
    BindingsAre(table.app);
    var st := table.Find(key);
    r := if st == null then None else Some(st.address);
  }

  // ---- whole runs ----

  datatype Entry = Entry(key: Key, value: U32)

  /** The bindings and the answers after a sequence of additions, step by step as `Add` makes them. */
  function AddAll(m: map<Key, U32>, entries: seq<Entry>): (map<Key, U32>, seq<bool>)
    decreases |entries|
  {
    if entries == [] then (m, [])
    else
      var e := entries[0];
      var m' := if e.key in m then m else m[e.key := e.value];
      var (r, answers) := AddAll(m', entries[1..]);
      (r, [e.key !in m] + answers)
  }

  /** Position `i` is the first with its key, and the key was not bound before. */
  ghost predicate FirstOfItsKey(m: map<Key, U32>, entries: seq<Entry>, i: nat)
    requires i < |entries|
  {
    entries[i].key !in m && forall j | 0 <= j < i :: entries[j].key != entries[i].key
  }

  lemma SkipFirst(m: map<Key, U32>, entries: seq<Entry>, i: nat)
    requires 0 < i < |entries|
    ensures var m' := if entries[0].key in m then m else m[entries[0].key := entries[0].value];
            FirstOfItsKey(m, entries, i) <==> FirstOfItsKey(m', entries[1..], i - 1)
  {
    var m' := if entries[0].key in m then m else m[entries[0].key := entries[0].value];
    var rest := entries[1..];
    if FirstOfItsKey(m, entries, i) {
      assert forall j | 0 <= j < i - 1 :: rest[j] == entries[j + 1];
    }
    if FirstOfItsKey(m', rest, i - 1) {
      assert forall j | 0 < j < i :: entries[j] == rest[j - 1];
    }
  }

  /**
   An addition succeeds exactly when its key is new, and the table ends up with
   the first value given for each key; earlier bindings are never overwritten.
   */
  lemma {:induction false} FirstBindingWins(m: map<Key, U32>, entries: seq<Entry>)
    ensures var (r, answers) := AddAll(m, entries);
            && |answers| == |entries|
            && (forall i | 0 <= i < |entries| :: answers[i] <==> FirstOfItsKey(m, entries, i))
            && (forall i | 0 <= i < |entries| && FirstOfItsKey(m, entries, i) ::
                  entries[i].key in r && r[entries[i].key] == entries[i].value)
            && (forall key | key in m :: key in r && r[key] == m[key])
            && (forall key | key in r :: key in m || exists i :: 0 <= i < |entries| && entries[i].key == key)
    decreases |entries|
  {
    if entries != [] {
      var e, rest := entries[0], entries[1..];
      var m' := if e.key in m then m else m[e.key := e.value];
      FirstBindingWins(m', rest);
      var (r', answers') := AddAll(m', rest);
      forall i | 0 < i < |entries| ensures FirstOfItsKey(m, entries, i) <==> FirstOfItsKey(m', rest, i - 1) {
        SkipFirst(m, entries, i);
      }
      forall key | key in r' && key !in m ensures exists i :: 0 <= i < |entries| && entries[i].key == key {
        if key == e.key {
          assert entries[0].key == key;
        } else {
          var i :| 0 <= i < |rest| && rest[i].key == key;
          assert entries[i + 1].key == key;
        }
      }
    }
  }

  /** What the arena gives for the entries whose keys are new. */
  function EntrySizes(m: map<Key, U32>, entries: seq<Entry>): nat
    decreases |entries|
  {
    if entries == [] then 0
    else
      var e := entries[0];
      if e.key in m then EntrySizes(m, entries[1..])
      else EntrySize(e.key) + EntrySizes(m[e.key := e.value], entries[1..])
  }

  /** One more entry takes room for itself and for its key, to the byte, unless the key is bound or came before. */
  lemma {:induction false} OneMoreEntry(m: map<Key, U32>, entries: seq<Entry>, e: Entry)
    ensures EntrySizes(m, entries + [e])
         == EntrySizes(m, entries)
            + if e.key in m || exists i :: 0 <= i < |entries| && entries[i].key == e.key then 0 else |e.key| + 89
    decreases |entries|
  {
    if entries == [] {
      assert (entries + [e])[1..] == [];
    } else {
      var d, rest := entries[0], entries[1..];
      assert (entries + [e])[1..] == rest + [e];
      var m' := if d.key in m then m else m[d.key := d.value];
      OneMoreEntry(m', rest, e);
      assert (exists i :: 0 <= i < |entries| && entries[i].key == e.key)
        <==> d.key == e.key || exists i :: 0 <= i < |rest| && rest[i].key == e.key by {
        if j :| 0 <= j < |rest| && rest[j].key == e.key {
          assert entries[j + 1].key == e.key;
        }
        if j :| 0 <= j < |entries| && entries[j].key == e.key {
          assert j > 0 ==> rest[j - 1].key == e.key;
        }
      }
    }
  }

  lemma NoneAdded(m: map<Key, U32>, entries: seq<Entry>)
    ensures entries[0..] == entries
    ensures entries == [] ==> AddAll(m, entries) == (m, []) && EntrySizes(m, entries) == 0
  {
  }

  /** The next addition of a run, behind `answers`. */
  lemma {:induction false} AddNext(m: map<Key, U32>, entries: seq<Entry>, i: nat, answers: seq<bool>)
    requires i < |entries|
    ensures var e := entries[i];
            var m' := if e.key in m then m else m[e.key := e.value];
            var now, next := AddAll(m, entries[i..]), AddAll(m', entries[i + 1..]);
            && now.0 == next.0 && answers + now.1 == answers + [e.key !in m] + next.1
            && EntrySizes(m, entries[i..])
               == (if e.key in m then 0 else EntrySize(e.key)) + EntrySizes(m', entries[i + 1..])
  {
    hide EntrySize;
    assert entries[i..][0] == entries[i] && entries[i..][1..] == entries[i + 1..];
  }

  /** A client that adds entries one after the other: the table goes through the very states of `AddAll`. */
  method AddEach(arena: MemoryArena, table: HashHead, entries: seq<Entry>)
    returns (exited: bool, answers: seq<bool>)
    requires arena.Valid() && Ok(table)
    modifies arena, arena.buffer, table, table.tbl, if table.tbl == null then {} else {table.tbl.buckets}, table.app
    ensures arena.Valid() && Ok(table)
    ensures exited == (EntrySizes(old(Bindings(table.app)), entries) > old(arena.Free()))
    ensures !exited ==> (Bindings(table.app), answers) == AddAll(old(Bindings(table.app)), entries)
                        && arena.Free() == old(arena.Free()) - EntrySizes(old(Bindings(table.app)), entries)
  {
    hide HashHead.Valid, HashHead.Contents, Bindings, Ok, MemoryArena.Valid, MemoryArena.Free, EntrySize;
    hide AddAll, EntrySizes;
    answers := [];
    var i := 0;
    ghost var all, size := AddAll(Bindings(table.app), entries), EntrySizes(Bindings(table.app), entries);
    ghost var rest := all;
    NoneAdded(Bindings(table.app), entries);
    assert [] + rest.1 == rest.1;
    while i < |entries|
      invariant i <= |entries| && Ok(table) && arena.Valid()
      invariant table.tbl == null || table.tbl == old(table.tbl) || fresh(table.tbl)
      invariant table.tbl != null ==>
                  fresh(table.tbl.buckets) || (old(table.tbl) != null && table.tbl.buckets == old(table.tbl.buckets))
      invariant old(table.app) <= table.app && forall k | |old(table.app)| <= k < |table.app| :: fresh(table.app[k])
      invariant rest == AddAll(Bindings(table.app), entries[i..])
      invariant all == (rest.0, answers + rest.1)
      invariant old(arena.Free()) - arena.Free() + EntrySizes(Bindings(table.app), entries[i..]) == size
    {
      var e := entries[i];
      AddNext(Bindings(table.app), entries, i, answers);
      var added;
      exited, added := Add(arena, table, e.key, e.value);
      if exited {
        return;
      }
      rest := AddAll(Bindings(table.app), entries[i + 1..]);
      answers := answers + [added];
      i := i + 1;
    }
    NoneAdded(Bindings(table.app), entries[i..]);
    assert answers + [] == answers;
    exited := false;
  }
}
