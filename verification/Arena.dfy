/** The arena: a bump allocator over one byte buffer, with the size of each block in front of it. */
module Arena {
  import opened Bits

  const HEADER_SIZE := 8

  /** No buffer is as large as PTRDIFF_MAX + 1 bytes. */
  const MAX_OBJECT := 0x8000_0000_0000_0000

  // ---- sizes in memory ----

  function LeBytes(v: nat, k: nat): (b: seq<Byte>)
    ensures |b| == k
    decreases k
  {
    if k == 0 then [] else [v % 256] + LeBytes(v / 256, k - 1)
  }

  function LeValue(b: seq<Byte>): nat {
    if b == [] then 0 else (b[0] as int) + 256 * LeValue(b[1..])
  }

  function Pow256(k: nat): nat {
    if k == 0 then 1 else 256 * Pow256(k - 1)
  }

  lemma {:induction false} LeInverse(v: nat, k: nat)
    requires v < Pow256(k)
    ensures LeValue(LeBytes(v, k)) == v
    decreases k
  {
    if k > 0 {
      LeInverse(v / 256, k - 1);
    }
  }

  lemma SizesFit(v: nat)
    requires v < TWO_TO_THE_64
    ensures LeValue(LeBytes(v, HEADER_SIZE)) == v
  {
    assert Pow256(8) == 256 * Pow256(7) == 65536 * Pow256(6) == 0x100_0000 * Pow256(5) == 0x1_0000_0000 * Pow256(4);
    assert Pow256(4) == 256 * Pow256(3) == 65536 * Pow256(2);
    LeInverse(v, HEADER_SIZE);
  }

  // ---- the layout ----

  /** The bytes that blocks of these sizes take, headers included. */
  function Total(sizes: seq<nat>): nat {
    if sizes == [] then 0 else HEADER_SIZE + sizes[0] + Total(sizes[1..])
  }

  /** Where the header of block `i` is. */
  function Start(sizes: seq<nat>, i: nat): nat
    requires i <= |sizes|
  {
    Total(sizes[..i])
  }

  function HeaderAt(b: seq<Byte>, at: nat): nat
    requires at + HEADER_SIZE <= |b|
  {
    LeValue(b[at..at + HEADER_SIZE])
  }

  /** From `at` on, the buffer holds the headers of blocks of these sizes. */
  ghost predicate Laid(b: seq<Byte>, sizes: seq<nat>, at: nat) {
    sizes == [] ||
    (at + HEADER_SIZE <= |b| && HeaderAt(b, at) == sizes[0] && Laid(b, sizes[1..], at + HEADER_SIZE + sizes[0]))
  }

  /** Read the sizes back by stepping from header to header. */
  function Walk(b: seq<Byte>, at: nat, end: nat): seq<nat>
    decreases end - at
  {
    if at + HEADER_SIZE > end || end > |b| then []
    else [HeaderAt(b, at)] + Walk(b, at + HEADER_SIZE + HeaderAt(b, at), end)
  }

  lemma {:induction false} WalkFrom(b: seq<Byte>, sizes: seq<nat>, at: nat)
    requires Laid(b, sizes, at) && at + Total(sizes) <= |b|
    ensures Walk(b, at, at + Total(sizes)) == sizes
  {
    if sizes != [] {
      WalkFrom(b, sizes[1..], at + HEADER_SIZE + sizes[0]);
      assert at + HEADER_SIZE + sizes[0] + Total(sizes[1..]) == at + Total(sizes);
    }
  }

  lemma {:induction false} TotalConcat(s: seq<nat>, t: seq<nat>)
    ensures Total(s + t) == Total(s) + Total(t)
  {
    if s == [] {
      assert s + t == t;
    } else {
      assert (s + t)[1..] == s[1..] + t;
      TotalConcat(s[1..], t);
    }
  }

  lemma StartNext(sizes: seq<nat>, i: nat)
    requires i < |sizes|
    ensures Start(sizes, i + 1) == Start(sizes, i) + HEADER_SIZE + sizes[i]
  {
    assert sizes[..i + 1] == sizes[..i] + [sizes[i]];
    TotalConcat(sizes[..i], [sizes[i]]);
  }

  lemma {:induction false} StartsIncrease(sizes: seq<nat>, i: nat, j: nat)
    requires i <= j <= |sizes|
    ensures Start(sizes, i) <= Start(sizes, j)
    decreases j - i
  {
    if i < j {
      StartNext(sizes, i);
      StartsIncrease(sizes, i + 1, j);
    }
  }

  /** Blocks, with their headers, are pairwise disjoint and below the total. */
  lemma BlocksDisjoint(sizes: seq<nat>, i: nat, j: nat)
    requires i < j < |sizes|
    ensures Start(sizes, i) + HEADER_SIZE + sizes[i] <= Start(sizes, j)
    ensures Start(sizes, j) + HEADER_SIZE + sizes[j] <= Total(sizes)
  {
    StartNext(sizes, i);
    StartsIncrease(sizes, i + 1, j);
    StartNext(sizes, j);
    StartsIncrease(sizes, j + 1, |sizes|);
    assert sizes[..|sizes|] == sizes;
  }

  /** The two buffers have the same bytes wherever there is a header. */
  ghost predicate SameHeaders(b: seq<Byte>, b': seq<Byte>, sizes: seq<nat>) {
    && |b| == |b'|
    && forall i | 0 <= i < |sizes| ::
         Start(sizes, i) + HEADER_SIZE <= |b|
         && b[Start(sizes, i)..Start(sizes, i) + HEADER_SIZE] == b'[Start(sizes, i)..Start(sizes, i) + HEADER_SIZE]
  }

  lemma StartShift(sizes: seq<nat>, i: nat)
    requires 0 < i <= |sizes|
    ensures Start(sizes, i) == HEADER_SIZE + sizes[0] + Start(sizes[1..], i - 1)
  {
    assert sizes[..i][1..] == sizes[1..][..i - 1];
  }

  ghost predicate HeaderOk(b: seq<Byte>, sizes: seq<nat>, at: nat, i: nat)
    requires i < |sizes|
  {
    at + Start(sizes, i) + HEADER_SIZE <= |b| && HeaderAt(b, at + Start(sizes, i)) == sizes[i]
  }

  lemma {:induction false} LaidHeader(b: seq<Byte>, sizes: seq<nat>, at: nat, i: nat)
    requires Laid(b, sizes, at) && i < |sizes|
    ensures HeaderOk(b, sizes, at, i)
    decreases i
  {
    if i > 0 {
      StartShift(sizes, i);
      LaidHeader(b, sizes[1..], at + HEADER_SIZE + sizes[0], i - 1);
    }
  }

  lemma {:induction false} HeadersLaid(b: seq<Byte>, sizes: seq<nat>, at: nat)
    requires forall i: nat | i < |sizes| :: HeaderOk(b, sizes, at, i)
    ensures Laid(b, sizes, at)
    decreases |sizes|
  {
    if sizes != [] {
      var rest, next := sizes[1..], at + HEADER_SIZE + sizes[0];
      assert HeaderOk(b, sizes, at, 0);
      forall i: nat | i < |rest| ensures HeaderOk(b, rest, next, i) {
        assert HeaderOk(b, sizes, at, i + 1);
        StartShift(sizes, i + 1);
      }
      HeadersLaid(b, rest, next);
    }
  }

  /**
   Whatever clients write into their own blocks, walking the headers recovers
   the requested sizes in order.
   */
  lemma WalkSurvivesWrites(b: seq<Byte>, b': seq<Byte>, sizes: seq<nat>)
    requires Laid(b, sizes, 0) && Total(sizes) <= |b| && SameHeaders(b, b', sizes)
    ensures Laid(b', sizes, 0) && Walk(b', 0, Total(sizes)) == sizes
  {
    hide Laid, Total, Start, Walk, LeValue;
    forall i: nat | i < |sizes| ensures HeaderOk(b', sizes, 0, i) {
      LaidHeader(b, sizes, 0, i);
    }
    HeadersLaid(b', sizes, 0);
    WalkFrom(b', sizes, 0);
  }

  /** A byte of a block's payload belongs to no header. */
  lemma PayloadIsNoHeader(b: seq<Byte>, sizes: seq<nat>, i: nat, at: nat, v: Byte)
    requires Total(sizes) <= |b| && i < |sizes|
    requires Start(sizes, i) + HEADER_SIZE <= at < Start(sizes, i) + HEADER_SIZE + sizes[i]
    ensures at < |b| && SameHeaders(b, b[at := v], sizes)
  {
    forall j | 0 <= j < |sizes|
      ensures Start(sizes, j) + HEADER_SIZE <= Total(sizes) && !(Start(sizes, j) <= at < Start(sizes, j) + HEADER_SIZE)
    {
      StartNext(sizes, j);
      StartsIncrease(sizes, j + 1, |sizes|);
      assert sizes[..|sizes|] == sizes;
      if i < j {
        BlocksDisjoint(sizes, i, j);
      } else if j < i {
        BlocksDisjoint(sizes, j, i);
      }
    }
    StartNext(sizes, i);
    StartsIncrease(sizes, i + 1, |sizes|);
    assert sizes[..|sizes|] == sizes;
  }

  lemma SameSlice(b: seq<Byte>, b': seq<Byte>, n: nat, p: nat)
    requires n <= |b| && n <= |b'| && b[..n] == b'[..n] && p + HEADER_SIZE <= n
    ensures b[p..p + HEADER_SIZE] == b'[p..p + HEADER_SIZE]
  {
    assert b[p..p + HEADER_SIZE] == b[..n][p..p + HEADER_SIZE];
    assert b'[p..p + HEADER_SIZE] == b'[..n][p..p + HEADER_SIZE];
  }

  lemma BlockInside(sizes: seq<nat>, i: nat)
    requires i < |sizes|
    ensures Start(sizes, i) + HEADER_SIZE + sizes[i] <= Total(sizes)
  {
    StartNext(sizes, i);
    StartsIncrease(sizes, i + 1, |sizes|);
    assert sizes[..|sizes|] == sizes;
  }

  /** What follows the last header may change. */
  lemma LastPayload(b: seq<Byte>, b': seq<Byte>, sizes: seq<nat>, at: nat)
    requires sizes != [] && Laid(b, sizes, 0) && Total(sizes) <= |b| == |b'|
    requires at == Start(sizes, |sizes| - 1) + HEADER_SIZE <= |b| && b[..at] == b'[..at]
    ensures Laid(b', sizes, 0)
  {
    hide Laid, Total;
    forall i | 0 <= i < |sizes|
      ensures Start(sizes, i) + HEADER_SIZE <= |b|
      ensures b[Start(sizes, i)..Start(sizes, i) + HEADER_SIZE] == b'[Start(sizes, i)..Start(sizes, i) + HEADER_SIZE]
    {
      StartsIncrease(sizes, i, |sizes| - 1);
      SameSlice(b, b', at, Start(sizes, i));
    }
    WalkSurvivesWrites(b, b', sizes);
  }

  /** One more header behind the others. */
  lemma {:induction false} GrowLayout(b: seq<Byte>, b': seq<Byte>, sizes: seq<nat>, needed: nat, at: nat)
    requires Laid(b, sizes, at) && at + Total(sizes) + HEADER_SIZE <= |b| == |b'|
    requires b[..at + Total(sizes)] == b'[..at + Total(sizes)] && HeaderAt(b', at + Total(sizes)) == needed
    ensures Laid(b', sizes + [needed], at)
  {
    if sizes == [] {
      assert sizes + [needed] == [needed];
    } else {
      assert (sizes + [needed])[1..] == sizes[1..] + [needed];
      SameSlice(b, b', at + Total(sizes), at);
      GrowLayout(b, b', sizes[1..], needed, at + HEADER_SIZE + sizes[0]);
    }
  }

  lemma ProductFits(c: nat, size: nat)
    requires c > 0 && size <= (TWO_TO_THE_64 - 1) / c
    ensures c * size < TWO_TO_THE_64
  {
    var q := (TWO_TO_THE_64 - 1) / c;
    assert c * q <= TWO_TO_THE_64 - 1;
    MulLe(size, q, c);
  }

  // ---- allocation ----

  /**
   What arena_alloc makes of a request: the offset of the payload, exit(1), or,
   where the size_t sums wrap around to a value that passes the check, a block
   that overlaps others.
   */
  datatype Allocation = Allocated(at: nat) | ProcessExit | Wrapped | NullPointer

  function AllocResult(offset: nat, size: nat, needed: nat): Allocation {
    var total := (needed + HEADER_SIZE) % TWO_TO_THE_64;
    var required := (offset + total) % TWO_TO_THE_64;
    if required > size then ProcessExit
    else if offset + needed + HEADER_SIZE >= TWO_TO_THE_64 then Wrapped
    else Allocated(offset + HEADER_SIZE)
  }

  /** The check of arena_alloc is exact: it lets a request through without wrapping iff the block fits. */
  lemma AllocatesWhatFits(offset: nat, size: nat, needed: nat)
    requires offset <= size < MAX_OBJECT && needed < TWO_TO_THE_64
    ensures AllocResult(offset, size, needed) != NullPointer
    ensures AllocResult(offset, size, needed).Allocated? <==> offset + HEADER_SIZE + needed <= size
    ensures AllocResult(offset, size, needed) == Wrapped <==>
            offset + HEADER_SIZE + needed >= TWO_TO_THE_64 && offset + HEADER_SIZE + needed - TWO_TO_THE_64 <= size
  {
    var sum := offset + HEADER_SIZE + needed;
    WrappedSum(offset, needed + HEADER_SIZE);
    if sum < TWO_TO_THE_64 {
    } else if sum < 2 * TWO_TO_THE_64 {
      ModUnique(sum, TWO_TO_THE_64, 1, sum - TWO_TO_THE_64);
    }
  }

  lemma WrappedSum(a: nat, b: nat)
    ensures (a + b % TWO_TO_THE_64) % TWO_TO_THE_64 == (a + b) % TWO_TO_THE_64
  {
    var q, r := b / TWO_TO_THE_64, b % TWO_TO_THE_64;
    var q', r' := (a + r) / TWO_TO_THE_64, (a + r) % TWO_TO_THE_64;
    ModUnique(a + b, TWO_TO_THE_64, q + q', r');
  }

  /** What the variables of arena_alloc say about its outcome. */
  lemma BeforeAlloc(offset: nat, size: nat, needed: nat)
    requires offset <= size < MAX_OBJECT && needed < TWO_TO_THE_64
    ensures var sum, total := offset + needed + HEADER_SIZE, (needed + HEADER_SIZE) % TWO_TO_THE_64;
            var required := (offset + total) % TWO_TO_THE_64;
            if required > size then AllocResult(offset, size, needed) == ProcessExit
            else if sum >= TWO_TO_THE_64 then
              AllocResult(offset, size, needed) == Wrapped && required == sum - TWO_TO_THE_64
            else
              AllocResult(offset, size, needed) == Allocated(offset + HEADER_SIZE)
              && sum <= size && offset + total == sum
  {
    var sum := offset + needed + HEADER_SIZE;
    WrappedSum(offset, needed + HEADER_SIZE);
    if sum >= TWO_TO_THE_64 {
      ModUnique(sum, TWO_TO_THE_64, 1, sum - TWO_TO_THE_64);
    } else {
      ModUnique(sum, TWO_TO_THE_64, 0, sum);
      ModUnique(needed + HEADER_SIZE, TWO_TO_THE_64, 0, needed + HEADER_SIZE);
    }
  }

  /** A request for which the check fails to notice the wrap-around. */
  lemma WrapExample()
    ensures AllocResult(100, 1000, TWO_TO_THE_64 - 50) == Wrapped
  {
  }

  /** What a block takes up, with its header. */
  function Block(needed: nat): nat {
    HEADER_SIZE + needed
  }

  /** What the copy of a string takes up, with its terminator. */
  function CopySize(s: string): nat {
    Block(|s| + 1)
  }

  /** What becomes of an array: a block, exit(1), a null pointer, or a block the wrapped sum grants. */
  datatype Reservation = Reserved | Exits | Null | Wraps

  lemma SmallProduct(count: nat, size: nat)
    requires 0 < count < 0x8000_0000 && 0 < size < 0x8000_0000
    ensures count * size <= 0x4000_0000_0000_0000 && size <= (TWO_TO_THE_64 - 1) / count
    ensures count % TWO_TO_THE_64 == count
  {
    MulLe(count, 0x8000_0000, size);
    assert 0x8000_0000 * size <= 0x4000_0000_0000_0000;
    var q := (TWO_TO_THE_64 - 1) / count;
    assert TWO_TO_THE_64 - 1 == q * count + (TWO_TO_THE_64 - 1) % count;
    if size > q {
      MulLe(q + 1, size, count);
    }
  }

  lemma NegativeCount(count: int, size: nat)
    requires -0x8000_0000 <= count < 0 && size > 1
    ensures size > (TWO_TO_THE_64 - 1) / (count % TWO_TO_THE_64)
  {
    ModUnique(count, TWO_TO_THE_64, -1, TWO_TO_THE_64 + count);
    ModUnique(TWO_TO_THE_64 - 1, TWO_TO_THE_64 + count, 1, -count - 1);
  }

  class MemoryArena {
    const buffer: array<Byte>
    var offset: nat
    /** The sizes requested so far. */
    ghost var sizes: seq<nat>

    /** arena_init */
    constructor (buffer: array<Byte>)
      requires buffer.Length < MAX_OBJECT
      ensures Valid() && this.buffer == buffer && sizes == []
    {
      this.buffer, offset, sizes := buffer, 0, [];
    }

    ghost predicate Valid()
      reads this, buffer
    {
      && Laid(buffer[..], sizes, 0)
      && offset == Total(sizes) <= buffer.Length < MAX_OBJECT
    }

    /** h->size = needed_size */
    method PutHeader(needed: nat)
      requires offset + HEADER_SIZE <= buffer.Length
      modifies buffer
      ensures buffer[..][offset..offset + HEADER_SIZE] == LeBytes(needed, HEADER_SIZE)
      ensures forall i | 0 <= i < buffer.Length && !(offset <= i < offset + HEADER_SIZE) :: buffer[i] == old(buffer[i])
    {
      hide LeBytes;
      var header := LeBytes(needed, HEADER_SIZE);
      forall i | 0 <= i < HEADER_SIZE {
        buffer[offset + i] := header[i];
      }
    }

    /** The header of the next block, right behind the blocks there are. */
    method WriteHeader(needed: nat)
      requires Valid() && needed < TWO_TO_THE_64 && offset + HEADER_SIZE + needed <= buffer.Length
      modifies buffer
      ensures Laid(buffer[..], sizes + [needed], 0)
      ensures forall i | 0 <= i < buffer.Length && !(offset <= i < offset + HEADER_SIZE) :: buffer[i] == old(buffer[i])
    {
      hide Laid, Total, LeBytes, LeValue;
      ghost var was := buffer[..];
      PutHeader(needed);
      assert was[..offset] == buffer[..][..offset];
      SizesFit(needed);
      GrowLayout(was, buffer[..], sizes, needed, 0);
    }

    /**
     arena_alloc. Where the sums wrap around, the offset moves back, so that the
     next block overlaps those there are.
     */
    method Alloc(needed: nat) returns (r: Allocation)
      requires Valid() && needed < TWO_TO_THE_64
      modifies buffer, `offset, `sizes
      ensures r == AllocResult(old(offset), buffer.Length, needed)
      ensures match r
              case Allocated(at) =>
                && Valid() && sizes == old(sizes) + [needed]
                && at == Start(sizes, |old(sizes)|) + HEADER_SIZE == old(offset) + HEADER_SIZE
                && offset == at + needed
              case Wrapped => offset == old(offset) + HEADER_SIZE + needed - TWO_TO_THE_64 < old(offset) + HEADER_SIZE
              case _ => Valid() && unchanged(this) && unchanged(buffer)
      ensures forall i | 0 <= i < buffer.Length && !(old(offset) <= i < old(offset) + HEADER_SIZE) ::
                buffer[i] == old(buffer[i])
    {
      hide Laid, Total, LeBytes, AllocResult;
      BeforeAlloc(offset, buffer.Length, needed);
      var total := (needed + HEADER_SIZE) % TWO_TO_THE_64;
      var required := (offset + total) % TWO_TO_THE_64;
      if required > buffer.Length {
        return ProcessExit;
      }
      if offset + needed + HEADER_SIZE >= TWO_TO_THE_64 {
        if offset + HEADER_SIZE <= buffer.Length {
          PutHeader(needed);
        }
        offset := required;
        return Wrapped;
      }
      WriteHeader(needed);
      StartNext(sizes + [needed], |sizes|);
      assert (sizes + [needed])[..|sizes|] == sizes;
      assert (sizes + [needed])[..|sizes| + 1] == sizes + [needed];
      r := Allocated(offset + HEADER_SIZE);
      offset := offset + total;
      sizes := sizes + [needed];
    }

    /** arena_calloc */
    method Calloc(count: int, size: nat) returns (r: Allocation)
      requires Valid() && -0x8000_0000 <= count < 0x8000_0000 && size < TWO_TO_THE_64
      modifies buffer, `offset, `sizes
      ensures r != Wrapped ==> Valid()
      ensures r == if count == 0 || size == 0 || size > (TWO_TO_THE_64 - 1) / (count % TWO_TO_THE_64) then NullPointer
                   else AllocResult(old(offset), buffer.Length, count % TWO_TO_THE_64 * size)
      ensures if r.Allocated? then
                && sizes == old(sizes) + [count % TWO_TO_THE_64 * size]
                && offset == old(offset) + HEADER_SIZE + count % TWO_TO_THE_64 * size
                && (forall i | r.at <= i < offset :: buffer[i] == 0)
                && (forall i | 0 <= i < old(offset) :: buffer[i] == old(buffer[i]))
              else r != Wrapped ==> unchanged(this) && unchanged(buffer)
    {
      if count == 0 || size == 0 {
        return NullPointer;
      }
      var c := count % TWO_TO_THE_64;
      if size > (TWO_TO_THE_64 - 1) / c {
        return NullPointer;
      }
      ProductFits(c, size);
      r := Alloc(c * size);
      if r.Allocated? {
        Clear(r.at);
      }
    }

    /** memset of the last payload to zero */
    method Clear(at: nat)
      requires Valid() && sizes != [] && at == Start(sizes, |sizes| - 1) + HEADER_SIZE
      modifies buffer
      ensures Valid() && (forall i | at <= i < offset :: buffer[i] == 0)
      ensures at <= buffer.Length && forall i | 0 <= i < at :: buffer[i] == old(buffer[i])
    {
      ghost var was := buffer[..];
      BlockInside(sizes, |sizes| - 1);
      forall i | at <= i < offset {
        buffer[i] := 0;
      }
      LastPayload(was, buffer[..], sizes, at);
    }

    /** The memcpy of arena_strdup, and the terminator behind it */
    method CopyString(at: nat, s: seq<Byte>)
      requires Valid() && sizes != [] && at == Start(sizes, |sizes| - 1) + HEADER_SIZE && sizes[|sizes| - 1] == |s| + 1
      modifies buffer
      ensures Valid() && at + |s| + 1 == offset && buffer[at..offset] == s + [0]
      ensures forall i | 0 <= i < at :: buffer[i] == old(buffer[i])
    {
      hide Laid, Total;
      ghost var was := buffer[..];
      StartNext(sizes, |sizes| - 1);
      assert sizes[..|sizes|] == sizes;
      forall i | 0 <= i < |s| {
        buffer[at + i] := s[i];
      }
      buffer[at + |s|] := 0;
      assert was[..at] == buffer[..][..at];
      LastPayload(was, buffer[..], sizes, at);
    }

    /** arena_strdup of the string whose characters are `s`, without the terminator */
    method Strdup(s: seq<Byte>) returns (r: Allocation)
      requires Valid() && |s| + 1 < TWO_TO_THE_64
      modifies buffer, `offset, `sizes
      ensures (r != Wrapped ==> Valid()) && r == AllocResult(old(offset), buffer.Length, |s| + 1)
      ensures if r.Allocated? then
                && sizes == old(sizes) + [|s| + 1]
                && r.at + |s| + 1 == offset <= buffer.Length && buffer[r.at..offset] == s + [0]
                && (forall i | 0 <= i < old(offset) :: buffer[i] == old(buffer[i]))
              else r != Wrapped ==> unchanged(this) && unchanged(buffer)
    {
      hide Laid, Total, AllocResult;
      r := Alloc(|s| + 1);
      if r.Allocated? {
        CopyString(r.at, s);
      }
    }

    /** A client writes into the block it got `i`-th. */
    method ClientWrite(i: nat, at: nat, v: Byte)
      requires Valid() && i < |sizes|
      requires Start(sizes, i) + HEADER_SIZE <= at < Start(sizes, i) + HEADER_SIZE + sizes[i]
      modifies buffer
      ensures Valid() && Walk(buffer[..], 0, offset) == sizes
    {
      PayloadIsNoHeader(buffer[..], sizes, i, at, v);
      WalkSurvivesWrites(buffer[..], buffer[..][at := v], sizes);
      buffer[at] := v;
    }

    /** The bytes behind the last block. */
    ghost function Free(): (n: nat)
      requires Valid()
      reads this, buffer
    {
      buffer.Length - offset
    }

    /**
     arena_alloc for an object that its owner keeps as a value: false where the process
     exits. No object is so large that the sums would wrap around.
     */
    method Reserve(needed: nat) returns (ok: bool)
      requires Valid()
      modifies buffer, `offset, `sizes
      ensures Valid() && ok == (Block(needed) <= old(Free()))
      ensures Free() == if ok then old(Free()) - Block(needed) else old(Free())
    {
      hide Laid, Total, AllocResult;
      if offset + HEADER_SIZE + needed >= TWO_TO_THE_64 {
        return false;
      }
      AllocatesWhatFits(offset, buffer.Length, needed);
      var r := Alloc(needed);
      ok := r.Allocated?;
    }

    /** arena_calloc of an array of `count` objects; of those below two gigabytes no sum wraps around. */
    method ReserveArray(count: int, size: nat) returns (r: Reservation)
      requires Valid() && -0x8000_0000 <= count < 0x8000_0000 && size < TWO_TO_THE_64
      modifies buffer, `offset, `sizes
      ensures r == if count == 0 || size == 0 || size > (TWO_TO_THE_64 - 1) / (count % TWO_TO_THE_64) then Null
                   else ArrayResult(AllocResult(old(offset), buffer.Length, count % TWO_TO_THE_64 * size))
      ensures r != Wraps ==> Valid()
      ensures r != Wraps ==>
                Free() == if r == Reserved then old(Free()) - Block(count % TWO_TO_THE_64 * size) else old(Free())
      ensures 1 < size < 0x8000_0000 ==>
                r == if count <= 0 then Null else if Block(count * size) <= old(Free()) then Reserved else Exits
      ensures r == Reserved && 1 < size < 0x8000_0000 ==> Free() == old(Free()) - Block(count * size)
    {
      hide Laid, Total, AllocResult;
      if 1 < size < 0x8000_0000 {
        ArrayFits(offset, buffer.Length, count, size);
      }
      var a := Calloc(count, size);
      r := ArrayResult(a);
    }
  }

  function ArrayResult(a: Allocation): Reservation {
    match a
    case Allocated(_) => Reserved
    case ProcessExit => Exits
    case Wrapped => Wraps
    case NullPointer => Null
  }

  lemma ArrayFits(offset: nat, length: nat, count: int, size: nat)
    requires offset <= length < MAX_OBJECT && -0x8000_0000 <= count < 0x8000_0000 && 1 < size < 0x8000_0000
    ensures count > 0 ==> count % TWO_TO_THE_64 == count && 0 < size <= (TWO_TO_THE_64 - 1) / count
                          && ArrayResult(AllocResult(offset, length, count * size))
                             == if Block(count * size) <= length - offset then Reserved else Exits
    ensures count < 0 ==> size > (TWO_TO_THE_64 - 1) / (count % TWO_TO_THE_64)
  {
    hide AllocResult;
    if count > 0 {
      SmallProduct(count, size);
      AllocatesWhatFits(offset, length, count * size);
    } else if count < 0 {
      NegativeCount(count, size);
    }
  }
}
