/** DMA buffer sets (drm_bufs.c): how addbufs lays the buffers out, and how it is kept from changing a
    layout that is in use. */
module DmaBuffers {
  import opened Arithmetic
  import opened Lists

  const PAGE_SHIFT := 12
  const PAGE_SIZE := 4096
  const MIN_ORDER := 5
  const MAX_ORDER := 22
  const MAX_COUNT := 4096
  const INT_LIMIT := 0x8000_0000

  // ---------------------------------------------------------------- sizes

  /** drm_order: the exponent of the least power of two that is not smaller; the code's test
      `size & (size - 1)` asks whether size is a power of two. */
  method Order(size: nat) returns (order: nat)
    ensures IsOrder(size, order)
  {
    hide Pow2, Halved, Half;
    order := 0;
    var tmp := Half(size);
    HalvedStarts(size);
    while tmp != 0
      invariant Halved(size, order, tmp)
      decreases tmp
    {
      HalfLess(tmp);
      HalvedStep(size, order, tmp);
      order := order + 1;
      tmp := Half(tmp);
    }
    HalvedEnds(size, order);
    if size != 0 && size != Pow2(order) {
      order := order + 1;
    }
    forall k: nat | size <= Pow2(k)
      ensures order <= k
    {
      if k < order {
        Pow2Grows(k, order - 1);
        Pow2Doubles(order - 1);
      }
    }
  }

  function Half(x: nat): nat {
    x / 2
  }

  /** `order` halvings of size are behind us and tmp is the next one. */
  predicate Halved(size: nat, order: nat, tmp: nat) {
    && (if size >= 1 then Pow2(order) <= size else order == 0)
    && Pow2(order + 1) * tmp <= size < Pow2(order + 1) * (tmp + 1)
  }

  lemma HalfLess(x: nat)
    requires x > 0
    ensures Half(x) < x
  {
  }

  lemma HalvedStarts(size: nat)
    ensures Halved(size, 0, Half(size))
  {
  }

  lemma HalvedStep(size: nat, order: nat, tmp: nat)
    requires Halved(size, order, tmp) && tmp >= 1
    ensures Halved(size, order + 1, Half(tmp))
  {
    HalfStep(Pow2(order + 1), tmp, size);
  }

  lemma HalvedEnds(size: nat, order: nat)
    requires Halved(size, order, 0)
    ensures size < Pow2(order + 1) && if size >= 1 then Pow2(order) <= size else order == 0
  {
  }

  lemma HalfStep(p: nat, tmp: nat, size: nat)
    requires tmp >= 1 && p * tmp <= size < p * (tmp + 1)
    ensures p <= size && (2 * p) * (tmp / 2) <= size < (2 * p) * (tmp / 2 + 1)
  {
    var h := tmp / 2;
    TwiceAtMost(p, h, tmp);
    TwiceAtLeast(p, h + 1, tmp + 1);
    MulMonotone(p, 1, tmp);
  }

  lemma TwiceAtMost(p: nat, h: nat, t: nat)
    requires 2 * h <= t
    ensures (2 * p) * h <= p * t
  {
    assert (2 * p) * h == p * (2 * h);
    MulMonotone(p, 2 * h, t);
  }

  lemma TwiceAtLeast(p: nat, h: nat, t: nat)
    requires t <= 2 * h
    ensures p * t <= (2 * p) * h
  {
    assert (2 * p) * h == p * (2 * h);
    MulMonotone(p, t, 2 * h);
  }

  lemma MulMonotone(c: nat, a: nat, b: nat)
    requires a <= b
    ensures c * a <= c * b
  {
  }

  function PageOrder(order: nat): nat {
    if order > PAGE_SHIFT then order - PAGE_SHIFT else 0
  }

  /** The bytes set aside for each buffer (or each segment). */
  function Unit(order: nat): nat {
    PAGE_SIZE * Pow2(PageOrder(order))
  }

  function PageAlign(size: nat): nat {
    (size + PAGE_SIZE - 1) / PAGE_SIZE * PAGE_SIZE
  }

  function Alignment(order: nat, pageAlign: bool): nat {
    if pageAlign then PageAlign(Pow2(order)) else Pow2(order)
  }

  /** How many buffers fit a segment. */
  function PerSegment(order: nat, pageAlign: bool): nat {
    if pageAlign || order >= PAGE_SHIFT then 1 else Pow2(PAGE_SHIFT - order)
  }

  lemma SegmentIsFull(order: nat, pageAlign: bool)
    ensures PerSegment(order, pageAlign) * Alignment(order, pageAlign) == Unit(order)
    ensures PerSegment(order, pageAlign) >= 1
  {
    UnitCovers(order, pageAlign);
    UnitIs(order);
    if order < PAGE_SHIFT {
      Pow2Of12();
      Pow2Adds(PAGE_SHIFT - order, order);
    }
  }

  lemma Pow2Of12()
    ensures Pow2(12) == 4096
  {
    assert Pow2(4) == 16;
    Pow2Adds(4, 4);
    Pow2Adds(8, 4);
  }

  /** A buffer fits its unit, aligned or not, and fills it if it is larger than a page. */
  lemma UnitCovers(order: nat, pageAlign: bool)
    ensures 0 < Pow2(order) <= Alignment(order, pageAlign) <= Unit(order)
    ensures order >= PAGE_SHIFT ==> Alignment(order, pageAlign) == Unit(order) == Pow2(order)
    ensures Unit(order) % PAGE_SIZE == 0
    ensures pageAlign && order < PAGE_SHIFT ==> Alignment(order, pageAlign) == PAGE_SIZE == Unit(order)
  {
    hide Pow2;
    Pow2Of12();
    if order >= 12 {
      Pow2Adds(12, order - 12);
    } else {
      Pow2Grows(order, 12);
      Pow2Zero();
    }
  }

  lemma Pow2Zero()
    ensures Pow2(0) == 1
  {
  }

  // ---------------------------------------------------------------- layout

  /** A buffer: its place in the device's list, and its bytes [offset, offset + total) in the mapping. */
  datatype Buf = Buf(idx: int, total: int, order: nat, offset: int)

  /** What is known of one order. */
  datatype Entry = Entry(bufCount: nat, segCount: nat, bufSize: nat, pageOrder: nat)

  datatype Result = Done | Invalid | Busy | NoMemory

  /** The checks decide, and after them only memory may be missing. */
  predicate Answers(r: Result, admission: Result, memory: bool) {
    if admission != Done then r == admission else r == Done || (!memory && r == NoMemory)
  }

  /** Buffers are numbered in list order, occupy disjoint ranges in that order, and end below `end`. */
  ghost predicate Layout(bufs: seq<Buf>, end: int) {
    && (forall i :: 0 <= i < |bufs| ==> bufs[i].idx == i && bufs[i].total > 0 && 0 <= bufs[i].offset
                                        && bufs[i].offset + bufs[i].total <= end)
    && (forall i, j :: 0 <= i < j < |bufs| ==> bufs[i].offset + bufs[i].total <= bufs[j].offset)
  }

  /** An int as it is after 32-bit arithmetic */
  function Wrapped(x: int): int {
    (x + INT_LIMIT) % (2 * INT_LIMIT) - INT_LIMIT
  }

  lemma WrappedFits(x: nat)
    ensures Wrapped(x) == x <==> x < INT_LIMIT
    ensures Wrapped(x) <= x
  {
  }

  /** New buffers, numbered on from `first`, in the bytes [from, to). */
  ghost predicate Added(bufs: seq<Buf>, first: int, from: int, to: int) {
    && from <= to
    && (forall i :: 0 <= i < |bufs| ==> bufs[i].idx == first + i && bufs[i].total > 0 && from <= bufs[i].offset
                                        && bufs[i].offset + bufs[i].total <= to)
    && (forall i, j :: 0 <= i < j < |bufs| ==> bufs[i].offset + bufs[i].total <= bufs[j].offset)
  }

  /** All buffers of one call are alike. */
  ghost predicate Uniform(bufs: seq<Buf>, total: int, order: nat) {
    forall i :: 0 <= i < |bufs| ==> bufs[i].total == total && bufs[i].order == order
  }

  /** They lie one after the other from `from` on. */
  ghost predicate Spaced(bufs: seq<Buf>, from: int, distance: int) {
    forall i :: 0 <= i < |bufs| ==> bufs[i].offset == from + i * distance
  }

  lemma AddOne(bufs: seq<Buf>, first: int, from: int, to: int, b: Buf)
    requires Added(bufs, first, from, to) && b.idx == first + |bufs| && b.total > 0 && to <= b.offset
    ensures Added(bufs + [b], first, from, b.offset + b.total)
  {
  }

  lemma AddNone(first: int, from: int)
    ensures Added([], first, from, from + 0)
  {
  }

  lemma NoneUniform(total: int, order: nat)
    ensures Uniform([], total, order)
  {
  }

  /** Room is left for one more exactly while there are fewer than a segment takes. */
  lemma FitsSegment(n: nat, per: nat, alignment: nat)
    requires alignment > 0
    ensures n < per <==> n * alignment + alignment <= per * alignment
    ensures n * alignment <= per * alignment <==> n <= per
    ensures n * alignment == per * alignment ==> n == per
  {
    if n < per {
      MulMonotone(alignment, n + 1, per);
    } else {
      MulMonotone(alignment, per, n);
    }
    if n > per {
      MulMonotone(alignment, per + 1, n);
    }
  }

  lemma OneMore(n: nat, unit: nat)
    ensures (n + 1) * unit == n * unit + unit
  {
  }

  lemma AddedWithin(bufs: seq<Buf>, first: int, from: int, to: int, to': int)
    requires Added(bufs, first, from, to) && to <= to'
    ensures Added(bufs, first, from, to')
  {
  }

  lemma Appended(before: seq<Buf>, added: seq<Buf>, end: int, end': int)
    requires Layout(before, end) && Added(added, |before|, end, end') && end >= 0
    ensures Layout(before + added, end')
  {
    var all := before + added;
    forall i | 0 <= i < |all|
      ensures all[i] == if i < |before| then before[i] else added[i - |before|]
    {
    }
  }

  /** If the last new buffer ends beyond `end`, the layout is broken. */
  lemma NotAppended(before: seq<Buf>, added: seq<Buf>, end: int)
    requires added != [] && added[|added| - 1].offset + added[|added| - 1].total > end
    ensures !Layout(before + added, end)
  {
    var all := before + added;
    assert all[|all| - 1] == added[|added| - 1];
  }

  lemma SmallerProduct(a: nat, b: nat, c: nat)
    requires a <= b
    ensures a * c <= b * c
  {
  }

  /** The least order that holds `size`. */
  ghost predicate IsOrder(size: nat, order: nat) {
    size <= Pow2(order) && forall k: nat :: size <= Pow2(k) ==> order <= k
  }

  /** Some buffer starts below `from`. */
  ghost predicate Strays(bufs: seq<Buf>, from: int) {
    exists i :: 0 <= i < |bufs| && bufs[i].offset < from
  }

  lemma StraysStay(bufs: seq<Buf>, b: Buf, from: int)
    ensures Strays(bufs, from) || b.offset < from ==> Strays(bufs + [b], from)
  {
    if b.offset < from {
      assert (bufs + [b])[|bufs|] == b;
    } else if Strays(bufs, from) {
      var i :| 0 <= i < |bufs| && bufs[i].offset < from;
      assert (bufs + [b])[i] == bufs[i];
    }
  }

  lemma StraysAreNotAdded(bufs: seq<Buf>, first: int, from: int, to: int)
    requires Strays(bufs, from)
    ensures !Added(bufs, first, from, to)
  {
  }

  /** Just beyond the largest int the 32-bit value is negative. */
  lemma WrappedBelow(x: nat)
    requires INT_LIMIT <= x < 2 * INT_LIMIT
    ensures Wrapped(x) < 0
  {
  }

  // ---------------------------------------------------------------- adding or using, never both

  /** The two counters, the threads between their increment and their decrement of buf_alloc, and the
      buffers. */
  datatype Interlock = Interlock(bufUse: nat, bufAlloc: int, adders: nat, buflist: seq<Buf>)

  /** AddBegin and Use are the sections under count_lock of addbufs, and of infobufs and mapbufs; Commit
      happens inside addbufs; Reset is the set-up at first open, when no call is under way. */
  datatype Action = AddBegin | Commit(bufs: seq<Buf>) | AddEnd | Use | Reset

  predicate Can(s: Interlock, a: Action) {
    match a
    case Commit(_) => s.adders > 0
    case AddEnd => s.adders > 0
    case Reset => s.adders == 0
    case _ => true
  }

  function Step(s: Interlock, a: Action): Interlock
    requires Can(s, a)
  {
    match a
    case AddBegin => if s.bufUse != 0 then s else s.(bufAlloc := s.bufAlloc + 1, adders := s.adders + 1)
    case Commit(bufs) => s.(buflist := s.buflist + bufs)
    case AddEnd => s.(bufAlloc := s.bufAlloc - 1, adders := s.adders - 1)
    case Use => if s.bufAlloc != 0 then s else s.(bufUse := s.bufUse + 1)
    case Reset => s.(bufUse := 0, bufAlloc := 0)
  }

  predicate NeverBoth(s: Interlock) {
    s.bufAlloc == s.adders && (s.bufUse == 0 || s.bufAlloc == 0)
  }

  ghost predicate Legal(s: Interlock, run: seq<Action>)
    decreases |run|
  {
    run == [] || (Can(s, run[0]) && Legal(Step(s, run[0]), run[1..]))
  }

  function Run(s: Interlock, run: seq<Action>): Interlock
    requires Legal(s, run)
    decreases |run|
  {
    if run == [] then s else Run(Step(s, run[0]), run[1..])
  }

  /** Once somebody has asked for the layout the buffers stay as they are until the device is set up
      again: over every interleaving of the calls. */
  lemma {:induction false} LayoutIsFrozen(s: Interlock, run: seq<Action>)
    requires NeverBoth(s) && Legal(s, run)
    ensures NeverBoth(Run(s, run))
    ensures s.bufUse > 0 && Reset !in run ==> Run(s, run).buflist == s.buflist && Run(s, run).bufUse > 0
    decreases |run|
  {
    if run != [] {
      LayoutIsFrozen(Step(s, run[0]), run[1..]);
    }
  }

  /** One successful addbufs call. */
  function AddRun(bufs: seq<Buf>): seq<Action> {
    [AddBegin, Commit(bufs), AddEnd]
  }

  lemma AddRunIs(s: Interlock, bufs: seq<Buf>)
    requires s.bufUse == 0
    ensures Legal(s, AddRun(bufs)) && Run(s, AddRun(bufs)) == s.(buflist := s.buflist + bufs)
  {
    var run := AddRun(bufs);
    var s1 := Step(s, AddBegin);
    var s2 := Step(s1, Commit(bufs));
    assert run[1..][0] == Commit(bufs) && run[1..][1..][0] == AddEnd && run[1..][1..][1..] == [];
    assert Legal(s2, run[1..][1..]) && Run(s2, run[1..][1..]) == Step(s2, AddEnd);
    assert Legal(s1, run[1..]);
  }

  /** The entries of a segment of n pages that begins at `start`, */
  function Segment(start: int, n: nat): seq<int> {
    seq(n, i => start + PAGE_SIZE * i)
  }

  /** and of segs segments. */
  function PagesOf(vaddr: nat -> int, n: nat, segs: nat): seq<int> {
    if segs == 0 then [] else PagesOf(vaddr, n, segs - 1) + Segment(vaddr(segs - 1), n)
  }

  /** Page i of segment s has the entry with its address, and no other page has. */
  lemma {:induction false} PageAt(vaddr: nat -> int, n: nat, segs: nat, s: nat, i: nat)
    requires s < segs && i < n
    ensures |PagesOf(vaddr, n, segs)| == segs * n && s * n + i < segs * n
    ensures PagesOf(vaddr, n, segs)[s * n + i] == vaddr(s) + PAGE_SIZE * i
  {
    PagesLength(vaddr, n, segs);
    PagesLength(vaddr, n, segs - 1);
    OneMore(segs - 1, n);
    if s < segs - 1 {
      PageAt(vaddr, n, segs - 1, s, i);
    }
  }

  lemma {:induction false} PagesLength(vaddr: nat -> int, n: nat, segs: nat)
    ensures |PagesOf(vaddr, n, segs)| == segs * n
  {
    if segs > 0 {
      PagesLength(vaddr, n, segs - 1);
      OneMore(segs - 1, n);
    }
  }

  lemma NoSegment(vaddr: nat -> int, n: nat)
    ensures PagesOf(vaddr, n, 0) == []
  {
  }

  lemma NextSegment(vaddr: nat -> int, n: nat, segs: nat)
    ensures PagesOf(vaddr, n, segs + 1) == PagesOf(vaddr, n, segs) + Segment(vaddr(segs), n)
  {
  }

  /** One allocation; `memory` says that none fails. */
  method Allocate(memory: bool) returns (ok: bool)
    ensures memory ==> ok
  {
    ok := *;
    ok := ok || memory;
  }

  class BufferSet {
    var buflist: seq<Buf>
    var pagelist: seq<int>
    var segCount: int
    var pageCount: int
    var byteCount: int
    const entries: array<Entry>
    var bufUse: nat
    var bufAlloc: nat

    ghost predicate Shape() {
      entries.Length == MAX_ORDER + 1
    }

    /** The layout and the two counters of its size; the page list has no more entries than pages. */
    ghost predicate Valid()
      reads this
    {
      && Shape() && Layout(buflist, byteCount) && byteCount == pageCount * PAGE_SIZE && byteCount >= 0
      && |pagelist| <= pageCount
    }

    constructor ()
      ensures Valid() && buflist == [] && pagelist == [] && bufUse == 0 && bufAlloc == 0 && fresh(entries)
      ensures forall k :: 0 <= k < entries.Length ==> entries[k].bufCount == 0
    {
      buflist, pagelist, segCount, pageCount, byteCount, bufUse, bufAlloc := [], [], 0, 0, 0, 0, 0;
      entries := new Entry[MAX_ORDER + 1](_ => Entry(0, 0, 0, 0));
    }

    /** The filling loop of the linear kinds. */
    method FillLinear(count: nat, order: nat, alignment: nat, unit: nat, memory: bool)
      returns (bufs: seq<Buf>, bytes: nat, ok: bool)
      requires 0 < alignment <= unit && byteCount >= 0
      ensures memory ==> ok
      ensures ok ==> |bufs| == count && Added(bufs, |buflist|, byteCount, byteCount + bytes) && bytes == count * unit
      ensures Uniform(bufs, alignment, order)
      ensures Spaced(bufs, byteCount, alignment)
      ensures ok && alignment == unit && count > 0 ==>
                bufs[count - 1].offset + bufs[count - 1].total == byteCount + bytes
    {
      hide Added;
      bufs, bytes := [], 0;
      var offset := 0;
      AddNone(|buflist|, byteCount);
      while |bufs| < count
        invariant |bufs| <= count && offset <= bytes && bytes == |bufs| * unit && Uniform(bufs, alignment, order)
        invariant alignment == unit ==> offset == bytes
        invariant Added(bufs, |buflist|, byteCount, byteCount + offset)
        invariant Spaced(bufs, byteCount, alignment) && offset == |bufs| * alignment
        invariant |bufs| > 0 ==> bufs[|bufs| - 1].offset + bufs[|bufs| - 1].total == byteCount + offset
      {
        ok := Allocate(memory);
        if !ok {
          return;
        }
        var b := Buf(|buflist| + |bufs|, alignment, order, byteCount + offset);
        AddOne(bufs, |buflist|, byteCount, byteCount + offset, b);
        OneMore(|bufs|, unit);
        OneMore(|bufs|, alignment);
        bufs := bufs + [b];
        offset := offset + alignment;
        bytes := bytes + unit;
      }
      ok := true;
      AddedWithin(bufs, |buflist|, byteCount, byteCount + offset, byteCount + bytes);
    }

    /** The filling loops of the PCI kind: segments of one unit each, with as many buffers in each as
        fit.  The buffers are placed right exactly when no segment starts beyond the largest int. */
    method FillPci(count: nat, order: nat, alignment: nat, unit: nat, memory: bool, vaddr: nat -> int, ghost per: nat)
      returns (bufs: seq<Buf>, pages: seq<int>, segs: nat, ok: bool)
      requires 0 < Pow2(order) <= alignment <= unit == Unit(order) <= INT_LIMIT && byteCount >= 0
      requires (alignment == Pow2(order) || alignment == unit) && per * alignment == unit && per >= 1
      ensures memory ==> ok
      ensures ok ==> |bufs| == count && segs <= count && |pages| == segs * Pow2(PageOrder(order))
      ensures ok ==> pages == PagesOf(vaddr, Pow2(PageOrder(order)), segs)
      ensures ok ==> count <= segs * per && (segs == 0 || segs * per < count + per)
      ensures ok && Pow2(order) == unit ==> segs == count
      ensures Uniform(bufs, alignment, order)
      ensures ok ==> (Added(bufs, |buflist|, byteCount, byteCount + segs * unit)
                      <==> segs == 0 || (segs - 1) * unit < INT_LIMIT)
    {
      hide Added, Strays, Pow2, Unit, Uniform, PagesOf, Segment;
      bufs, pages, segs := [], [], 0;
      var bytes := 0;
      AddNone(|buflist|, byteCount);
      NoneUniform(alignment, order);
      NoSegment(vaddr, Pow2(PageOrder(order)));
      while |bufs| < count
        invariant |bufs| <= count && segs <= |bufs| && bytes == segs * unit && Uniform(bufs, alignment, order)
        invariant Pow2(order) == unit ==> segs == |bufs|
        invariant pages == PagesOf(vaddr, Pow2(PageOrder(order)), segs)
        invariant |bufs| <= segs * per && (segs == 0 || segs * per < |bufs| + per)
        invariant |bufs| < count ==> |bufs| == segs * per
        invariant if bytes < INT_LIMIT + unit then Added(bufs, |buflist|, byteCount, byteCount + bytes)
                  else Strays(bufs, byteCount)
        decreases count - |bufs|
      {
        ok := Allocate(memory);
        if !ok {
          return;
        }
        OneMore(segs, unit);
        OneMore(segs, per);
        NextSegment(vaddr, Pow2(PageOrder(order)), segs);
        pages := pages + Segment(vaddr(segs), Pow2(PageOrder(order)));
        bufs, ok := FillSegment(bufs, count, order, alignment, unit, bytes, memory, per);
        if !ok {
          return;
        }
        segs := segs + 1;
        bytes := bytes + unit;
      }
      ok := true;
      PagesLength(vaddr, Pow2(PageOrder(order)), segs);
      if segs > 0 {
        OneMore(segs - 1, unit);
      }
      if bytes >= INT_LIMIT + unit {
        StraysAreNotAdded(bufs, |buflist|, byteCount, byteCount + segs * unit);
      }
    }

    /** The inner loop, for the segment that starts `bytes` into the new part of the mapping. */
    method FillSegment(before: seq<Buf>, count: nat, order: nat, alignment: nat, unit: nat, bytes: nat,
                       memory: bool, ghost per: nat)
      returns (bufs: seq<Buf>, ok: bool)
      requires |before| < count && 0 < Pow2(order) <= alignment <= unit <= INT_LIMIT && byteCount >= 0
      requires (alignment == Pow2(order) || alignment == unit) && Uniform(before, alignment, order)
      requires per * alignment == unit && per >= 1
      ensures Uniform(bufs, alignment, order) && (memory ==> ok)
      ensures ok ==> |before| < |bufs| <= count && (Pow2(order) == unit ==> |bufs| == |before| + 1)
      ensures ok ==> |bufs| == if |before| + per < count then |before| + per else count
      ensures ok && bytes < INT_LIMIT && Added(before, |buflist|, byteCount, byteCount + bytes) ==>
                Added(bufs, |buflist|, byteCount, byteCount + bytes + unit)
      ensures ok && (Strays(before, byteCount) || INT_LIMIT <= bytes < INT_LIMIT + unit) ==> Strays(bufs, byteCount)
    {
      hide Added, Strays, Pow2;
      bufs := before;
      var offset := 0;
      WrappedFits(bytes);
      ghost var good := bytes < INT_LIMIT && Added(before, |buflist|, byteCount, byteCount + bytes);
      ghost var bad := INT_LIMIT <= bytes < INT_LIMIT + unit;
      if bad {
        WrappedBelow(bytes);
      }
      while offset + Pow2(order) <= unit && |bufs| < count
        invariant |before| <= |bufs| <= count && offset <= unit && Uniform(bufs, alignment, order)
        invariant |bufs| - |before| <= per && offset == (|bufs| - |before|) * alignment
        invariant offset == 0 || (offset >= alignment && |bufs| > |before|)
        invariant offset == 0 ==> bufs == before
        invariant Pow2(order) == unit && offset != 0 ==> |bufs| == |before| + 1
        invariant good ==> Added(bufs, |buflist|, byteCount, byteCount + bytes + offset)
        invariant Strays(before, byteCount) || (bad && offset != 0) ==> Strays(bufs, byteCount)
        decreases count - |bufs|
      {
        ok := Allocate(memory);
        if !ok {
          return;
        }
        var b := Buf(|buflist| + |bufs|, alignment, order, byteCount + Wrapped(bytes) + offset);
        if good {
          AddOne(bufs, |buflist|, byteCount, byteCount + bytes + offset, b);
        }
        StraysStay(bufs, b, byteCount);
        OneMore(|bufs| - |before|, alignment);
        FitsSegment(|bufs| - |before|, per, alignment);
        bufs := bufs + [b];
        offset := offset + alignment;
      }
      ok := true;
      FitsSegment(|bufs| - |before|, per, alignment);
      if good {
        AddedWithin(bufs, |buflist|, byteCount, byteCount + bytes + offset, byteCount + bytes + unit);
      }
    }

    /** What the checks before the allocation answer; Done means that the call goes on. */
    ghost function Admission(order: nat, zoneOk: bool, count: int): Result
      requires Shape()
      reads this`bufUse, entries
    {
      if order < MIN_ORDER || order > MAX_ORDER || !zoneOk then Invalid
      else if bufUse != 0 then Busy
      else if entries[order].bufCount != 0 then NoMemory
      else if count < 0 || count > MAX_COUNT then Invalid
      else Done
    }

    /** Those checks; a call that goes on is counted in buf_alloc. */
    method Enter(order: nat, zoneOk: bool, count: int) returns (r: Result)
      requires Shape()
      modifies this`bufAlloc
      ensures r == Admission(order, zoneOk, count)
      ensures bufAlloc == old(bufAlloc) + if r == Done then 1 else 0
    {
      if order < MIN_ORDER || order > MAX_ORDER || !zoneOk {
        return Invalid;
      }
      if bufUse != 0 {
        return Busy;
      }
      bufAlloc := bufAlloc + 1;
      if entries[order].bufCount != 0 {
        bufAlloc := bufAlloc - 1;
        return NoMemory;
      }
      if count < 0 || count > MAX_COUNT {
        bufAlloc := bufAlloc - 1;
        return Invalid;
      }
      return Done;
    }

    /** What the interlock sees of the device between two calls. */
    ghost function Lock(): Interlock
      reads this
    {
      Interlock(bufUse, bufAlloc, bufAlloc, buflist)
    }

    /** The section under count_lock of drm_infobufs and drm_mapbufs. */
    method Use() returns (r: Result)
      modifies this`bufUse
      ensures r == (if bufAlloc != 0 then Busy else Done) && Lock() == Step(old(Lock()), Action.Use)
    {
      if bufAlloc != 0 {
        return Busy;
      }
      bufUse := bufUse + 1;
      return Done;
    }

    /** drm_addbufs_agp, drm_addbufs_sg and drm_addbufs_fb; `zoneOk` is the AGP kind's test of its memory.
        A failure changes nothing but the size noted for the order.  A success appends `count` buffers,
        and the layout stays right exactly when the bytes set aside fit an int. */
    method AddLinear(count: int, size: nat, pageAlign: bool, zoneOk: bool, memory: bool)
      returns (r: Result, ghost order: nat)
      requires Valid()
      modifies this`buflist, this`pageCount, this`byteCount, this`bufAlloc, entries
      ensures IsOrder(size, order)
      ensures Answers(r, old(Admission(order, zoneOk, count)), memory) && bufAlloc == old(bufAlloc)
      ensures forall k :: 0 <= k < entries.Length && k != order ==> entries[k] == old(entries[k])
      ensures r != Done ==> buflist == old(buflist) && pageCount == old(pageCount) && byteCount == old(byteCount)
      ensures r != Done ==> forall k :: 0 <= k < entries.Length ==>
                              entries[k].bufCount == old(entries[k].bufCount)
                              && entries[k].segCount == old(entries[k].segCount)
      ensures r == Done ==> old(buflist) <= buflist && |buflist| == |old(buflist)| + count
                            && Uniform(buflist[|old(buflist)|..], Alignment(order, pageAlign), order)
                            && Spaced(buflist[|old(buflist)|..], old(byteCount), Alignment(order, pageAlign))
      ensures r == Done ==> order <= MAX_ORDER && entries[order].bufCount == count
                            && entries[order].bufSize == Pow2(order) && entries[order].pageOrder == PageOrder(order)
      ensures r == Done ==> byteCount == old(byteCount) + Wrapped(count * Unit(order))
      ensures r == Done ==> (Valid() <==> count * Unit(order) < INT_LIMIT)
      ensures r == Done && 0 < count * Unit(order) < INT_LIMIT ==> |pagelist| < pageCount
      ensures r == Done ==> var run := AddRun(buflist[|old(buflist)|..]);
                            Legal(old(Lock()), run) && Lock() == Run(old(Lock()), run)
    {
      hide Layout, Added, Pow2, Unit, Alignment, PageOrder, IsOrder, Legal, Run, Uniform, Spaced, Wrapped;
      var o := Order(size);
      order := o;
      r := Enter(o, zoneOk, count);
      if r != Done {
        return;
      }
      UnitCovers(o, pageAlign);
      UnitIs(o);
      var alignment := Alignment(o, pageAlign);
      var unit := Unit(o);
      entries[o] := entries[o].(bufSize := Pow2(o), pageOrder := PageOrder(o));
      var listed := Allocate(memory);
      if !listed {
        bufAlloc := bufAlloc - 1;
        return NoMemory, o;
      }
      var bufs, bytes, ok := FillLinear(count, o, alignment, unit, memory);
      bufAlloc := bufAlloc - 1;
      if !ok {
        return NoMemory, o;
      }
      AddRunIs(Lock(), bufs);
      Commit(bufs, bytes, o, alignment, unit);
    }

    /** The end of a linear call: the list grows, and so do the counters, by an int. */
    method Commit(bufs: seq<Buf>, bytes: nat, order: nat, alignment: nat, unit: nat)
      requires Valid() && order <= MAX_ORDER && |bufs| <= MAX_COUNT
      requires Added(bufs, |buflist|, byteCount, byteCount + bytes) && bytes == |bufs| * unit && unit % PAGE_SIZE == 0
      requires alignment == unit && bufs != [] ==> bufs[|bufs| - 1].offset + bufs[|bufs| - 1].total == byteCount + bytes
      requires order < PAGE_SHIFT ==> unit == PAGE_SIZE
      requires order >= PAGE_SHIFT ==> alignment == unit
      modifies this`buflist, this`pageCount, this`byteCount, entries
      ensures buflist == old(buflist) + bufs
      ensures 0 < bytes < INT_LIMIT ==> pageCount > old(pageCount)
      ensures forall k :: 0 <= k < entries.Length && k != order ==> entries[k] == old(entries[k])
      ensures entries[order] == old(entries[order]).(bufCount := |bufs|)
      ensures byteCount == old(byteCount) + Wrapped(bytes)
      ensures Valid() <==> bytes < INT_LIMIT
    {
      hide Layout, Added;
      ghost var end := byteCount;
      WrappedFits(bytes);
      MultipleOfPage(|bufs|, unit);
      if bytes < INT_LIMIT {
        Appended(buflist, bufs, byteCount, byteCount + bytes);
      } else {
        SmallFits(|bufs|, unit, order);
        NotAppended(buflist, bufs, byteCount + Wrapped(bytes));
      }
      buflist := buflist + bufs;
      pageCount := pageCount + Wrapped(bytes) / PAGE_SIZE;
      byteCount := byteCount + Wrapped(bytes);
      entries[order] := entries[order].(bufCount := |bufs|);
    }

    /** Every page has its entry in the page list. */
    ghost predicate PageListComplete()
      reads this`pagelist, this`pageCount
    {
      |pagelist| == pageCount
    }

    /** The copy of the page list that drm_addbufs_pci makes, `pages` entries long whatever the length of
        the list; what is read beyond its end is arbitrary. */
    method CopyPages(pages: nat) returns (copy: seq<int>, ghost overread: bool)
      ensures |copy| == pages && (overread <==> pages > |pagelist|)
      ensures if overread then pagelist <= copy else copy == pagelist[..pages]
    {
      copy, overread := [], false;
      for i := 0 to pages
        invariant |copy| == i && (overread <==> i > |pagelist|)
        invariant if overread then pagelist <= copy else copy == pagelist[..i]
      {
        var entry: int := *;
        if i < |pagelist| {
          entry := pagelist[i];
        } else {
          overread := true;
        }
        copy := copy + [entry];
      }
    }

    /** drm_addbufs_pci, after any mix of earlier calls.  A failure changes nothing but the size noted for
        the order; a success keeps the layout right exactly when the bytes set aside fit an int.  The copy
        of the page list stays in bounds exactly when the list is complete, which it is afterwards. */
    method AddPci(count: int, size: nat, pageAlign: bool, memory: bool, vaddr: nat -> int)
      returns (r: Result, ghost order: nat, ghost overread: bool)
      requires Valid()
      modifies this`buflist, this`pagelist, this`segCount, this`pageCount, this`byteCount, this`bufAlloc, entries
      ensures IsOrder(size, order)
      ensures Answers(r, old(Admission(order, true, count)), memory) && bufAlloc == old(bufAlloc)
      ensures forall k :: 0 <= k < entries.Length && k != order ==> entries[k] == old(entries[k])
      ensures r != Done ==> buflist == old(buflist) && pagelist == old(pagelist) && segCount == old(segCount)
                            && pageCount == old(pageCount) && byteCount == old(byteCount)
      ensures r != Done ==> forall k :: 0 <= k < entries.Length ==>
                              entries[k].bufCount == old(entries[k].bufCount)
                              && entries[k].segCount == old(entries[k].segCount)
      ensures r == Done ==> old(buflist) <= buflist && |buflist| == |old(buflist)| + count
                            && Uniform(buflist[|old(buflist)|..], Alignment(order, pageAlign), order)
      ensures r == Done ==> order <= MAX_ORDER && entries[order].bufCount == count
                            && entries[order].bufSize == Pow2(order) && entries[order].pageOrder == PageOrder(order)
      ensures r == Done ==> segCount - old(segCount) == entries[order].segCount <= count
      ensures r == Done ==> var per, segs := PerSegment(order, pageAlign), entries[order].segCount;
                            count <= segs * per && (segs == 0 || segs * per < count + per)
      ensures r == Done ==> byteCount == old(byteCount) + Wrapped(entries[order].segCount * Unit(order))
      ensures r == Done ==> (Valid() <==> count * Unit(order) < INT_LIMIT)
      ensures overread ==> !old(PageListComplete())
      ensures r == Done ==> (overread <==> !old(PageListComplete())) && old(pagelist) <= pagelist && PageListComplete()
      ensures r == Done ==> 0 <= old(pageCount) <= |pagelist| && pagelist[old(pageCount)..] ==
                              PagesOf(vaddr, Pow2(PageOrder(order)), entries[order].segCount)
      ensures r == Done ==> var run := AddRun(buflist[|old(buflist)|..]);
                            Legal(old(Lock()), run) && Lock() == Run(old(Lock()), run)
    {
      hide Layout, Added, Pow2, Unit, Alignment, PageOrder, IsOrder, Legal, Run, Uniform, Wrapped, NeverBoth,
           PerSegment, PagesOf, Segment;
      overread := false;
      var o := Order(size);
      order := o;
      r := Enter(o, true, count);
      if r != Done {
        return;
      }
      UnitCovers(o, pageAlign);
      UnitIs(o);
      AlignmentIs(o, pageAlign);
      UnitFits(o);
      var alignment := Alignment(o, pageAlign);
      var unit := Unit(o);
      var listed := Allocate(memory);
      if !listed {
        bufAlloc := bufAlloc - 1;
        return NoMemory, o, false;
      }
      var copy;
      copy, overread := CopyPages(pageCount);
      entries[o] := entries[o].(bufSize := Pow2(o), pageOrder := PageOrder(o));
      SegmentIsFull(o, pageAlign);
      var bufs, pages, segs, ok := FillPci(count, o, alignment, unit, memory, vaddr, PerSegment(o, pageAlign));
      bufAlloc := bufAlloc - 1;
      if !ok {
        return NoMemory, o, overread;
      }
      AddRunIs(Lock(), bufs);
      CommitPci(bufs, copy, pages, segs, count, o, unit);
    }

    /** The end of a PCI call: the lists grow, and so do the counters, the bytes by an int. */
    method CommitPci(bufs: seq<Buf>, copy: seq<int>, pages: seq<int>, segs: nat, count: nat, order: nat, unit: nat)
      requires Valid() && |copy| == pageCount && order <= MAX_ORDER && |bufs| == count <= MAX_COUNT && segs <= count
      requires unit == Unit(order) && |pages| == segs * Pow2(PageOrder(order))
      requires Added(bufs, |buflist|, byteCount, byteCount + segs * unit) <==>
               segs == 0 || (segs - 1) * unit < INT_LIMIT
      requires order >= PAGE_SHIFT ==> segs == count
      requires order < PAGE_SHIFT ==> unit == PAGE_SIZE
      modifies this`buflist, this`pagelist, this`segCount, this`pageCount, this`byteCount, entries
      ensures buflist == old(buflist) + bufs && pagelist == copy + pages && PageListComplete()
      ensures 0 <= old(pageCount) <= |pagelist| && pagelist[old(pageCount)..] == pages
      ensures forall k :: 0 <= k < entries.Length && k != order ==> entries[k] == old(entries[k])
      ensures entries[order] == old(entries[order]).(bufCount := count, segCount := segs)
      ensures segCount == old(segCount) + segs && byteCount == old(byteCount) + Wrapped(segs * unit)
      ensures Valid() <==> count * unit < INT_LIMIT
    {
      hide Layout, Added, Pow2;
      var newPages := segs * Pow2(PageOrder(order));
      PagesAreUnits(segs, order);
      WrappedFits(segs * unit);
      if count * unit < INT_LIMIT {
        SmallerProduct(segs, count, unit);
        SmallerProduct(if segs == 0 then 0 else segs - 1, count, unit);
        Appended(buflist, bufs, byteCount, byteCount + segs * unit);
      } else {
        SmallFits(count, unit, order);
      }
      buflist := buflist + bufs;
      pagelist := copy + pages;
      segCount := segCount + segs;
      pageCount := pageCount + newPages;
      byteCount := byteCount + Wrapped(PAGE_SIZE * newPages);
      entries[order] := entries[order].(bufCount := count, segCount := segs);
    }
  }

  /** Between calls of different kinds the page list falls behind: a linear buffer has pages but no
      entries, and the next PCI call copies more than there is. */
  method MixedKinds(vaddr: nat -> int)
    returns (r1: Result, listed: nat, pages: int, r2: Result, ghost overread: bool)
    ensures r1 == r2 == Done && listed < pages && overread
  {
    var s := new BufferSet();
    ghost var order;
    r1, order := s.AddLinear(1, 4096, false, true, true);
    overread := false;
    OrderOfPage(order);
    listed, pages := |s.pagelist|, s.pageCount;
    assert s.Admission(6, true, 1) == Done;
    r2, order, overread := s.AddPci(1, 64, false, true, vaddr);
    OrderOf64(order);
  }

  lemma OrderOf64(order: nat)
    requires IsOrder(64, order)
    ensures order == 6
  {
    assert Pow2(5) == 32;
    assert Pow2(6) == 64;
    if order < 6 {
      hide Pow2;
      Pow2Grows(order, 5);
    }
  }

  lemma OrderOfPage(order: nat)
    requires IsOrder(4096, order)
    ensures 7 <= order <= 12
    ensures 0 < 1 * Unit(order) < INT_LIMIT
  {
    assert Pow2(6) == 64;
    Pow2Of12();
    hide Pow2;
    assert order <= 12;
    if order < 7 {
      Pow2Grows(order, 6);
    }
    UnitIs(order);
    assert order == 12 ==> Unit(order) == PAGE_SIZE * Pow2(0);
    Pow2Zero();
  }

  /** What the kinds of successful calls do to the page list: pages of linear buffers get no entries. */
  datatype Kind = Linear(pages: nat) | Pci(pages: nat)

  datatype Pages = Pages(listed: nat, count: nat)

  function PagesAfter(p: Pages, calls: seq<Kind>): Pages
    decreases |calls|
  {
    if calls == [] then p
    else
      var last := calls[|calls| - 1];
      var q := PagesAfter(p, calls[..|calls| - 1]);
      match last
      case Linear(n) => Pages(q.listed, q.count + n)
      case Pci(n) => Pages(q.count + n, q.count + n)
  }

  /** No linear call with a page since the last PCI call. */
  predicate LinearFree(calls: seq<Kind>)
    decreases |calls|
  {
    calls == [] || calls[|calls| - 1].Pci? || (calls[|calls| - 1].pages == 0 && LinearFree(calls[..|calls| - 1]))
  }

  /** Over every mix of calls: the next PCI call's copy is in bounds if and only if no pages were added
      by a linear call since the last PCI call. */
  lemma {:induction false} CopyInBounds(calls: seq<Kind>)
    ensures var p := PagesAfter(Pages(0, 0), calls); p.listed <= p.count && (p.listed == p.count <==> LinearFree(calls))
    decreases |calls|
  {
    if calls != [] {
      CopyInBounds(calls[..|calls| - 1]);
    }
  }

  lemma UnitFits(order: nat)
    requires order <= MAX_ORDER
    ensures Unit(order) <= INT_LIMIT
  {
    hide Pow2;
    Pow2Grows(PageOrder(order), 10);
    Pow2Of10();
  }

  lemma Pow2Of10()
    ensures Pow2(10) == 1024
  {
    assert Pow2(5) == 32;
    Pow2Adds(5, 5);
  }

  lemma PagesAreUnits(segs: nat, order: nat)
    ensures PAGE_SIZE * (segs * Pow2(PageOrder(order))) == segs * Unit(order)
  {
    hide Pow2;
    var p := Pow2(PageOrder(order));
    assert PAGE_SIZE * (segs * p) == segs * (PAGE_SIZE * p);
  }

  lemma AlignmentIs(order: nat, pageAlign: bool)
    ensures Alignment(order, pageAlign) == Pow2(order) || Alignment(order, pageAlign) == Unit(order)
  {
    hide Pow2;
    UnitCovers(order, pageAlign);
  }

  lemma UnitIs(order: nat)
    ensures order < PAGE_SHIFT ==> Unit(order) == PAGE_SIZE
  {
    if order < PAGE_SHIFT {
      Pow2Zero();
    }
  }

  lemma MultipleOfPage(n: nat, unit: nat)
    requires unit % PAGE_SIZE == 0
    ensures n * unit % PAGE_SIZE == 0
  {
    var q := unit / PAGE_SIZE;
    assert n * unit == PAGE_SIZE * (n * q);
  }

  /** 4096 buffers of a page fit an int. */
  lemma SmallFits(n: nat, unit: nat, order: nat)
    requires n <= MAX_COUNT && n * unit >= INT_LIMIT && (order < PAGE_SHIFT ==> unit == PAGE_SIZE)
    ensures order >= PAGE_SHIFT && n > 0
  {
  }
}
