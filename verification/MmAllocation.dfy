/** What the allocator keeps over every run, and when an allocation fails. */
module MmAllocation {
  import opened Lists
  import opened MmModel

  // ---------------------------------------------------------------- geometry

  /** Every gap has a non-negative length and lies in the managed range. */
  lemma GapBounds(l: seq<Entry>, i: nat)
    requires Ordered(l) && i < |l|
    ensures Lo(l) <= HoleStart(l, i) <= HoleEnd(l, i) <= Hi(l)
  {
  }

  /** A node other than the sentinel lies wholly before or wholly behind any gap. */
  lemma OutsideGap(l: seq<Entry>, i: nat, k: nat)
    requires Ordered(l) && i < |l| && 0 < k < |l|
    ensures k <= i ==> l[k].block.End() <= HoleStart(l, i)
    ensures k > i ==> HoleEnd(l, i) <= l[k].block.start
  {
    GapBounds(l, i);
  }

  // ---------------------------------------------------------------- alignment

  lemma AlignUpLeast(start: int, alignment: nat, a: int)
    requires Aligned(a, alignment) && start <= a
    ensures AlignUp(start, alignment) <= a
  {
    if alignment != 0 {
      var t, q, k := start % alignment, start / alignment, a / alignment;
      assert start == q * alignment + t && a == k * alignment;
      if t != 0 {
        assert k <= q ==> k * alignment <= q * alignment;
        assert k > q ==> (q + 1) * alignment <= k * alignment;
      }
    }
  }

  lemma ProductMod(k: int, d: nat)
    requires d > 0
    ensures (k * d) % d == 0
  {
    var r, q := (k * d) % d, (k * d) / d;
    assert (k - q) * d == r;
    assert k - q >= 1 ==> (k - q) * d >= d;
    assert k - q <= -1 ==> (k - q) * d <= (-1) * d;
  }

  lemma AlignUpAligned(start: int, alignment: nat)
    ensures Aligned(AlignUp(start, alignment), alignment)
    ensures start <= AlignUp(start, alignment)
  {
    if alignment != 0 && start % alignment != 0 {
      var q := start / alignment;
      assert start + (alignment - start % alignment) == (q + 1) * alignment;
      ProductMod(q + 1, alignment);
    }
  }

  /** check_free_hole decides whether the hole has an aligned placement, and rounding up finds the
      lowest one. */
  lemma CheckFreeHoleExact(start: int, end: int, size: int, alignment: nat)
    requires size > 0
    ensures CheckFreeHole(start, end, size, alignment) <==>
            exists a :: Aligned(a, alignment) && start <= a && a + size <= end
    ensures CheckFreeHole(start, end, size, alignment) ==>
              var a := AlignUp(start, alignment); Aligned(a, alignment) && start <= a && a + size <= end
  {
    AlignUpAligned(start, alignment);
    if a :| Aligned(a, alignment) && start <= a && a + size <= end {
      AlignUpLeast(start, alignment, a);
    }
  }

  /** With 64-bit wrap-around the length of a reversed interval is a huge number; the test still
      answers as the unbounded one does, as long as rounding and adding do not overflow. */
  lemma CheckFreeHoleWraps(start: int, end: int, size: int, alignment: nat)
    requires 0 <= start && 0 <= end < 0x1_0000_0000_0000_0000 && size > 0
    requires AlignUp(start, alignment) + size < 0x1_0000_0000_0000_0000
    ensures CheckFreeHole(start, end, size, alignment) <==>
            !((end - start) % 0x1_0000_0000_0000_0000 < size) && end >= AlignUp(start, alignment) + size
  {
    AlignUpAligned(start, alignment);
  }

  // ---------------------------------------------------------------- when the search fails

  /** The interval the code works with holds exactly the placements of the gap. */
  lemma UsableIsGap(adjust: Option<ColorAdjust>, p: Block, q: Block, req: Request, a: int)
    ensures var (s, e) := Usable(adjust, p, q, req);
            InGap(adjust, p, q, req, a) <==> Aligned(a, req.alignment) && s <= a && a + req.size <= e
  {
  }

  /** The test of the gap between p and q, which a scan makes too, is exact; rounding up its start finds
      the lowest placement. */
  lemma GapExact(adjust: Option<ColorAdjust>, p: Block, q: Block, req: Request)
    requires req.size > 0
    ensures var (s, e) := Usable(adjust, p, q, req);
            && (CheckFreeHole(s, e, req.size, req.alignment) <==> exists a :: InGap(adjust, p, q, req, a))
            && (CheckFreeHole(s, e, req.size, req.alignment) ==> InGap(adjust, p, q, req, AlignUp(s, req.alignment)))
            && (forall a :: InGap(adjust, p, q, req, a) ==> AlignUp(s, req.alignment) <= a)
  {
    hide Usable, InGap, CheckFreeHole, AlignUp, Aligned;
    var (s, e) := Usable(adjust, p, q, req);
    CheckFreeHoleExact(s, e, req.size, req.alignment);
    UsableIsGap(adjust, p, q, req, AlignUp(s, req.alignment));
    forall a
      ensures InGap(adjust, p, q, req, a) <==> Aligned(a, req.alignment) && s <= a && a + req.size <= e
      ensures InGap(adjust, p, q, req, a) ==> AlignUp(s, req.alignment) <= a
    {
      UsableIsGap(adjust, p, q, req, a);
      if InGap(adjust, p, q, req, a) {
        AlignUpLeast(s, req.alignment, a);
      }
    }
    if CheckFreeHole(s, e, req.size, req.alignment) {
      assert InGap(adjust, p, q, req, AlignUp(s, req.alignment));
    }
  }

  /** The test of one hole is exact, and the node is put at the lowest placement. */
  lemma FitsExact(m: Mm, i: nat, req: Request)
    requires i < |m.list| && Sensible(req)
    ensures Fits(m, i, req) <==> exists a :: PlacementIn(m, i, req, a)
    ensures Fits(m, i, req) ==> PlacementIn(m, i, req, StartIn(m, i, req))
    ensures forall a :: PlacementIn(m, i, req, a) ==> StartIn(m, i, req) <= a
  {
    hide Usable, InGap, CheckFreeHole, AlignUp;
    var p, q := m.list[i].block, After(m.list, i).block;
    GapExact(m.adjust, p, q, req);
    if a :| InGap(m.adjust, p, q, req, a) {
      assert PlacementIn(m, i, req, a);
      GapHasLength(m.adjust, p, q, req, a);
    }
    if a :| PlacementIn(m, i, req, a) {
      assert InGap(m.adjust, p, q, req, a);
    }
  }

  lemma GapHasLength(adjust: Option<ColorAdjust>, p: Block, q: Block, req: Request, a: int)
    requires req.size > 0 && InGap(adjust, p, q, req, a)
    ensures Usable(adjust, p, q, req).0 < Usable(adjust, p, q, req).1
  {
  }

  /** A placement inside the usable part of a hole really is free, aligned and in range. */
  lemma PlacementInIsPlacement(m: Mm, i: nat, req: Request, a: int)
    requires Ordered(m.list) && i < |m.list| && SoundAdjust(m.adjust) && PlacementIn(m, i, req, a)
    ensures Placement(m.list, req, a)
    ensures HoleStart(m.list, i) <= a && a + req.size <= HoleEnd(m.list, i)
  {
    GapBounds(m.list, i);
    forall k | 1 <= k < |m.list|
      ensures m.list[k].block.End() <= a || a + req.size <= m.list[k].block.start
    {
      OutsideGap(m.list, i, k);
    }
  }

  /** Free address space lies inside a single gap of the node list. */
  lemma FreeSpaceIsInAGap(l: seq<Entry>, a: int, size: int) returns (i: nat)
    requires Ordered(l) && size > 0 && FreeAt(l, a, size)
    ensures i < |l| && HoleStart(l, i) <= a && a + size <= HoleEnd(l, i)
  {
    i := 0;
    while i + 1 < |l| && l[i + 1].block.End() <= a
      invariant i < |l| && l[i].block.End() <= a
    {
      i := i + 1;
    }
  }

  lemma AtIs(l: seq<Entry>, i: nat)
    requires DistinctNodes(l) && i < |l|
    ensures Linked(l, l[i].node) && At(l, l[i].node) == i
  {
  }

  lemma StackHole(l: seq<Entry>, stack: seq<Node>, i: nat)
    requires StackExact(l, stack) && DistinctNodes(l) && i < |l|
    ensures l[i].node in stack <==> l[i].hole
  {
    AtIs(l, i);
  }

  /** Allocation fails with -ENOSPC exactly when no hole has an aligned in-range placement. */
  lemma SearchExact(m: Mm, req: Request)
    requires Valid(m) && SoundAdjust(m.adjust) && Sensible(req)
    ensures Search(m, req).None? <==> forall i, a :: 0 <= i < |m.list| ==> !PlacementIn(m, i, req, a)
  {
    if Search(m, req).Some? {
      FitsExact(m, At(m.list, Search(m, req).value), req);
    } else {
      forall i, a | 0 <= i < |m.list|
        ensures !PlacementIn(m, i, req, a)
      {
        if PlacementIn(m, i, req, a) {
          PlacementInIsPlacement(m, i, req, a);
          FitsExact(m, i, req);
          AtIs(m.list, i);
        }
      }
    }
  }

  lemma PlacementIsInAHole(m: Mm, req: Request, a: int)
    requires Ordered(m.list) && m.adjust.None? && Sensible(req) && Placement(m.list, req, a)
    ensures exists i :: 0 <= i < |m.list| && PlacementIn(m, i, req, a)
  {
    var i := FreeSpaceIsInAGap(m.list, a, req.size);
    assert PlacementIn(m, i, req, a);
  }

  /** Without colouring: exactly when the free address space has no such placement at all. */
  lemma SearchExactByAddress(m: Mm, req: Request)
    requires Valid(m) && m.adjust.None? && Sensible(req)
    ensures Search(m, req).None? <==> forall a :: !Placement(m.list, req, a)
  {
    SearchExact(m, req);
    forall a | Placement(m.list, req, a)
      ensures exists i :: 0 <= i < |m.list| && PlacementIn(m, i, req, a)
    {
      PlacementIsInAHole(m, req, a);
    }
    forall i, a | 0 <= i < |m.list| && PlacementIn(m, i, req, a)
      ensures Placement(m.list, req, a)
    {
      PlacementInIsPlacement(m, i, req, a);
    }
  }

  // ---------------------------------------------------------------- insertion keeps everything

  /** l with the flag of entry i changed and entry e linked behind it. */
  ghost predicate Spliced(l: seq<Entry>, i: nat, hole: bool, e: Entry, r: seq<Entry>)
    requires i < |l|
  {
    && |r| == |l| + 1
    && (forall k :: 0 <= k < i ==> r[k] == l[k])
    && r[i] == l[i].(hole := hole) && r[i + 1] == e
    && (forall k :: i + 1 < k < |r| ==> r[k] == l[k - 1])
  }

  /** A position of the spliced list is the new one or one of the old list. */
  lemma SpliceBlock(l: seq<Entry>, i: nat, hole: bool, e: Entry, r: seq<Entry>, k: nat)
    requires i < |l| && Spliced(l, i, hole, e, r) && k < |r|
    ensures |r| == |l| + 1 && (k <= i ==> r[k].block == l[k].block)
    ensures k == i + 1 ==> r[k].block == e.block
    ensures k > i + 1 ==> r[k].block == l[k - 1].block
  {
  }

  lemma SpliceBounds(l: seq<Entry>, i: nat, hole: bool, e: Entry, r: seq<Entry>, k: nat)
    requires Ordered(l) && i < |l| && e.block.size > 0 && Spliced(l, i, hole, e, r) && 0 < k < |r|
    requires HoleStart(l, i) <= e.block.start && e.block.End() <= HoleEnd(l, i)
    ensures r[k].block.size > 0 && Lo(l) <= r[k].block.start && r[k].block.End() <= Hi(l)
  {
    SpliceBlock(l, i, hole, e, r, k);
    GapBounds(l, i);
  }

  lemma SplicePair(l: seq<Entry>, i: nat, hole: bool, e: Entry, r: seq<Entry>, j: nat, k: nat)
    requires Ordered(l) && i < |l| && Spliced(l, i, hole, e, r) && 0 < j < k < |r|
    requires HoleStart(l, i) <= e.block.start && e.block.End() <= HoleEnd(l, i)
    ensures r[j].block.End() <= r[k].block.start
  {
    hide Spliced, HoleStart, HoleEnd;
    SpliceBlock(l, i, hole, e, r, j);
    SpliceBlock(l, i, hole, e, r, k);
    if j == i + 1 {
      OutsideGap(l, i, k - 1);
    } else if k == i + 1 {
      OutsideGap(l, i, j);
    }
  }

  /** Adding a non-empty block inside the gap behind entry i keeps the list ordered. */
  lemma SpliceOrdered(l: seq<Entry>, i: nat, hole: bool, e: Entry, r: seq<Entry>)
    requires Ordered(l) && i < |l| && e.block.size > 0
    requires HoleStart(l, i) <= e.block.start && e.block.End() <= HoleEnd(l, i)
    requires Spliced(l, i, hole, e, r)
    ensures Ordered(r) && Lo(r) == Lo(l) && Hi(r) == Hi(l)
  {
    SpliceBlock(l, i, hole, e, r, 0);
    forall k | 1 <= k < |r|
      ensures r[k].block.size > 0 && Lo(l) <= r[k].block.start && r[k].block.End() <= Hi(l)
    {
      SpliceBounds(l, i, hole, e, r, k);
    }
    forall j, k | 1 <= j < k < |r|
      ensures r[j].block.End() <= r[k].block.start
    {
      SplicePair(l, i, hole, e, r, j, k);
    }
  }

  lemma SpliceFlags(l: seq<Entry>, i: nat, e: Entry, r: seq<Entry>)
    requires FlagsExact(l) && i < |l| && l[i].hole
    requires Spliced(l, i, l[i].block.End() != e.block.start, e, r)
    requires HoleStart(l, i) <= e.block.start
    requires e.hole <==> e.block.End() < HoleEnd(l, i)
    ensures FlagsExact(r)
  {
    forall k | 0 <= k < |r|
      ensures r[k].hole <==> HoleStart(r, k) < HoleEnd(r, k)
    {
      if k < i {
        assert After(r, k).block == After(l, k).block;
      } else if k > i + 1 {
        assert After(r, k).block == After(l, k - 1).block;
      } else if k == i + 1 {
        assert After(r, k).block == After(l, i).block;
      }
    }
  }

  lemma SpliceDistinct(l: seq<Entry>, i: nat, hole: bool, e: Entry, r: seq<Entry>)
    requires DistinctNodes(l) && i < |l| && Spliced(l, i, hole, e, r) && !Linked(l, e.node)
    ensures DistinctNodes(r)
  {
    assert forall k :: 0 <= k < |l| ==> l[k].node != e.node;
    forall j, k | 0 <= j < k < |r|
      ensures r[j].node != r[k].node
    {
      assert j != i + 1 ==> r[j].node == l[if j <= i then j else j - 1].node;
      assert k != i + 1 ==> r[k].node == l[if k <= i then k else k - 1].node;
    }
  }

  lemma SpliceAt(l: seq<Entry>, i: nat, hole: bool, e: Entry, r: seq<Entry>, n: Node)
    requires i < |l| && Spliced(l, i, hole, e, r) && DistinctNodes(r) && Linked(l, n)
    ensures Linked(r, n) && r[At(r, n)] == if At(l, n) == i then l[i].(hole := hole) else l[At(l, n)]
  {
    var j := At(l, n);
    AtIs(r, if j <= i then j else j + 1);
  }

  /** The entries that were linked before the splice, and the stack without the new node. */
  lemma SpliceOldStack(l: seq<Entry>, stack: seq<Node>, i: nat, hole: bool, e: Entry, r: seq<Entry>, s: seq<Node>)
    requires StackExact(l, stack) && i < |l| && l[i].hole && DistinctNodes(l)
    requires Spliced(l, i, hole, e, r) && DistinctNodes(r)
    requires s == if hole then stack else Delete(stack, l[i].node)
    ensures Distinct(s) && forall k :: 0 <= k < |s| ==> Linked(r, s[k]) && r[At(r, s[k])].hole
    ensures forall k :: 0 <= k < |r| && k != i + 1 && r[k].hole ==> r[k].node in s
  {
    DeleteMembers(stack, l[i].node);
    forall k | 0 <= k < |s|
      ensures Linked(r, s[k]) && r[At(r, s[k])].hole
    {
      assert s[k] in s;
      assert s[k] in stack;
      SpliceAt(l, i, hole, e, r, s[k]);
    }
    forall k | 0 <= k < |r| && k != i + 1 && r[k].hole
      ensures r[k].node in s
    {
      var j := if k <= i then k else k - 1;
      assert l[j].node in stack;
      assert !hole ==> j != i;
    }
  }

  /** A stack that is exact but for one marked entry becomes exact by pushing it. */
  lemma PushExact(r: seq<Entry>, s: seq<Node>, j: nat)
    requires DistinctNodes(r) && j < |r| && Distinct(s) && r[j].node !in s
    requires forall k :: 0 <= k < |s| ==> Linked(r, s[k]) && r[At(r, s[k])].hole
    requires forall k :: 0 <= k < |r| && k != j && r[k].hole ==> r[k].node in s
    ensures StackExact(r, if r[j].hole then [r[j].node] + s else s)
  {
    AtIs(r, j);
    if r[j].hole {
      var stack := [r[j].node] + s;
      forall k | 0 <= k < |r| && r[k].hole
        ensures r[k].node in stack
      {
        assert k == j ==> stack[0] == r[k].node;
      }
    }
  }

  lemma SpliceStack(l: seq<Entry>, stack: seq<Node>, i: nat, hole: bool, e: Entry, r: seq<Entry>, s: seq<Node>)
    requires StackExact(l, stack) && i < |l| && l[i].hole && DistinctNodes(l)
    requires Spliced(l, i, hole, e, r) && DistinctNodes(r) && !Linked(l, e.node)
    requires s == if hole then stack else Delete(stack, l[i].node)
    ensures StackExact(r, if e.hole then [e.node] + s else s)
  {
    SpliceOldStack(l, stack, i, hole, e, r, s);
    DeleteMembers(stack, l[i].node);
    assert forall k :: 0 <= k < |stack| ==> stack[k] != e.node;
    PushExact(r, s, i + 1);
  }

  lemma InsertSplices(m: Mm, i: nat, node: Node, req: Request)
    requires i < |m.list| && m.list[i].node in m.stack && m.list[i].hole
    ensures var m' := Insert(m, i, node, req);
            && |m'.list| == |m.list| + 1
            && m'.list[i].hole == (StartIn(m, i, req) != HoleStart(m.list, i))
            && m'.list[i + 1] == Entry(node, Block(StartIn(m, i, req), req.size, req.color, true),
                                       StartIn(m, i, req) + req.size < HoleEnd(m.list, i))
            && Spliced(m.list, i, m'.list[i].hole, m'.list[i + 1], m'.list)
  {
  }

  /** Placing a node inside the gap behind a marked entry keeps the manager valid. */
  lemma InsertAtValid(m: Mm, i: nat, node: Node, req: Request)
    requires Valid(m) && !Linked(m.list, node) && i < |m.list| && m.list[i].node in m.stack && req.size > 0
    requires HoleStart(m.list, i) <= StartIn(m, i, req) && StartIn(m, i, req) + req.size <= HoleEnd(m.list, i)
    ensures var m' := Insert(m, i, node, req);
            && Valid(m') && Lo(m'.list) == Lo(m.list) && Hi(m'.list) == Hi(m.list)
            && Spliced(m.list, i, m'.list[i].hole, m'.list[i + 1], m'.list)
  {
    var m' := Insert(m, i, node, req);
    StackHole(m.list, m.stack, i);
    InsertSplices(m, i, node, req);
    SpliceOrdered(m.list, i, m'.list[i].hole, m'.list[i + 1], m'.list);
    SpliceFlags(m.list, i, m'.list[i + 1], m'.list);
    SpliceDistinct(m.list, i, m'.list[i].hole, m'.list[i + 1], m'.list);
    SpliceStack(m.list, m.stack, i, m'.list[i].hole, m'.list[i + 1], m'.list,
                if m'.list[i].hole then m.stack else Delete(m.stack, m.list[i].node));
  }

  /** One successful insertion keeps the manager valid, and the node lands on a free, aligned and
      in-range piece of the hole that the search chose. */
  lemma InsertValid(m: Mm, node: Node, req: Request)
    requires Valid(m) && SoundAdjust(m.adjust) && Sensible(req) && !Linked(m.list, node)
    requires Search(m, req).Some?
    ensures var i := At(m.list, Search(m, req).value);
            && m.list[i].node in m.stack
            && var m' := Insert(m, i, node, req);
               && Valid(m') && Lo(m'.list) == Lo(m.list) && Hi(m'.list) == Hi(m.list)
               && Spliced(m.list, i, m'.list[i].hole, m'.list[i + 1], m'.list)
               && m'.list[i + 1].node == node
               && m'.list[i + 1].block == Block(StartIn(m, i, req), req.size, req.color, true)
               && Placement(m.list, req, StartIn(m, i, req))
               && PlacementIn(m, i, req, StartIn(m, i, req))
               && forall a :: PlacementIn(m, i, req, a) ==> StartIn(m, i, req) <= a
  {
    var i := At(m.list, Search(m, req).value);
    FitsExact(m, i, req);
    PlacementInIsPlacement(m, i, req, StartIn(m, i, req));
    InsertAtValid(m, i, node, req);
  }

  // ---------------------------------------------------------------- removal keeps everything

  /** l with entry i unlinked and the flag of its predecessor changed. */
  ghost predicate Unlinked(l: seq<Entry>, i: nat, hole: bool, r: seq<Entry>)
    requires 0 < i < |l|
  {
    && |r| == |l| - 1
    && (forall k :: 0 <= k < i - 1 ==> r[k] == l[k])
    && r[i - 1] == l[i - 1].(hole := hole)
    && (forall k :: i <= k < |r| ==> r[k] == l[k + 1])
  }

  lemma UnlinkOrdered(l: seq<Entry>, i: nat, hole: bool, r: seq<Entry>)
    requires Ordered(l) && 0 < i < |l| && Unlinked(l, i, hole, r)
    ensures Ordered(r) && Lo(r) == Lo(l) && Hi(r) == Hi(l)
  {
    assert forall k :: 0 <= k < |r| ==> r[k].block == l[if k < i then k else k + 1].block;
  }

  lemma UnlinkDistinct(l: seq<Entry>, i: nat, hole: bool, r: seq<Entry>)
    requires DistinctNodes(l) && 0 < i < |l| && Unlinked(l, i, hole, r)
    ensures DistinctNodes(r)
  {
    assert forall k :: 0 <= k < |r| ==> r[k].node == l[if k < i then k else k + 1].node;
  }

  lemma UnlinkAt(l: seq<Entry>, i: nat, hole: bool, r: seq<Entry>, n: Node)
    requires DistinctNodes(l) && DistinctNodes(r) && 0 < i < |l| && Unlinked(l, i, hole, r)
    ensures Linked(r, n) <==> Linked(l, n) && n != l[i].node
    ensures Linked(r, n) ==> r[At(r, n)].block == l[At(l, n)].block
    ensures Linked(r, n) ==> r[At(r, n)] == if At(l, n) == i - 1 then l[i - 1].(hole := hole) else l[At(l, n)]
  {
    if Linked(r, n) {
      var k := At(r, n);
      AtIs(l, if k < i then k else k + 1);
    }
    if Linked(l, n) && n != l[i].node {
      var k := At(l, n);
      AtIs(r, if k < i then k else k - 1);
    }
  }

  lemma UnlinkFlags(l: seq<Entry>, i: nat, r: seq<Entry>)
    requires Ordered(l) && FlagsExact(l) && 0 < i < |l| && Unlinked(l, i, true, r)
    ensures FlagsExact(r) && HoleStart(r, i - 1) == HoleStart(l, i - 1) && HoleEnd(r, i - 1) == HoleEnd(l, i)
  {
    GapBounds(l, i - 1);
    GapBounds(l, i);
    assert After(r, i - 1).block == After(l, i).block;
    forall k | 0 <= k < |r|
      ensures r[k].hole <==> HoleStart(r, k) < HoleEnd(r, k)
    {
      if k < i - 1 {
        assert After(r, k).block == After(l, k).block;
      } else if k >= i {
        assert After(r, k).block == After(l, k + 1).block;
      }
    }
  }

  /** Taking an entry off the stack if it is on it. */
  lemma UnstackMembers(l: seq<Entry>, stack: seq<Node>, i: nat)
    requires DistinctNodes(l) && i < |l| && Distinct(stack) && (l[i].node in stack ==> l[i].hole)
    ensures Distinct(Unstack(stack, l[i]))
    ensures forall n :: n in Unstack(stack, l[i]) <==> n in stack && n != l[i].node
  {
    if l[i].node in stack {
      DeleteMembers(stack, l[i].node);
    }
  }

  lemma UnlinkStack(m: Mm, i: nat, r: seq<Entry>)
    requires StackExact(m.list, m.stack) && DistinctNodes(m.list) && 0 < i < |m.list|
    requires Unlinked(m.list, i, true, r) && DistinctNodes(r)
    ensures StackExact(r, Remove(m, i).stack)
  {
    var l := m.list;
    var mid := Unstack(m.stack, l[i]);
    var low := Unstack(mid, l[i - 1]);
    StackHole(l, m.stack, i);
    StackHole(l, m.stack, i - 1);
    UnstackMembers(l, m.stack, i);
    UnstackMembers(l, mid, i - 1);
    hide Unstack;
    forall k | 0 <= k < |low|
      ensures Linked(r, low[k]) && r[At(r, low[k])].hole
    {
      assert low[k] in low;
      assert low[k] in m.stack;
      UnlinkAt(l, i, true, r, low[k]);
    }
    UnlinkStackCovers(l, m.stack, i, r, low);
    PushExact(r, low, i - 1);
  }

  lemma UnlinkStackCovers(l: seq<Entry>, stack: seq<Node>, i: nat, r: seq<Entry>, low: seq<Node>)
    requires StackExact(l, stack) && 0 < i < |l| && Unlinked(l, i, true, r) && DistinctNodes(l)
    requires forall n :: n in stack && n != l[i].node && n != l[i - 1].node ==> n in low
    ensures forall k :: 0 <= k < |r| && k != i - 1 && r[k].hole ==> r[k].node in low
  {
    forall k | 0 <= k < |r| && k != i - 1 && r[k].hole
      ensures r[k].node in low
    {
      var j := if k < i then k else k + 1;
      assert r[k].node == l[j].node && l[j].node in stack;
      assert j != i && j != i - 1;
    }
  }

  lemma RemoveUnlinks(m: Mm, i: nat)
    requires 0 < i < |m.list|
    ensures Unlinked(m.list, i, true, Remove(m, i).list)
  {
  }

  /** Removing any node: none of the consistency checks fires, the manager stays valid, and the
      predecessor's hole now reaches over the node's space and is on top of the stack. */
  lemma RemoveValid(m: Mm, i: nat)
    requires Valid(m) && 0 < i < |m.list|
    ensures m.list[i].hole <==> HoleStart(m.list, i) != HoleEnd(m.list, i)
    ensures var m' := Remove(m, i);
            && Valid(m') && m'.adjust == m.adjust && Lo(m'.list) == Lo(m.list) && Hi(m'.list) == Hi(m.list)
            && Unlinked(m.list, i, true, m'.list)
            && m'.stack[0] == m.list[i - 1].node
            && HoleStart(m'.list, i - 1) == HoleStart(m.list, i - 1)
            && HoleEnd(m'.list, i - 1) == HoleEnd(m.list, i)
  {
    GapBounds(m.list, i);
    var m' := Remove(m, i);
    RemoveUnlinks(m, i);
    UnlinkOrdered(m.list, i, true, m'.list);
    UnlinkDistinct(m.list, i, true, m'.list);
    UnlinkFlags(m.list, i, m'.list);
    UnlinkStack(m, i, m'.list);
  }

  /** Removing the node just inserted gives back the same node list and flags; only the hole moves
      to the top of the stack. */
  lemma RemoveUndoesInsert(m: Mm, i: nat, node: Node, req: Request)
    requires i < |m.list| && m.list[i].hole && m.list[i].node in m.stack
    ensures Remove(Insert(m, i, node, req), i + 1).list == m.list
    ensures Remove(Insert(m, i, node, req), i + 1).stack[0] == m.list[i].node
  {
    InsertSplices(m, i, node, req);
    RemoveUnlinks(Insert(m, i, node, req), i + 1);
  }

  /** The search prefers the newest hole: what an insertion leaves of a hole, */
  lemma RestIsNext(m: Mm, node: Node, req: Request, next: Request)
    requires Valid(m) && SoundAdjust(m.adjust) && Sensible(req) && !Linked(m.list, node)
    requires Search(m, req).Some?
    ensures var i := At(m.list, Search(m, req).value);
            && m.list[i].node in m.stack
            && var m' := Insert(m, i, node, req);
               && StackExact(m'.list, m'.stack) && i + 1 < |m'.list|
               && (m'.list[i + 1].hole && Fits(m', i + 1, next) ==> Search(m', next) == Some(node))
  {
    hide Insert, Fits, Placement, PlacementIn, SoundAdjust, Spliced;
    InsertValid(m, node, req);
    var i := At(m.list, Search(m, req).value);
    var m' := Insert(m, i, node, req);
    RestOnTop(m, i, node, req);
    if m'.list[i + 1].hole && Fits(m', i + 1, next) {
      TopIsNext(m', i + 1, next);
    }
  }

  lemma RestOnTop(m: Mm, i: nat, node: Node, req: Request)
    requires i < |m.list| && m.list[i].node in m.stack
    ensures var m' := Insert(m, i, node, req);
            i + 1 < |m'.list| && (m'.list[i + 1].hole ==> m'.stack != [] && m'.stack[0] == node)
  {
    var m' := Insert(m, i, node, req);
    var start := StartIn(m, i, req);
    var follows := start + req.size < HoleEnd(m.list, i);
    assert m'.list[i + 1] == Entry(node, Block(start, req.size, req.color, true), follows);
  }

  /** and the hole that a removal opens. */
  lemma HoleIsNext(m: Mm, i: nat, next: Request)
    requires Valid(m) && 0 < i < |m.list|
    ensures var m' := Remove(m, i);
            && StackExact(m'.list, m'.stack) && i - 1 < |m'.list|
            && (Fits(m', i - 1, next) ==> Search(m', next) == Some(m.list[i - 1].node))
  {
    RemoveValid(m, i);
    var m' := Remove(m, i);
    hide Remove, Fits;
    if Fits(m', i - 1, next) {
      TopIsNext(m', i - 1, next);
    }
  }

  lemma TopIsNext(m: Mm, i: nat, req: Request)
    requires Valid(m) && i < |m.list| && m.stack != [] && m.stack[0] == m.list[i].node && Fits(m, i, req)
    ensures Search(m, req) == Some(m.list[i].node)
  {
    AtIs(m.list, i);
  }

  // ---------------------------------------------------------------- accounting

  /** Bytes used by entry i and the ones behind it. */
  function Used(l: seq<Entry>, i: nat): int
    requires i <= |l|
    decreases |l| - i
  {
    if i == |l| then 0 else l[i].block.size + Used(l, i + 1)
  }

  /** Free bytes in the marked gaps behind entry i and later ones. */
  function Free(l: seq<Entry>, i: nat): int
    requires i <= |l|
    decreases |l| - i
  {
    if i == |l| then 0
    else (if l[i].hole then HoleEnd(l, i) - HoleStart(l, i) else 0) + Free(l, i + 1)
  }

  /** Used and free bytes always add up to the managed size. */
  lemma UsedPlusFree(l: seq<Entry>)
    requires Ordered(l) && FlagsExact(l)
    ensures Used(l, 1) + Free(l, 0) == Hi(l) - Lo(l)
  {
    GapBounds(l, 0);
    UsedPlusFreeFrom(l, 1);
  }

  lemma {:induction false} UsedPlusFreeFrom(l: seq<Entry>, i: nat)
    requires Ordered(l) && FlagsExact(l) && 1 <= i <= |l|
    ensures Used(l, i) + Free(l, i) == Hi(l) - (if i < |l| then l[i].block.start else Hi(l))
    decreases |l| - i
  {
    if i < |l| {
      GapBounds(l, i);
      UsedPlusFreeFrom(l, i + 1);
    }
  }

  // ---------------------------------------------------------------- whole runs

  datatype Op = InsertOp(node: Node, req: Request) | RemoveOp(node: Node)

  /** A node may be inserted only while it is unlinked and removed only while it is linked. */
  ghost predicate Legal(m: Mm, op: Op) {
    && StackExact(m.list, m.stack)
    && match op
       case InsertOp(n, req) => !Linked(m.list, n) && Sensible(req)
       case RemoveOp(n) => Linked(m.list, n) && At(m.list, n) > 0
  }

  ghost function Apply(m: Mm, op: Op): Mm
    requires Legal(m, op)
  {
    match op
    case InsertOp(n, req) =>
      (match Search(m, req)
       case None => m
       case Some(p) => Insert(m, At(m.list, p), n, req))
    case RemoveOp(n) => Remove(m, At(m.list, n))
  }

  ghost predicate LegalRun(m: Mm, ops: seq<Op>)
    decreases |ops|
  {
    ops == [] || (Legal(m, ops[0]) && LegalRun(Apply(m, ops[0]), ops[1..]))
  }

  ghost function Run(m: Mm, ops: seq<Op>): Mm
    requires LegalRun(m, ops)
    decreases |ops|
  {
    if ops == [] then m else Run(Apply(m, ops[0]), ops[1..])
  }

  /** A freshly initialised manager: one hole, the whole range. */
  function Init(head: Node, start: int, size: int, adjust: Option<ColorAdjust>): Mm {
    Mm([Entry(head, Block(start + size, start - (start + size), 0, false), true)], [head], adjust)
  }

  /** Initialisation marks the sentinel unconditionally, so the flags are exact iff the range is
      not empty. */
  lemma InitValid(head: Node, start: int, size: int, adjust: Option<ColorAdjust>)
    requires start >= 0
    ensures Valid(Init(head, start, size, adjust)) <==> size > 0
  {
    var m := Init(head, start, size, adjust);
    assert m.list[0].hole && HoleStart(m.list, 0) == start && HoleEnd(m.list, 0) == start + size;
    AtIs(m.list, 0);
  }

  /** Over every run of insertions and removals the manager stays valid over the same range, and
      used and free bytes add up to it. */
  lemma {:induction false} RunKeepsValid(m: Mm, ops: seq<Op>)
    requires Valid(m) && SoundAdjust(m.adjust) && LegalRun(m, ops)
    ensures var r := Run(m, ops);
            && Valid(r) && Lo(r.list) == Lo(m.list) && Hi(r.list) == Hi(m.list)
            && Used(r.list, 1) + Free(r.list, 0) == Hi(m.list) - Lo(m.list)
    decreases |ops|
  {
    if ops == [] {
      UsedPlusFree(m.list);
    } else {
      match ops[0] {
        case InsertOp(n, req) => if Search(m, req).Some? { InsertValid(m, n, req); }
        case RemoveOp(n) => RemoveValid(m, At(m.list, n));
      }
      RunKeepsValid(Apply(m, ops[0]), ops[1..]);
    }
  }
}
