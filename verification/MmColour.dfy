/** The colouring of i915 on machines without LLC: memory of different cache levels is kept a page
    apart, so the check that follows each binding never finds anything. */
module MmColour {
  import opened Lists
  import opened MmModel
  import opened MmAllocation

  const GUARD := 4096

  /** i915_gtt_color_adjust */
  function I915Adjust(p: Block, q: Block, color: nat, start: int, end: int): (int, int) {
    (if p.color != color then start + GUARD else start,
     if q.isAllocated && q.color != color then end - GUARD else end)
  }

  lemma I915IsSound(m: Mm)
    requires m.adjust == Some(I915Adjust)
    ensures SoundAdjust(m.adjust)
  {
  }

  /** An aligned piece of the hole behind entry i, a page away from the in-range ends of the hole wherever
      the neighbour there has another colour. */
  ghost predicate Guarded(l: seq<Entry>, i: nat, req: Request, a: int)
    requires i < |l|
  {
    var p, q := l[i].block, After(l, i).block;
    var before := if p.color != req.color then GUARD else 0;
    var behind := if q.isAllocated && q.color != req.color then GUARD else 0;
    && Aligned(a, req.alignment)
    && HoleStart(l, i) + before <= a && a + req.size + behind <= HoleEnd(l, i)
    && (req.range.Some? ==> req.range.value.lo + before <= a && a + req.size + behind <= req.range.value.hi)
  }

  lemma PlacementIsGuarded(m: Mm, i: nat, req: Request, a: int)
    requires m.adjust == Some(I915Adjust) && i < |m.list|
    ensures PlacementIn(m, i, req, a) <==> Guarded(m.list, i, req, a)
  {
  }

  /** With this callback an allocation fails exactly when no hole has such a piece. */
  lemma SearchExactByColour(m: Mm, req: Request)
    requires Valid(m) && m.adjust == Some(I915Adjust) && Sensible(req)
    ensures Search(m, req).None? <==> forall i, a :: 0 <= i < |m.list| ==> !Guarded(m.list, i, req, a)
  {
    hide PlacementIn, Guarded, Valid, Search, SoundAdjust, StackExact;
    I915IsSound(m);
    assert StackExact(m.list, m.stack) by { ValidParts(m); }
    SearchExact(m, req);
    forall i, a | 0 <= i < |m.list|
      ensures PlacementIn(m, i, req, a) <==> Guarded(m.list, i, req, a)
    {
      PlacementIsGuarded(m, i, req, a);
    }
  }

  lemma ValidParts(m: Mm)
    requires Valid(m)
    ensures StackExact(m.list, m.stack) && Ordered(m.list) && FlagsExact(m.list) && DistinctNodes(m.list)
  {
  }

  // ---------------------------------------------------------------- the check after binding

  /** i915_gem_valid_gtt_space for the node of entry i */
  predicate ValidSpace(l: seq<Entry>, i: nat, level: nat)
    requires 0 < i < |l|
  {
    && !(l[i - 1].block.isAllocated && !l[i - 1].hole && l[i - 1].block.color != level)
    && !(After(l, i).block.isAllocated && !l[i].hole && After(l, i).block.color != level)
  }

  /** Two allocated neighbours of different colours touch. */
  predicate Clash(p: Entry, q: Entry) {
    p.block.isAllocated && q.block.isAllocated && !p.hole && p.block.color != q.block.color
  }

  ghost predicate ColoursApart(l: seq<Entry>) {
    forall i :: 0 <= i < |l| ==> !Clash(l[i], After(l, i))
  }

  /** Then i915_gem_verify_gtt finds nothing wrong with any bound object. */
  lemma ApartIsValid(l: seq<Entry>, i: nat)
    requires ColoursApart(l) && 0 < i < |l| && l[i].block.isAllocated
    ensures ValidSpace(l, i, l[i].block.color)
  {
    assert !Clash(l[i - 1], After(l, i - 1)) && !Clash(l[i], After(l, i));
  }

  /** The check that follows an insertion never fails, and no node comes to touch one of another colour. */
  lemma InsertKeepsApart(m: Mm, node: Node, req: Request)
    requires Valid(m) && m.adjust == Some(I915Adjust) && Sensible(req) && !Linked(m.list, node)
    requires Search(m, req).Some?
    ensures var i := At(m.list, Search(m, req).value);
            && m.list[i].node in m.stack
            && var l := Insert(m, i, node, req).list;
               && i + 1 < |l| && l[i + 1].node == node && ValidSpace(l, i + 1, req.color)
               && (ColoursApart(m.list) ==> ColoursApart(l))
  {
    hide Valid, Search, StackExact, Placement, PlacementIn, SoundAdjust, Insert;
    ValidParts(m);
    I915IsSound(m);
    InsertValid(m, node, req);
    var i := At(m.list, Search(m, req).value);
    var a := StartIn(m, i, req);
    PlacementIsGuarded(m, i, req, a);
    var m' := Insert(m, i, node, req);
    SpacedFromBoth(m, i, node, req);
    if ColoursApart(m.list) {
      SpliceKeepsApart(m.list, i, m'.list[i].hole, m'.list[i + 1], m'.list);
    }
  }

  /** The new node leaves a gap to each neighbour of another colour. */
  lemma SpacedFromBoth(m: Mm, i: nat, node: Node, req: Request)
    requires i < |m.list| && m.list[i].node in m.stack && m.list[i].hole && Guarded(m.list, i, req, StartIn(m, i, req))
    ensures var l := Insert(m, i, node, req).list;
            && |l| == |m.list| + 1 && ValidSpace(l, i + 1, req.color)
            && l[i + 1].node == node && l[i + 1].block.color == req.color && l[i + 1].block.isAllocated
  {
    hide StartIn;
  }

  lemma SpliceKeepsApart(l: seq<Entry>, i: nat, hole: bool, e: Entry, r: seq<Entry>)
    requires ColoursApart(l) && i < |l| && Spliced(l, i, hole, e, r) && ValidSpace(r, i + 1, e.block.color)
    ensures ColoursApart(r)
  {
    forall k | 0 <= k < |r|
      ensures !Clash(r[k], After(r, k))
    {
      if k < i {
        assert !Clash(l[k], After(l, k));
      } else if k > i + 1 {
        assert !Clash(l[k - 1], After(l, k - 1));
      }
    }
  }

  lemma UnlinkKeepsApart(l: seq<Entry>, i: nat, r: seq<Entry>)
    requires ColoursApart(l) && 0 < i < |l| && Unlinked(l, i, true, r)
    ensures ColoursApart(r)
  {
    forall k | 0 <= k < |r|
      ensures !Clash(r[k], After(r, k))
    {
      if k < i - 1 {
        assert !Clash(l[k], After(l, k));
      } else if k >= i {
        assert !Clash(l[k + 1], After(l, k + 1));
      }
    }
  }

  // ---------------------------------------------------------------- whole runs

  /** What happens to the space of a device: an object is bound or unbound, or its cache level is set. */
  datatype Action = Alloc(op: Op) | SetLevel(node: Node, level: nat)

  ghost predicate Can(m: Mm, a: Action) {
    match a
    case Alloc(op) => Legal(m, op)
    case SetLevel(n, _) => Linked(m.list, n) && At(m.list, n) > 0
  }

  function Recolour(l: seq<Entry>, i: nat, level: nat): seq<Entry>
    requires i < |l|
  {
    l[i := l[i].(block := l[i].block.(color := level))]
  }

  /** i915_gem_object_set_cache_level: an object whose new level does not suit its neighbours is unbound. */
  ghost function Step(m: Mm, a: Action): Mm
    requires Can(m, a)
  {
    match a
    case Alloc(op) => Apply(m, op)
    case SetLevel(n, level) =>
      var i := At(m.list, n);
      if ValidSpace(m.list, i, level) then m.(list := Recolour(m.list, i, level)) else Remove(m, i)
  }

  ghost predicate LegalActions(m: Mm, run: seq<Action>)
    decreases |run|
  {
    run == [] || (Can(m, run[0]) && LegalActions(Step(m, run[0]), run[1..]))
  }

  ghost function Actions(m: Mm, run: seq<Action>): Mm
    requires LegalActions(m, run)
    decreases |run|
  {
    if run == [] then m else Actions(Step(m, run[0]), run[1..])
  }

  lemma RecolourKeeps(m: Mm, i: nat, level: nat)
    requires Valid(m) && ColoursApart(m.list) && 0 < i < |m.list| && ValidSpace(m.list, i, level)
    ensures var m' := m.(list := Recolour(m.list, i, level)); Valid(m') && ColoursApart(m'.list)
  {
    hide StackExact, Ordered, FlagsExact;
    var l, r := m.list, Recolour(m.list, i, level);
    assert forall k :: 0 <= k < |l| ==> r[k].node == l[k].node && r[k].hole == l[k].hole;
    RecolourGeometry(l, i, level);
    RecolourStack(l, r, m.stack);
    forall k | 0 <= k < |r|
      ensures !Clash(r[k], After(r, k))
    {
      if k != i && k != i - 1 {
        assert !Clash(l[k], After(l, k));
      }
    }
  }

  lemma RecolourGeometry(l: seq<Entry>, i: nat, level: nat)
    requires Ordered(l) && FlagsExact(l) && i < |l|
    ensures Ordered(Recolour(l, i, level)) && FlagsExact(Recolour(l, i, level))
  {
    var r := Recolour(l, i, level);
    assert forall k :: 0 <= k < |l| ==>
             r[k].block.start == l[k].block.start && r[k].block.size == l[k].block.size && r[k].hole == l[k].hole;
    forall k | 0 <= k < |r|
      ensures r[k].hole <==> HoleStart(r, k) < HoleEnd(r, k)
    {
      assert HoleStart(r, k) == HoleStart(l, k) && HoleEnd(r, k) == HoleEnd(l, k);
    }
  }

  lemma RecolourStack(l: seq<Entry>, r: seq<Entry>, stack: seq<Node>)
    requires StackExact(l, stack) && DistinctNodes(l) && |r| == |l|
    requires forall k :: 0 <= k < |l| ==> r[k].node == l[k].node && r[k].hole == l[k].hole
    ensures StackExact(r, stack) && DistinctNodes(r)
  {
    forall k | 0 <= k < |stack|
      ensures Linked(r, stack[k]) && r[At(r, stack[k])].hole
    {
      var i := At(l, stack[k]);
      assert r[i].node == stack[k];
      AtIs(r, i);
    }
  }

  lemma StepKeepsApart(m: Mm, a: Action)
    requires Valid(m) && m.adjust == Some(I915Adjust) && ColoursApart(m.list) && Can(m, a)
    ensures var m' := Step(m, a); Valid(m') && m'.adjust == m.adjust && ColoursApart(m'.list)
  {
    hide Valid, ColoursApart, Insert, Remove, Search, SoundAdjust, Placement, PlacementIn, ValidSpace;
    I915IsSound(m);
    match a {
      case Alloc(InsertOp(n, req)) =>
        if Search(m, req).Some? {
          InsertValid(m, n, req);
          InsertKeepsApart(m, n, req);
          SameAdjust(m, At(m.list, Search(m, req).value), n, req);
        }
      case Alloc(RemoveOp(n)) =>
        RemoveValid(m, At(m.list, n));
        UnlinkKeepsApart(m.list, At(m.list, n), Remove(m, At(m.list, n)).list);
      case SetLevel(n, level) =>
        var i := At(m.list, n);
        if ValidSpace(m.list, i, level) {
          RecolourKeeps(m, i, level);
        } else {
          RemoveValid(m, i);
          UnlinkKeepsApart(m.list, i, Remove(m, i).list);
        }
    }
  }

  lemma SameAdjust(m: Mm, i: nat, node: Node, req: Request)
    requires i < |m.list| && m.list[i].node in m.stack
    ensures Insert(m, i, node, req).adjust == m.adjust
  {
  }

  /** However objects are bound, unbound and given new cache levels: no two neighbours of different colours
      touch, so every object of the device passes the check. */
  lemma {:induction false} RunKeepsApart(m: Mm, run: seq<Action>)
    requires Valid(m) && m.adjust == Some(I915Adjust) && ColoursApart(m.list) && LegalActions(m, run)
    ensures var m' := Actions(m, run);
            && Valid(m') && ColoursApart(m'.list)
            && forall i :: 0 < i < |m'.list| && m'.list[i].block.isAllocated ==>
                 ValidSpace(m'.list, i, m'.list[i].block.color)
    decreases |run|
  {
    hide Valid, ColoursApart, Step, Can, ValidSpace;
    if run == [] {
      forall i | 0 < i < |m.list| && m.list[i].block.isAllocated
        ensures ValidSpace(m.list, i, m.list[i].block.color)
      {
        ApartIsValid(m.list, i);
      }
    } else {
      StepKeepsApart(m, run[0]);
      RunKeepsApart(Step(m, run[0]), run[1..]);
    }
  }

  lemma InitApart(head: Node, start: int, size: int)
    ensures ColoursApart(Init(head, start, size, Some(I915Adjust)).list)
  {
  }
}
