/** The eviction scan: unlinking nodes to ask what would become free, relinking them last-in
    first-out, and evicting those that lie in the hole that was found. */
module MmScan {
  import opened Lists
  import opened MmModel
  import opened MmAllocation

  /** What a scanned node remembers: its entry, the node that preceded it when it was unlinked, and
      that node's hole_follows flag. */
  datatype Saved = Saved(entry: Entry, link: Node, preceeds: bool)

  datatype Scan = Scan(m: Mm, saved: seq<Saved>, req: Request, hitStart: int, hitEnd: int)

  function InitScan(m: Mm, req: Request): Scan {
    Scan(m, [], req, 0, 0)
  }

  function Unlink(l: seq<Entry>, i: nat): seq<Entry>
    requires 0 < i < |l|
  {
    l[..i - 1] + [l[i - 1].(hole := true)] + l[i + 1..]
  }

  /** Unlink entry i and report whether the gap this opens would do. */
  function AddBlock(s: Scan, i: nat): (Scan, bool)
    requires 0 < i < |s.m.list|
  {
    var p, list := s.m.list[i - 1], Unlink(s.m.list, i);
    var q := After(list, i - 1).block;
    var (start, end) := Usable(s.m.adjust, p.block, q, s.req);
    var s' := s.(m := s.m.(list := list), saved := s.saved + [Saved(s.m.list[i], p.node, p.hole)]);
    if CheckFreeHole(start, end, s.req.size, s.req.alignment) then
      (s'.(hitStart := p.block.End(), hitEnd := q.start), true)
    else
      (s', false)
  }

  /** Link the node again behind its remembered predecessor.  A predecessor that is itself unlinked
      leaves the node unreachable. */
  ghost function Relink(l: seq<Entry>, v: Saved): seq<Entry> {
    if Linked(l, v.link) then
      var i := At(l, v.link);
      l[..i] + [l[i].(hole := v.preceeds), v.entry] + l[i + 1..]
    else l
  }

  /** The test made of a node once it is linked again as entry i. */
  predicate EvictTest(l: seq<Entry>, i: nat, hitStart: int, hitEnd: int)
    requires i < |l|
  {
    HoleEnd(l, i) > hitStart && l[i].block.start < hitEnd
  }

  /** Relink the k-th scanned node and say whether it is to be evicted. */
  ghost function RemoveBlockAt(s: Scan, k: nat): (Scan, bool)
    requires k < |s.saved| && Linked(s.m.list, s.saved[k].link)
  {
    var v := s.saved[k];
    var list := Relink(s.m.list, v);
    (s.(m := s.m.(list := list), saved := s.saved[..k] + s.saved[k + 1..]),
     EvictTest(list, At(s.m.list, v.link) + 1, s.hitStart, s.hitEnd))
  }

  /** Relink the node scanned last. */
  ghost function RemoveBlock(s: Scan): (Scan, bool)
    requires |s.saved| > 0 && Linked(s.m.list, s.saved[|s.saved| - 1].link)
  {
    var v := s.saved[|s.saved| - 1];
    var list := Relink(s.m.list, v);
    (s.(m := s.m.(list := list), saved := s.saved[..|s.saved| - 1]),
     EvictTest(list, At(s.m.list, v.link) + 1, s.hitStart, s.hitEnd))
  }

  lemma LastIsRemoved(s: Scan)
    requires |s.saved| > 0 && Linked(s.m.list, s.saved[|s.saved| - 1].link)
    ensures RemoveBlock(s) == RemoveBlockAt(s, |s.saved| - 1)
  {
    var k := |s.saved| - 1;
    assert s.saved[..k] + s.saved[k + 1..] == s.saved[..k];
  }

  // ---------------------------------------------------------------- the scan is an exact undo

  /** l arises from the well-formed list l0 by scanning the node that v remembers. */
  ghost predicate ScannedFrom(l0: seq<Entry>, v: Saved, l: seq<Entry>) {
    exists i :: 0 < i < |l0| && Unlinked(l0, i, true, l) && v == Saved(l0[i], l0[i - 1].node, l0[i - 1].hole)
  }

  /** Relinking the saved nodes, last one first, passes through well-formed lists down to `origin`. */
  ghost predicate Unwinds(l: seq<Entry>, saved: seq<Saved>, origin: seq<Entry>)
    decreases |saved|
  {
    && Ordered(l) && DistinctNodes(l)
    && if saved == [] then l == origin
       else
         var v, rest := saved[|saved| - 1], saved[..|saved| - 1];
         ScannedFrom(Relink(l, v), v, l) && Unwinds(Relink(l, v), rest, origin)
  }

  lemma RelinkUndoes(l0: seq<Entry>, i: nat, l: seq<Entry>)
    requires DistinctNodes(l0) && 0 < i < |l0| && Unlinked(l0, i, true, l)
    ensures var v := Saved(l0[i], l0[i - 1].node, l0[i - 1].hole);
            Linked(l, v.link) && At(l, v.link) == i - 1 && Relink(l, v) == l0
  {
    UnlinkDistinct(l0, i, true, l);
    AtIs(l, i - 1);
    var r := Relink(l, Saved(l0[i], l0[i - 1].node, l0[i - 1].hole));
    forall k | 0 <= k < |l0|
      ensures r[k] == l0[k]
    {
    }
  }

  lemma UnlinkIsUnlinked(l: seq<Entry>, i: nat)
    requires 0 < i < |l|
    ensures Unlinked(l, i, true, Unlink(l, i))
  {
  }

  /** Scanning one more node keeps the way back to the original list. */
  lemma AddKeepsUnwind(s: Scan, i: nat, origin: seq<Entry>)
    requires Unwinds(s.m.list, s.saved, origin) && 0 < i < |s.m.list|
    ensures var s' := AddBlock(s, i).0; Unwinds(s'.m.list, s'.saved, origin)
  {
    hide Ordered, DistinctNodes, Unlinked, Relink, Linked, At;
    var s' := AddBlock(s, i).0;
    UnlinkIsUnlinked(s.m.list, i);
    UnlinkOrdered(s.m.list, i, true, s'.m.list);
    UnlinkDistinct(s.m.list, i, true, s'.m.list);
    RelinkUndoes(s.m.list, i, s'.m.list);
    assert s'.saved[..|s.saved|] == s.saved;
  }

  /** The list before the last scan, and the position its node had there. */
  lemma LastScanned(s: Scan, origin: seq<Entry>) returns (l0: seq<Entry>, i: nat)
    requires Unwinds(s.m.list, s.saved, origin) && |s.saved| > 0
    ensures 0 < i < |l0| && Unlinked(l0, i, true, s.m.list) && l0[i] == s.saved[|s.saved| - 1].entry
    ensures Linked(s.m.list, s.saved[|s.saved| - 1].link)
    ensures Ordered(l0) && Unwinds(l0, s.saved[..|s.saved| - 1], origin)
    ensures RemoveBlock(s).0 == s.(m := s.m.(list := l0), saved := s.saved[..|s.saved| - 1])
    ensures RemoveBlock(s).1 <==> EvictTest(l0, i, s.hitStart, s.hitEnd)
  {
    hide Ordered, Unlinked;
    var v := s.saved[|s.saved| - 1];
    l0 := Relink(s.m.list, v);
    i :| 0 < i < |l0| && Unlinked(l0, i, true, s.m.list) && v == Saved(l0[i], l0[i - 1].node, l0[i - 1].hole);
    RelinkUndoes(l0, i, s.m.list);
  }

  /** Removing the node scanned last goes one step back. */
  lemma RemoveKeepsUnwind(s: Scan, origin: seq<Entry>)
    requires Unwinds(s.m.list, s.saved, origin) && |s.saved| > 0
    ensures Linked(s.m.list, s.saved[|s.saved| - 1].link)
    ensures var s' := RemoveBlock(s).0; Unwinds(s'.m.list, s'.saved, origin)
  {
    var l0, i := LastScanned(s, origin);
  }

  /** A run of the protocol: scan the node at some position, or unscan the latest one. */
  datatype ScanOp = AddAt(i: nat) | RemoveLast

  ghost predicate LegalScan(s: Scan, op: ScanOp) {
    match op
    case AddAt(i) => 0 < i < |s.m.list|
    case RemoveLast => |s.saved| > 0
  }

  ghost function ScanStep(s: Scan, op: ScanOp): Scan {
    match op
    case AddAt(i) => if 0 < i < |s.m.list| then AddBlock(s, i).0 else s
    case RemoveLast =>
      if |s.saved| > 0 && Linked(s.m.list, s.saved[|s.saved| - 1].link) then RemoveBlock(s).0 else s
  }

  ghost function ScanRun(s: Scan, ops: seq<ScanOp>): Scan
    decreases |ops|
  {
    if ops == [] then s else ScanRun(ScanStep(s, ops[0]), ops[1..])
  }

  ghost predicate LegalScanRun(s: Scan, ops: seq<ScanOp>)
    decreases |ops|
  {
    ops == [] || (LegalScan(s, ops[0]) && LegalScanRun(ScanStep(s, ops[0]), ops[1..]))
  }

  /** Whatever is scanned and unscanned in last-in first-out order: once nothing is scanned any
      more, the whole manager (node list, every hole_follows flag, stack of holes) is as before. */
  lemma {:induction false} ScanIsExactUndo(m: Mm, req: Request, ops: seq<ScanOp>)
    requires Valid(m) && LegalScanRun(InitScan(m, req), ops)
    ensures var s := ScanRun(InitScan(m, req), ops);
            Unwinds(s.m.list, s.saved, m.list) && (s.saved == [] ==> s.m == m)
  {
    ScanRunUnwinds(InitScan(m, req), ops, m);
  }

  lemma ScanStepUnwinds(s: Scan, op: ScanOp, origin: seq<Entry>)
    requires Unwinds(s.m.list, s.saved, origin) && LegalScan(s, op)
    ensures var r := ScanStep(s, op);
            Unwinds(r.m.list, r.saved, origin) && r.m.stack == s.m.stack && r.m.adjust == s.m.adjust
  {
    hide Unwinds, Linked, At, Relink;
    match op {
      case AddAt(i) => AddKeepsUnwind(s, i, origin);
      case RemoveLast => RemoveKeepsUnwind(s, origin);
    }
  }

  lemma {:induction false} ScanRunUnwinds(s: Scan, ops: seq<ScanOp>, m: Mm)
    requires Unwinds(s.m.list, s.saved, m.list) && s.m.stack == m.stack && s.m.adjust == m.adjust
    requires LegalScanRun(s, ops)
    ensures var r := ScanRun(s, ops);
            Unwinds(r.m.list, r.saved, m.list) && r.m.stack == m.stack && r.m.adjust == m.adjust
    decreases |ops|
  {
    if ops != [] {
      ScanStepUnwinds(s, ops[0], m.list);
      ScanRunUnwinds(ScanStep(s, ops[0]), ops[1..], m);
    }
  }

  // ---------------------------------------------------------------- which nodes are evicted

  function EntryAt(l: seq<Entry>, b: nat): Entry
    requires |l| > 0
  {
    if b < |l| then l[b] else l[0]
  }

  /** Entry a of l carries block p, and q starts right where entry b does (b == |l|: the sentinel). */
  ghost predicate EdgesAt(l: seq<Entry>, a: nat, b: nat, n: Node, p: Block, q: Block) {
    a < b <= |l| && l[a].node == n && l[a].block == p && EntryAt(l, b).block == q
  }

  /** The node n with block p, and somewhere behind it a node with block q, are linked. */
  ghost predicate Edges(l: seq<Entry>, n: Node, p: Block, q: Block) {
    exists a: nat, b: nat :: EdgesAt(l, a, b, n, p, q)
  }

  predicate Inside(b: Block, p: Block, q: Block) {
    p.End() <= b.start && b.End() <= q.start
  }

  lemma InsideIffBetween(l: seq<Entry>, a: nat, b: nat, n: Node, p: Block, q: Block, i: nat)
    requires Ordered(l) && EdgesAt(l, a, b, n, p, q) && 0 < i < |l|
    ensures Inside(l[i].block, p, q) <==> a < i < b
  {
  }

  /** The test picks exactly the nodes strictly between the two neighbours of the hole found. */
  lemma EvictTestExact(l: seq<Entry>, a: nat, b: nat, n: Node, p: Block, q: Block, i: nat)
    requires Ordered(l) && EdgesAt(l, a, b, n, p, q) && 0 < i < |l| && i != a
    ensures EvictTest(l, i, p.End(), q.start) <==> a < i < b
  {
    GapBounds(l, i);
    assert i < a ==> HoleEnd(l, i) <= l[a].block.start;
    assert b < i ==> l[b].block.End() <= l[i].block.start;
    assert i < b < |l| ==> l[i].block.End() <= l[b].block.start;
    assert a < i && 0 < a ==> l[a].block.End() <= l[i].block.start;
  }

  /** Linked nodes stay linked, in order, when a scanned node comes back. */
  lemma EdgesRelinked(l0: seq<Entry>, i: nat, l: seq<Entry>, a: nat, b: nat, n: Node, p: Block, q: Block)
    requires 0 < i < |l0| && Unlinked(l0, i, true, l) && EdgesAt(l, a, b, n, p, q)
    ensures EdgesAt(l0, if a < i then a else a + 1, if b < i then b else b + 1, n, p, q)
  {
  }

  /** Unscanning after a hit: the answer is whether the node lies inside the hole found. */
  lemma RemoveAnswers(s: Scan, origin: seq<Entry>, n: Node, p: Block, q: Block)
    requires Unwinds(s.m.list, s.saved, origin) && |s.saved| > 0
    requires Edges(s.m.list, n, p, q) && s.hitStart == p.End() && s.hitEnd == q.start
    ensures Linked(s.m.list, s.saved[|s.saved| - 1].link)
    ensures RemoveBlock(s).1 <==> Inside(s.saved[|s.saved| - 1].entry.block, p, q)
    ensures Edges(RemoveBlock(s).0.m.list, n, p, q)
  {
    var l0, i := LastScanned(s, origin);
    var a: nat, b: nat :| EdgesAt(s.m.list, a, b, n, p, q);
    EdgesRelinked(l0, i, s.m.list, a, b, n, p, q);
    var a0, b0 := if a < i then a else a + 1, if b < i then b else b + 1;
    EvictTestExact(l0, a0, b0, n, p, q, i);
    InsideIffBetween(l0, a0, b0, n, p, q, i);
  }

  /** With no hit every answer is 0, so the caller's BUG_ON cannot fire. */
  lemma NoHitNoEviction(s: Scan, origin: seq<Entry>)
    requires Unwinds(s.m.list, s.saved, origin) && |s.saved| > 0
    requires s.hitStart == 0 && s.hitEnd == 0
    ensures Linked(s.m.list, s.saved[|s.saved| - 1].link)
    ensures !RemoveBlock(s).1
  {
    var l0, i := LastScanned(s, origin);
    assert l0[i].block.start >= 0;
  }

  /** At a hit, the neighbours of the hole are linked side by side. */
  lemma HitEdges(s: Scan, i: nat)
    requires 0 < i < |s.m.list| && AddBlock(s, i).1 && s.req.size > 0
    ensures var r := AddBlock(s, i).0; var p := s.m.list[i - 1];
            var q := After(r.m.list, i - 1).block;
            && EdgesAt(r.m.list, i - 1, i, p.node, p.block, q)
            && r.hitStart == p.block.End() && r.hitEnd == q.start
            && HoleFits(s.m.adjust, p.block, q, s.req)
  {
    UnlinkIsUnlinked(s.m.list, i);
  }

  ghost predicate HasPlacement(adjust: Option<ColorAdjust>, p: Block, q: Block, req: Request) {
    exists a :: InGap(adjust, p, q, req, a)
  }

  /** A node hits exactly when the gap it leaves has a placement, by the same standard as a search. */
  lemma HitExact(s: Scan, i: nat)
    requires 0 < i < |s.m.list| && s.req.size > 0
    ensures AddBlock(s, i).1 <==> HasPlacement(s.m.adjust, s.m.list[i - 1].block, After(s.m.list, i).block, s.req)
  {
    hide Usable, CheckFreeHole, InGap;
    var p, q, list := s.m.list[i - 1].block, After(s.m.list, i).block, Unlink(s.m.list, i);
    assert After(list, i - 1).block == q;
    GapExact(s.m.adjust, p, q, s.req);
    if a :| InGap(s.m.adjust, p, q, s.req, a) {
      assert HasPlacement(s.m.adjust, p, q, s.req);
    }
  }
}
