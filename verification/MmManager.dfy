/** The range allocator in place: node fields, the node list and the stack of holes are relinked by
    each call; every method is tied to the value it computes. */
module MmManager {
  import opened Lists
  import opened MmModel
  import opened MmAllocation
  import opened MmBestFit
  import opened MmScan

  const ENOSPC := 28

  function EntryOf(n: Node): Entry
    reads n
  {
    Entry(n, Block(n.start, n.size, n.color, n.isAllocated), n.holeFollows)
  }

  ghost function Entries(ns: seq<Node>): (l: seq<Entry>)
    reads ns
    ensures |l| == |ns| && forall k :: 0 <= k < |l| ==> l[k] == EntryOf(ns[k])
  {
    if ns == [] then [] else [EntryOf(ns[0])] + Entries(ns[1..])
  }

  /** What the unlinked nodes remember, in the order in which they were scanned. */
  ghost function SavedOf(ns: seq<Node>): (v: seq<Saved>)
    requires forall k :: 0 <= k < |ns| ==> ns[k].prevLink != null
    reads ns
    ensures |v| == |ns|
    ensures forall k :: 0 <= k < |v| ==> v[k] == Saved(EntryOf(ns[k]), ns[k].prevLink, ns[k].scannedPreceedsHole)
  {
    if ns == [] then []
    else [Saved(EntryOf(ns[0]), ns[0].prevLink, ns[0].scannedPreceedsHole)] + SavedOf(ns[1..])
  }

  /** The list and the stack that an insertion leaves, entry by entry. */
  lemma InsertIs(m: Mm, i: nat, node: Node, req: Request, l: seq<Entry>, stack: seq<Node>)
    requires i < |m.list| && m.list[i].node in m.stack
    requires var start := StartIn(m, i, req);
             var filled, follows := start == HoleStart(m.list, i), start + req.size < HoleEnd(m.list, i);
             && Spliced(m.list, i, !filled && m.list[i].hole,
                        Entry(node, Block(start, req.size, req.color, true), follows), l)
             && (var rest := if filled then Delete(m.stack, m.list[i].node) else m.stack;
                 stack == if follows then [node] + rest else rest)
    ensures Mm(l, stack, m.adjust) == Insert(m, i, node, req)
  {
    assert l == Insert(m, i, node, req).list;
  }

  /** The search from the k-th hole of the stack on. */
  ghost function SearchFrom(m: Mm, k: nat, req: Request): Option<Node>
    requires StackExact(m.list, m.stack) && k <= |m.stack|
  {
    SearchIn(m, m.stack[k..], req)
  }

  lemma SearchFromStart(m: Mm, req: Request)
    requires StackExact(m.list, m.stack)
    ensures SearchFrom(m, 0, req) == Search(m, req)
  {
    assert m.stack[0..] == m.stack;
  }

  lemma SearchStep(m: Mm, k: nat, req: Request)
    requires StackExact(m.list, m.stack) && k <= |m.stack|
    ensures k == |m.stack| ==> SearchFrom(m, k, req) == None
    ensures k < |m.stack| ==>
              Linked(m.list, m.stack[k]) &&
              SearchFrom(m, k, req)
               == if Fits(m, At(m.list, m.stack[k]), req) then Some(m.stack[k]) else SearchFrom(m, k + 1, req)
  {
    if k < |m.stack| {
      assert m.stack[k..][1..] == m.stack[k + 1..];
    }
  }

  class Manager {
    var nodes: seq<Node>          // node_list from head_node on
    var holes: seq<Node>          // hole_stack
    var adjust: Option<ColorAdjust>
    var scanRequest: Request      // scan_size, scan_alignment, scan_color, scan_start, scan_end
    var scanHitStart: int
    var scanHitEnd: int
    var scannedBlocks: nat
    ghost var scanned: seq<Node>  // the unlinked nodes, oldest first

    /** Linked and scanned nodes are separate objects, and only the latter are flagged. */
    ghost predicate Separate()
      reads this`nodes, this`scanned, this`scannedBlocks, nodes, scanned
    {
      && |nodes| > 0 && Distinct(nodes) && Distinct(scanned)
      && (forall i, k :: 0 <= i < |nodes| && 0 <= k < |scanned| ==> nodes[i] != scanned[k])
      && (forall i :: 0 <= i < |nodes| ==> !nodes[i].scannedBlock)
      && (forall k :: 0 <= k < |scanned| ==> scanned[k].scannedBlock && scanned[k].prevLink != null)
      && scannedBlocks == |scanned|
    }

    ghost function View(): (m: Mm)
      reads this`nodes, this`holes, this`adjust, nodes
      ensures |m.list| == |nodes|
    {
      Mm(Entries(nodes), holes, adjust)
    }

    ghost function ScanView(): Scan
      requires Separate()
      reads this, nodes, scanned
    {
      Scan(View(), SavedOf(scanned), scanRequest, scanHitStart, scanHitEnd)
    }

    /** drm_mm_init */
    constructor (start: int, size: int)
      requires start >= 0 && size > 0
      ensures Separate() && scanned == [] && fresh(nodes)
      ensures View() == Init(nodes[0], start, size, None) && Valid(View())
    {
      var head := new Node();
      head.start := start + size;
      head.size := start - head.start;
      head.holeFollows := true;
      nodes, holes, adjust := [head], [head], None;
      scanRequest, scanHitStart, scanHitEnd, scannedBlocks, scanned := Request(0, 0, 0, None), 0, 0, 0, [];
      new;
      hide Valid;
      InitValid(head, start, size, None);
      assert View().list == Init(nodes[0], start, size, None).list;
    }

    /** A node's place in the list of entries is its place in node_list. */
    lemma AtIsPos(n: Node)
      requires Separate() && n in nodes
      ensures Linked(View().list, n) && At(View().list, n) == Pos(nodes, n)
      ensures DistinctNodes(View().list)
    {
      assert forall i :: 0 <= i < |nodes| ==> View().list[i].node == nodes[i];
      AtIs(View().list, Pos(nodes, n));
    }

    lemma LinkedIsIn(n: Node)
      ensures Linked(View().list, n) <==> n in nodes
    {
      assert forall i :: 0 <= i < |nodes| ==> View().list[i].node == nodes[i];
      if n in nodes {
        assert View().list[Pos(nodes, n)].node == n;
      }
    }

    /** drm_mm_search_free(_in_range)_generic */
    method SearchFree(req: Request, bestMatch: bool) returns (r: Node?)
      requires Separate() && Valid(View()) && scanned == []
      ensures !bestMatch ==> r == match Search(View(), req) case None => null case Some(n) => n
      ensures bestMatch ==> StackExact(View().list, View().stack) && Best(View(), req, |holes|, r)
    {
      hide Valid, Separate, StackExact, SearchIn, SearchFrom, Search, Linked, At, Pos, Fits, HoleFits, After, Entries,
           Best;
      NothingScanned();
      ValidStack(View());
      SearchFromStart(View(), req);
      BestStarts(View(), req);
      r := null;
      var bestSize := ULONG - 1;
      var k := 0;
      while k < |holes|
        invariant 0 <= k <= |holes|
        invariant !bestMatch ==> r == null && SearchFrom(View(), k, req) == Search(View(), req)
        invariant bestMatch ==> Best(View(), req, k, r) && (r != null ==> Linked(View().list, r))
        invariant bestMatch ==> bestSize == BestSize(View(), r)
      {
        StackEntry(k, req);
        SearchStep(View(), k, req);
        var entry := holes[k];
        var i := Pos(nodes, entry);
        var next := if i + 1 < |nodes| then nodes[i + 1] else nodes[0];
        assert entry.holeFollows;
        if bestMatch {
          BestStep(View(), req, k, r);
        }
        if HoleFits(adjust, EntryOf(entry).block, EntryOf(next).block, req) {
          if !bestMatch {
            return entry;
          }
          if StoredSize(EntryOf(entry).block) < bestSize {
            r, bestSize := entry, StoredSize(EntryOf(entry).block);
          }
        }
        k := k + 1;
      }
      SearchStep(View(), k, req);
    }

    /** The search's BUG_ON: no scan is under way. */
    lemma NothingScanned()
      requires Separate() && scanned == []
      ensures scannedBlocks == 0
    {
    }

    lemma StackEntry(k: nat, req: Request)
      requires Separate() && Valid(View()) && k < |holes|
      ensures StackExact(View().list, holes) && View().adjust == adjust
      ensures var n := holes[k];
              && n in nodes && n.holeFollows && Linked(View().list, n) && At(View().list, n) == Pos(nodes, n)
              && var i := Pos(nodes, n);
                 && View().list[i] == EntryOf(n)
                 && After(View().list, i) == EntryOf(if i + 1 < |nodes| then nodes[i + 1] else nodes[0])
                 && (Fits(View(), i, req) <==>
                       HoleFits(adjust, EntryOf(n).block,
                                 EntryOf(if i + 1 < |nodes| then nodes[i + 1] else nodes[0]).block, req))
    {
      assert StackExact(View().list, holes);
      hide Ordered, FlagsExact, DistinctNodes;
      var n := holes[k];
      assert Linked(View().list, n);
      LinkedIsIn(n);
      AtIsPos(n);
    }

    /** drm_mm_insert_helper(_range): place `node` in the hole behind `hole`, the i-th node. */
    method InsertHelper(hole: Node, node: Node, req: Request, ghost i: nat)
      requires i < |nodes| && hole == nodes[i] && Distinct(nodes) && node !in nodes
      requires hole.holeFollows && hole in holes && !node.isAllocated
      requires PlacementIn(View(), i, req, StartIn(View(), i, req))
      modifies this`nodes, this`holes, hole`holeFollows
      modifies node`start, node`size, node`color, node`isAllocated, node`holeFollows
      ensures nodes == old(nodes[..i + 1] + [node] + nodes[i + 1..])
      ensures var start, end := old(StartIn(View(), i, req)), old(HoleEnd(View().list, i));
              && hole.holeFollows == (start != old(HoleStart(View().list, i)))
              && EntryOf(node) == Entry(node, Block(start, req.size, req.color, true), start + req.size < end)
              && (var rest := if hole.holeFollows then old(holes) else Delete(old(holes), hole);
                  holes == if node.holeFollows then [node] + rest else rest)
    {
      hide Pos, Delete, HoleFits, CheckFreeHole, Entries, AlignUp, Usable, Aligned, InGap;
      assert Pos(nodes, hole) == i;
      var pos := Pos(nodes, hole);
      var next := EntryOf(if pos + 1 < |nodes| then nodes[pos + 1] else nodes[0]).block;
      assert next == After(View().list, i).block;
      var holeStart, holeEnd := hole.start + hole.size, next.start;
      var adj := Usable(adjust, EntryOf(hole).block, next, req);
      var adjStart, adjEnd := AlignUp(adj.0, req.alignment), adj.1;
      UsableIsGap(adjust, EntryOf(hole).block, next, req, adjStart);
      assert hole.holeFollows && !node.isAllocated;
      if adjStart == holeStart {
        hole.holeFollows := false;
        holes := Delete(holes, hole);
      }
      node.start, node.size, node.color, node.isAllocated := adjStart, req.size, req.color, true;
      nodes := nodes[..pos + 1] + [node] + nodes[pos + 1..];
      assert node.start + node.size <= adjEnd;
      node.holeFollows := false;
      if node.start + node.size < holeEnd {
        holes := [node] + holes;
        node.holeFollows := true;
      }
    }

    method InsertBehind(hole: Node, node: Node, req: Request, ghost i: nat)
      requires i < |nodes| && hole == nodes[i] && Separate() && node !in nodes
      requires hole.holeFollows && hole in holes && !node.isAllocated && !node.scannedBlock
      requires PlacementIn(View(), i, req, StartIn(View(), i, req)) && scanned == []
      modifies this`nodes, this`holes, hole`holeFollows
      modifies node`start, node`size, node`color, node`isAllocated, node`holeFollows
      ensures node in nodes && Separate()
      ensures View() == Insert(old(View()), i, node, req)
    {
      hide Insert, StartIn, PlacementIn, Entries, Delete;
      ghost var ns, m := nodes, View();
      InsertHelper(hole, node, req, i);
      NodesSpliced(ns, i, node);
      assert nodes[i + 1] == node;
      forall k | 0 <= k < |nodes|
        ensures k < i ==> View().list[k] == m.list[k]
        ensures k > i + 1 ==> View().list[k] == m.list[k - 1]
        ensures !nodes[k].scannedBlock
      {
        if k < i {
          assert nodes[k] == ns[k] && nodes[k] != hole && nodes[k] != node;
        } else if k > i + 1 {
          assert nodes[k] == ns[k - 1] && nodes[k] != hole && nodes[k] != node;
        }
      }
      assert Separate();
      hide Separate, Distinct;
      InsertIs(m, i, node, req, View().list, holes);
    }

    /** drm_mm_insert_node(_in_range)_generic */
    method InsertNode(node: Node, req: Request) returns (ret: int)
      requires Separate() && Valid(View()) && scanned == [] && SoundAdjust(adjust) && Sensible(req)
      requires node !in nodes && !node.isAllocated && !node.scannedBlock
      modifies this`nodes, this`holes, nodes, node
      ensures Separate() && Valid(View()) && adjust == old(adjust)
      ensures ret == if old(Search(View(), req)).None? then -ENOSPC else 0
      ensures old(Legal(View(), InsertOp(node, req))) && View() == Apply(old(View()), InsertOp(node, req))
      ensures if ret == 0 then node in nodes else nodes == old(nodes) && unchanged(node) && View() == old(View())
    {
      hide Valid, Insert, StartIn, PlacementIn, Search, StackExact, Entries, Apply, Legal, Linked, At, Separate,
           Distinct;
      InsertIsLegal(node, req);
      var hole := SearchFree(req, false);
      if hole == null {
        ret := -ENOSPC;
      } else {
        ghost var i := ReadyToInsert(hole, node, req);
        InsertBehind(hole, node, req, i);
        ret := 0;
      }
    }

    lemma NodesSpliced(ns: seq<Node>, i: nat, node: Node)
      requires i < |ns| && Distinct(ns) && node !in ns
      ensures Distinct(ns[..i + 1] + [node] + ns[i + 1..])
    {
    }

    lemma InsertIsLegal(node: Node, req: Request)
      requires Separate() && Valid(View()) && Sensible(req) && node !in nodes
      ensures Legal(View(), InsertOp(node, req))
      ensures Search(View(), req).None? ==> Apply(View(), InsertOp(node, req)) == View()
    {
      LinkedIsIn(node);
      ValidStack(View());
    }

    lemma ReadyToInsert(hole: Node, node: Node, req: Request) returns (i: nat)
      requires Separate() && Valid(View()) && scanned == [] && SoundAdjust(adjust) && Sensible(req)
      requires node !in nodes && Search(View(), req) == Some(hole)
      ensures i < |nodes| && hole == nodes[i] && i == At(View().list, hole) && hole in holes && hole.holeFollows
      ensures PlacementIn(View(), i, req, StartIn(View(), i, req))
      ensures Valid(Insert(View(), i, node, req))
      ensures Legal(View(), InsertOp(node, req)) && Apply(View(), InsertOp(node, req)) == Insert(View(), i, node, req)
    {
      LinkedIsIn(node);
      InsertValid(View(), node, req);
      StackEntry(Pos(holes, hole), req);
      i := Pos(nodes, hole);
    }

    /** drm_mm_remove_node */
    method RemoveNode(node: Node)
      requires Separate() && Valid(View()) && scanned == [] && node in nodes && node != nodes[0]
      modifies this`nodes, this`holes, nodes
      ensures Separate() && Valid(View()) && adjust == old(adjust)
      ensures old(Legal(View(), RemoveOp(node))) && View() == Apply(old(View()), RemoveOp(node))
      ensures !node.isAllocated && nodes == old(nodes[..Pos(nodes, node)] + nodes[Pos(nodes, node) + 1..])
    {
      RemovalFacts(node);
      var i := Pos(nodes, node);
      var prev := nodes[i - 1];
      var next := if i + 1 < |nodes| then nodes[i + 1] else nodes[0];
      hide Valid, Remove, Apply, Legal, Linked, At, Entries, Pos;
      Unsplice(node, prev, next, i);
    }

    /** The field updates of a removal. */
    method Unsplice(node: Node, prev: Node, next: Node, i: nat)
      requires 0 < i < |nodes| && Separate() && node == nodes[i] && prev == nodes[i - 1]
      requires scanned == [] && next == if i + 1 < |nodes| then nodes[i + 1] else nodes[0]
      requires node.holeFollows <==> node.start + node.size != next.start
      requires StackHolds(node, prev)
      modifies this`nodes, this`holes, prev`holeFollows, node`isAllocated
      ensures nodes == old(nodes[..i] + nodes[i + 1..]) && Separate() && !node.isAllocated
      ensures View() == Remove(old(View()), i)
    {
      hide Entries, Delete, Remove, Unstack;
      ghost var ns, m := nodes, View();
      assert !node.scannedBlock;
      TakeOffStack(node, prev, next);
      nodes := nodes[..i] + nodes[i + 1..];
      node.isAllocated := false;
      NodesCut(ns, i);
      forall k | 0 <= k < |nodes|
        ensures k != i - 1 ==> View().list[k] == m.list[if k < i then k else k + 1]
        ensures !nodes[k].scannedBlock
      {
        assert nodes[k] == ns[if k < i then k else k + 1];
        assert k != i - 1 ==> nodes[k] != node && nodes[k] != prev;
      }
      assert Separate();
      hide Separate, Distinct;
      RemoveIs(m, i, View().list, holes);
    }

    /** The removed node's hole joins its predecessor's, which moves to the top of the stack. */
    method TakeOffStack(node: Node, prev: Node, next: Node)
      requires node != prev && StackHolds(node, prev)
      requires node.holeFollows <==> node.start + node.size != next.start
      modifies this`holes, prev`holeFollows
      ensures prev.holeFollows
      ensures holes == [prev] + Unstack(Unstack(old(holes), EntryOf(node)), old(EntryOf(prev)))
    {
      hide Delete;
      if node.holeFollows {
        assert node.start + node.size != next.start;
        holes := Delete(holes, node);
      } else {
        assert node.start + node.size == next.start;
      }
      if !prev.holeFollows {
        prev.holeFollows := true;
        holes := [prev] + holes;
      } else {
        holes := [prev] + Delete(holes, prev);
      }
    }

    lemma NodesCut(ns: seq<Node>, i: nat)
      requires i < |ns| && Distinct(ns)
      ensures Distinct(ns[..i] + ns[i + 1..])
    {
    }

    lemma RemovalFacts(node: Node)
      requires Separate() && Valid(View()) && node in nodes && node != nodes[0]
      ensures var i := Pos(nodes, node);
              && 0 < i && Legal(View(), RemoveOp(node)) && Apply(View(), RemoveOp(node)) == Remove(View(), i)
              && Valid(Remove(View(), i))
              && (node.holeFollows <==>
                   node.start + node.size != (if i + 1 < |nodes| then nodes[i + 1] else nodes[0]).start)
              && StackHolds(node, nodes[i - 1])
    {
      hide Valid, Entries, Remove, Unlinked, Separate, StackExact, Legal, Apply, StackHolds, DistinctNodes;
      AtIsPos(node);
      var i := Pos(nodes, node);
      FirstIsHead(node);
      RemoveValid(View(), i);
      ValidStack(View());
      assert View().list[i] == EntryOf(node) && View().list[i - 1] == EntryOf(nodes[i - 1]);
      assert After(View().list, i) == EntryOf(if i + 1 < |nodes| then nodes[i + 1] else nodes[0]);
      LegalRemoval(View(), node, i);
      StackHole(View().list, holes, i);
      StackHole(View().list, holes, i - 1);
      BothOnStack(node, nodes[i - 1]) by { DistinctAt(i); }
    }

    lemma FirstIsHead(node: Node)
      requires |nodes| > 0 && node in nodes && node != nodes[0]
      ensures Pos(nodes, node) > 0
    {
    }

    lemma DistinctAt(i: nat)
      requires Separate() && 0 < i < |nodes|
      ensures nodes[i] != nodes[i - 1]
    {
    }

    lemma LegalRemoval(m: Mm, node: Node, i: nat)
      requires StackExact(m.list, m.stack) && Linked(m.list, node) && 0 < i < |m.list| && At(m.list, node) == i
      ensures Legal(m, RemoveOp(node)) && Apply(m, RemoveOp(node)) == Remove(m, i)
    {
    }

    lemma BothOnStack(node: Node, prev: Node)
      requires Distinct(holes) && node != prev
      requires (node.holeFollows ==> node in holes) && (prev.holeFollows ==> prev in holes)
      ensures StackHolds(node, prev)
    {
      if node.holeFollows {
        DeleteMembers(holes, node);
      }
    }

    /** drm_mm_debug_table: the totals it adds up cover the managed range. */
    method Totals() returns (used: int, free: int)
      requires Separate() && Valid(View())
      ensures used + free == Hi(View().list) - Lo(View().list)
      ensures used == Used(View().list, 1) && free == Free(View().list, 0)
    {
      hide Separate, Valid, Entries;
      ValidTotals(View());
      var k := 1;
      var after := if 1 < |nodes| then nodes[1] else nodes[0];
      assert EntryOf(after) == After(View().list, 0);
      used, free := 0, after.start - (nodes[0].start + nodes[0].size);
      while k < |nodes|
        invariant 1 <= k <= |nodes|
        invariant used + Used(View().list, k) == Used(View().list, 1)
        invariant free + Free(View().list, k) == Free(View().list, 0)
      {
        var entry := nodes[k];
        used := used + entry.size;
        if entry.holeFollows {
          var next := if k + 1 < |nodes| then nodes[k + 1] else nodes[0];
          assert EntryOf(next) == After(View().list, k);
          free := free + (next.start - (entry.start + entry.size));
        }
        k := k + 1;
      }
    }

    // -------------------------------------------------------------- scanning

    /** drm_mm_init_scan(_with_range) */
    method InitScanning(req: Request)
      requires Separate() && scanned == []
      modifies this`scanRequest, this`scanHitStart, this`scanHitEnd, this`scannedBlocks
      ensures Separate() && ScanView() == InitScan(old(View()), req)
    {
      scanRequest, scanHitStart, scanHitEnd, scannedBlocks := req, 0, 0, 0;
      assert SavedOf(scanned) == [];
    }

    /** drm_mm_scan_add_block */
    method ScanAddBlock(node: Node) returns (hit: bool)
      requires Separate() && node in nodes && node != nodes[0]
      modifies this`nodes, this`scanned, this`scannedBlocks, this`scanHitStart, this`scanHitEnd, nodes
      ensures Separate() && scanned == old(scanned) + [node]
      ensures old(Linked(View().list, node) && At(View().list, node) > 0)
      ensures (ScanView(), hit) == AddBlock(old(ScanView()), old(At(View().list, node)))
      ensures forall k :: 0 <= k < |nodes| ==> nodes[k] in old(nodes)
    {
      hide Separate, AddBlock, Linked, At, Entries, SavedOf;
      ScanPosition(node);
      ghost var s, i := ScanView(), Pos(nodes, node);
      var prev, next := UnlinkScanned(node);
      hit := JudgeGap(prev, next, s, i);
    }

    lemma ScanPosition(node: Node)
      requires Separate() && node in nodes && node != nodes[0]
      ensures var i := Pos(nodes, node);
              && 0 < i < |nodes| && Linked(View().list, node) && At(View().list, node) == i
              && View().list[i] == EntryOf(node) && View().list[i - 1] == EntryOf(nodes[i - 1])
    {
      hide Entries;
      AtIsPos(node);
    }

    /** Unlink the node, remembering its predecessor and that node's flag. */
    method UnlinkScanned(node: Node) returns (prev: Node, next: Node)
      requires Separate() && node in nodes && node != nodes[0]
      modifies this`nodes, this`scanned, this`scannedBlocks, nodes
      ensures Separate() && scanned == old(scanned) + [node]
      ensures var i := old(Pos(nodes, node));
              && 0 < i < |old(nodes)| && prev == old(nodes)[i - 1] && nodes == old(nodes[..i] + nodes[i + 1..])
              && next == (if i < |nodes| then nodes[i] else nodes[0])
              && View() == old(View()).(list := Unlink(old(View()).list, i))
              && SavedOf(scanned) == old(SavedOf(scanned)) + [Saved(old(EntryOf(node)), prev, old(prev.holeFollows))]
    {
      hide Separate, Entries, SavedOf, Pos, Unlink, Unlinked;
      FirstIsHead(node);
      NoneFlagged();
      var i := Pos(nodes, node);
      ghost var m, v, e := View(), SavedOf(scanned), EntryOf(node);
      prev := nodes[i - 1];
      Detach(node, prev, i);
      next := if i < |nodes| then nodes[i] else nodes[0];
      ListShrunk(m.list, i);
      SavedGrew(v, Saved(e, prev, node.scannedPreceedsHole));
    }

    lemma NoneFlagged()
      requires Separate()
      ensures forall k :: 0 <= k < |scanned| ==> scanned[k].prevLink != null
    {
    }

    lemma ListShrunk(l: seq<Entry>, i: nat)
      requires 0 < i < |l| && |nodes| == |l| - 1
      requires forall k {:trigger nodes[k]} :: 0 <= k < |nodes| ==>
                 EntryOf(nodes[k]) == if k < i - 1 then l[k] else if k == i - 1 then l[k].(hole := true) else l[k + 1]
      ensures View().list == Unlink(l, i)
    {
      hide Unlink, Entries;
      var r := View().list;
      assert forall k :: 0 <= k < |r| ==> r[k] == EntryOf(nodes[k]);
      UnlinkIs(l, i, r);
    }

    lemma SavedGrew(v: seq<Saved>, last: Saved)
      requires (forall k :: 0 <= k < |scanned| ==> scanned[k].prevLink != null) && |scanned| == |v| + 1
      requires forall k :: 0 <= k < |scanned| ==>
                 Saved(EntryOf(scanned[k]), scanned[k].prevLink, scanned[k].scannedPreceedsHole)
                 == if k < |v| then v[k] else last
      ensures SavedOf(scanned) == v + [last]
    {
      hide SavedOf;
    }

    /** The field updates of a scan. */
    method Detach(node: Node, prev: Node, i: nat)
      requires Separate() && 0 < i < |nodes| && node == nodes[i] && prev == nodes[i - 1]
      modifies this`nodes, this`scanned, this`scannedBlocks
      modifies prev`holeFollows, node`scannedBlock, node`scannedPreceedsHole, node`prevLink
      ensures Separate() && scanned == old(scanned) + [node] && nodes == old(nodes[..i] + nodes[i + 1..])
      ensures prev.holeFollows && node.prevLink == prev && node.scannedPreceedsHole == old(prev.holeFollows)
      ensures forall k :: 0 <= k < |scanned| ==> scanned[k].prevLink != null && scanned[k] != prev
      ensures forall k :: 0 <= k < |old(scanned)| ==> scanned[k] != node
      ensures forall k :: 0 <= k < |nodes| ==> nodes[k] != node && (nodes[k] == prev <==> k == i - 1)
    {
      ghost var ns, vs := nodes, scanned;
      scannedBlocks := scannedBlocks + 1;
      assert !node.scannedBlock;
      node.scannedBlock := true;
      node.scannedPreceedsHole := prev.holeFollows;
      prev.holeFollows := true;
      nodes := nodes[..i] + nodes[i + 1..];
      node.prevLink := prev;
      scanned := scanned + [node];
      assert forall k :: 0 <= k < |nodes| ==> nodes[k] == ns[if k < i then k else k + 1];
    }

    /** Test the gap that the unlinked node has left. */
    method JudgeGap(prev: Node, next: Node, ghost s: Scan, ghost i: nat) returns (hit: bool)
      requires Separate() && 0 < i < |s.m.list| && 0 < |nodes| && i - 1 < |nodes|
      requires prev == nodes[i - 1] && next == (if i < |nodes| then nodes[i] else nodes[0])
      requires View() == s.m.(list := Unlink(s.m.list, i))
      requires SavedOf(scanned) == s.saved + [Saved(s.m.list[i], s.m.list[i - 1].node, s.m.list[i - 1].hole)]
      requires scanRequest == s.req && scanHitStart == s.hitStart && scanHitEnd == s.hitEnd
      modifies this`scanHitStart, this`scanHitEnd
      ensures Separate() && (ScanView(), hit) == AddBlock(s, i)
    {
      hide Entries, SavedOf, Separate, Usable, CheckFreeHole;
      assert EntryOf(prev).block == s.m.list[i - 1].block;
      assert EntryOf(next) == After(View().list, i - 1);
      var holeStart, holeEnd := prev.start + prev.size, next.start;
      var adj := Usable(adjust, EntryOf(prev).block, EntryOf(next).block, scanRequest);
      if CheckFreeHole(adj.0, adj.1, scanRequest.size, scanRequest.alignment) {
        scanHitStart := holeStart;
        scanHitEnd := holeEnd;
        return true;
      }
      return false;
    }

    /** drm_mm_scan_remove_block, called on any scanned node whose remembered predecessor is linked */
    method ScanRemoveBlock(node: Node) returns (evict: bool)
      requires Separate() && node in scanned && node.prevLink in nodes
      modifies this`nodes, this`scanned, this`scannedBlocks, nodes, node
      ensures var k := old(Pos(scanned, node));
              && Separate() && scanned == old(scanned)[..k] + old(scanned)[k + 1..]
              && old(Linked(View().list, node.prevLink)) && (ScanView(), evict) == RemoveBlockAt(old(ScanView()), k)
      ensures old(node == scanned[|scanned| - 1]) ==>
                scanned == old(scanned[..|scanned| - 1]) && (ScanView(), evict) == RemoveBlock(old(ScanView()))
      ensures forall k :: 0 <= k < |nodes| ==> nodes[k] in old(nodes) || nodes[k] == node
    {
      hide Entries, SavedOf, RemoveBlock, RemoveBlockAt, Linked, At;
      ScannedLink(node);
      var i := Pos(nodes, node.prevLink);
      ghost var k, s := Pos(scanned, node), ScanView();
      evict := LinkAgain(node, i, k);
      if k == |s.saved| - 1 {
        LastIsRemoved(s);
      }
    }

    lemma ScannedLink(node: Node)
      requires Separate() && node in scanned && node.prevLink in nodes
      ensures Linked(View().list, node.prevLink) && At(View().list, node.prevLink) == Pos(nodes, node.prevLink)
      ensures SavedOf(scanned)[Pos(scanned, node)].link == node.prevLink
      ensures node == scanned[|scanned| - 1] ==> Pos(scanned, node) == |scanned| - 1
    {
      hide Entries, SavedOf;
      AtIsPos(node.prevLink);
    }

    /** Link the k-th scanned node again behind its remembered predecessor, the i-th node. */
    method LinkAgain(node: Node, i: nat, ghost j: nat) returns (evict: bool)
      requires Separate() && j < |scanned| && node == scanned[j]
      requires i < |nodes| && node.prevLink == nodes[i]
      requires Linked(View().list, nodes[i]) && At(View().list, nodes[i]) == i
      modifies this`nodes, this`scanned, this`scannedBlocks, nodes, node
      ensures Separate() && scanned == old(scanned[..j] + scanned[j + 1..])
      ensures old(SavedOf(scanned)[j].link) == old(nodes[i])
      ensures (ScanView(), evict) == RemoveBlockAt(old(ScanView()), j)
      ensures nodes == old(nodes[..i + 1] + [node] + nodes[i + 1..])
    {
      hide Separate, Entries, SavedOf, Linked, At, Relink;
      LinkBack(node, i, j);
      var next := if i + 2 < |nodes| then nodes[i + 2] else nodes[0];
      EndOfNode(i + 1);
      evict := next.start > scanHitStart && node.start < scanHitEnd;
    }

    method LinkBack(node: Node, i: nat, ghost j: nat)
      requires Separate() && j < |scanned| && node == scanned[j]
      requires i < |nodes| && node.prevLink == nodes[i]
      requires Linked(View().list, nodes[i]) && At(View().list, nodes[i]) == i
      modifies this`nodes, this`scanned, this`scannedBlocks, nodes, node
      ensures Separate() && scanned == old(scanned[..j] + scanned[j + 1..])
      ensures old(SavedOf(scanned)[j].link) == old(nodes[i])
      ensures View().list == Relink(old(View().list), old(SavedOf(scanned)[j]))
      ensures SavedOf(scanned) == old(SavedOf(scanned)[..j] + SavedOf(scanned)[j + 1..])
      ensures nodes == old(nodes[..i + 1] + [node] + nodes[i + 1..])
    {
      hide Separate, Entries, SavedOf, Linked, At, Relink, Spliced;
      NoneFlagged();
      ghost var l, v, saved, ns := View().list, SavedOf(scanned)[j], SavedOf(scanned), nodes;
      Attach(node, nodes[i], i, j);
      assert forall k :: 0 <= k < |nodes| ==>
               nodes[k] == if k <= i then ns[k] else if k == i + 1 then node else ns[k - 1];
      ListGrew(l, v, i);
      SavedShrunk(saved, j);
    }

    lemma EndOfNode(i: nat)
      requires i < |nodes|
      ensures View().list[i] == EntryOf(nodes[i])
      ensures After(View().list, i) == EntryOf(if i + 1 < |nodes| then nodes[i + 1] else nodes[0])
    {
      hide Entries;
    }

    lemma ListGrew(l: seq<Entry>, v: Saved, i: nat)
      requires i < |l| && |nodes| == |l| + 1 && Linked(l, v.link) && At(l, v.link) == i
      requires forall k {:trigger nodes[k]} :: 0 <= k < |nodes| ==>
                 EntryOf(nodes[k]) == if k < i then l[k] else if k == i then l[k].(hole := v.preceeds)
                                      else if k == i + 1 then v.entry else l[k - 1]
      ensures View().list == Relink(l, v)
    {
      hide Relink, Entries, Linked, At;
      var r := View().list;
      assert forall k :: 0 <= k < |r| ==> r[k] == EntryOf(nodes[k]);
      RelinkIs(l, v, i, r);
    }

    lemma SavedShrunk(v: seq<Saved>, j: nat)
      requires (forall k :: 0 <= k < |scanned| ==> scanned[k].prevLink != null) && j <= |scanned| == |v| - 1
      requires forall k :: 0 <= k < |scanned| ==>
                 Saved(EntryOf(scanned[k]), scanned[k].prevLink, scanned[k].scannedPreceedsHole)
                 == v[if k < j then k else k + 1]
      ensures SavedOf(scanned) == v[..j] + v[j + 1..]
    {
      hide SavedOf;
    }

    /** The field updates of an unscan. */
    method Attach(node: Node, prev: Node, i: nat, ghost j: nat)
      requires Separate() && j < |scanned| && node == scanned[j]
      requires i < |nodes| && node.prevLink == nodes[i] && prev == nodes[i]
      modifies this`nodes, this`scanned, this`scannedBlocks, prev`holeFollows, node`scannedBlock
      ensures Separate() && scanned == old(scanned[..j] + scanned[j + 1..])
      ensures nodes == old(nodes[..i + 1] + [node] + nodes[i + 1..])
      ensures prev.holeFollows == old(node.scannedPreceedsHole)
      ensures node != prev && node.holeFollows == old(node.holeFollows)
      ensures forall k :: 0 <= k < |scanned| ==> scanned[k].prevLink != null && scanned[k] != prev && scanned[k] != node
      ensures forall k :: 0 <= k < |nodes| ==> (nodes[k] == prev <==> k == i) && (nodes[k] == node <==> k == i + 1)
    {
      ghost var ns, vs := nodes, scanned;
      scannedBlocks := scannedBlocks - 1;
      assert node.scannedBlock;
      node.scannedBlock := false;
      prev.holeFollows := node.scannedPreceedsHole;
      nodes := nodes[..i + 1] + [node] + nodes[i + 1..];
      scanned := scanned[..j] + scanned[j + 1..];
      assert forall k :: 0 <= k < |nodes| ==>
               nodes[k] == if k <= i then ns[k] else if k == i + 1 then node else ns[k - 1];
      assert forall k :: 0 <= k < |scanned| ==> scanned[k] == vs[if k < j then k else k + 1];
    }

    /** A removed node and its predecessor can be taken off the stack one after the other. */
    ghost predicate StackHolds(node: Node, prev: Node)
      reads this, node, prev
    {
      && (node.holeFollows ==> node in holes)
      && (prev.holeFollows ==> prev in holes && (node.holeFollows ==> prev in Delete(holes, node)))
    }
  }

  /** The list and the stack that a removal leaves, entry by entry. */
  lemma RemoveIs(m: Mm, i: nat, l: seq<Entry>, stack: seq<Node>)
    requires 0 < i < |m.list| && Unlinked(m.list, i, true, l)
    requires stack == [m.list[i - 1].node] + Unstack(Unstack(m.stack, m.list[i]), m.list[i - 1])
    ensures Mm(l, stack, m.adjust) == Remove(m, i)
  {
    assert l == Remove(m, i).list;
  }

  lemma ValidTotals(m: Mm)
    requires Valid(m)
    ensures |m.list| > 0 && Used(m.list, 1) + Free(m.list, 0) == Hi(m.list) - Lo(m.list)
    ensures Free(m.list, 0) == HoleEnd(m.list, 0) - HoleStart(m.list, 0) + Free(m.list, 1)
  {
    UsedPlusFree(m.list);
    GapBounds(m.list, 0);
  }

  lemma UnlinkIs(l: seq<Entry>, i: nat, r: seq<Entry>)
    requires 0 < i < |l| && Unlinked(l, i, true, r)
    ensures r == Unlink(l, i)
  {
  }

  lemma RelinkIs(l: seq<Entry>, v: Saved, i: nat, r: seq<Entry>)
    requires Linked(l, v.link) && i == At(l, v.link) && Spliced(l, i, v.preceeds, v.entry, r)
    ensures r == Relink(l, v)
  {
  }

  lemma ValidStack(m: Mm)
    requires Valid(m)
    ensures Distinct(m.stack) && StackExact(m.list, m.stack)
  {
  }
}
