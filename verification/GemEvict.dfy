/** The eviction driver: offer objects in order until the scan hits, unwind last-in first-out, and
    unbind what the scan names. */
module GemEvict {
  import opened Lists
  import opened MmModel
  import opened MmAllocation
  import opened MmScan
  import opened MmColour
  import opened MmEviction
  import opened MmManager

  /** A buffer object bound into the managed range. */
  datatype Obj = Obj(space: Node, pinCount: nat)

  /** The nodes of the objects that are not pinned. */
  function Offered(objs: seq<Obj>): seq<Node> {
    if objs == [] then []
    else (if objs[0].pinCount == 0 then [objs[0].space] else []) + Offered(objs[1..])
  }

  /** The unwind list holds the scanned nodes, newest first. */
  ghost predicate Unwinding(unwind: seq<Obj>, scanned: seq<Node>) {
    |unwind| == |scanned| && forall k :: 0 <= k < |unwind| ==> unwind[k].space == scanned[|scanned| - 1 - k]
  }

  /** The scan so far is that of the nodes of ns, and none of the first k hit. */
  ghost predicate ScannedSoFar(s: Scan, m: Mm, req: Request, ns: seq<Node>, k: nat) {
    && k <= |ns|
    && s == ScanAll(InitScan(m, req), ns)
    && forall j :: 0 <= j < k ==> Misses(InitScan(m, req), ns, j)
  }

  /** The last node of ns hit. */
  ghost predicate LastHit(m: Mm, req: Request, ns: seq<Node>) {
    && ns != []
    && var s := ScanAll(InitScan(m, req), ns[..|ns| - 1]);
       && Linked(s.m.list, ns[|ns| - 1]) && At(s.m.list, ns[|ns| - 1]) > 0
       && AddBlock(s, At(s.m.list, ns[|ns| - 1])).1
  }

  /** Offering one more node: it is still linked, and the scan is extended by it. */
  lemma OfferOne(m: Mm, req: Request, ns: seq<Node>, n: Node)
    requires Valid(m) && Removable(m.list, ns + [n])
    ensures var s := ScanAll(InitScan(m, req), ns);
            && Linked(s.m.list, n) && At(s.m.list, n) > 0
            && ScanAll(InitScan(m, req), ns + [n]) == AddBlock(s, At(s.m.list, n)).0
            && (AddBlock(s, At(s.m.list, n)).1 <==> LastHit(m, req, ns + [n]))
            && (!AddBlock(s, At(s.m.list, n)).1 <==> Misses(InitScan(m, req), ns + [n], |ns|))
  {
    hide Valid, Released, Removable, RemoveAll, AddBlock;
    assert (ns + [n])[..|ns|] == ns;
    RemovableLast(m.list, ns + [n]);
    RemoveAllValid(m, ns);
    ScanAllIsRemoveAll(m, req, ns);
    StillLinked(m, ns, RemoveAll(m, ns), n);
  }

  lemma StillLinked(m: Mm, ns: seq<Node>, r: Mm, n: Node)
    requires Valid(m) && Released(m, ns, r) && Linked(m.list, n) && At(m.list, n) > 0 && n !in ns
    ensures Linked(r.list, n) && At(r.list, n) > 0
  {
    hide Remains, Ordered;
    ValidDistinct(m);
    ValidDistinct(r);
    RemainsAt(m.list, ns, r.list, n);
  }

  /** Misses of a prefix are misses of the whole. */
  lemma MissesExtended(s: Scan, ns: seq<Node>, more: seq<Node>, j: nat)
    requires j < |ns|
    ensures Misses(s, ns, j) <==> Misses(s, ns + more, j)
  {
    assert (ns + more)[..j] == ns[..j] && (ns + more)[j] == ns[j];
  }

  /** All nodes of the manager are objects of `pool`. */
  ghost predicate Pooled(mm: Manager, pool: set<Node>)
    reads mm`nodes, mm`scanned
  {
    && (forall k :: 0 <= k < |mm.nodes| ==> mm.nodes[k] in pool)
    && (forall k :: 0 <= k < |mm.scanned| ==> mm.scanned[k] in pool)
  }

  /** The manager is in the middle of offering: the scanned nodes are ns, and none has hit but
      perhaps the last. */
  ghost predicate Offering(mm: Manager, unwind: seq<Obj>, m: Mm, req: Request, hit: bool)
    reads mm, mm.nodes, mm.scanned
  {
    && mm.Separate() && Unwinding(unwind, mm.scanned)
    && (hit ==> LastHit(m, req, mm.scanned))
    && ScannedSoFar(mm.ScanView(), m, req, mm.scanned, if hit then |mm.scanned| - 1 else |mm.scanned|)
  }

  /** mark_free over one list of objects, stopping at the first hit. */
  method OfferAll(mm: Manager, objs: seq<Obj>, unwind0: seq<Obj>, ghost m: Mm, ghost req: Request,
                  ghost pool: set<Node>)
    returns (unwind: seq<Obj>, found: bool)
    requires Valid(m) && Removable(m.list, mm.scanned + Offered(objs))
    requires Offering(mm, unwind0, m, req, false) && Pooled(mm, pool)
    modifies mm, pool
    ensures Offering(mm, unwind, m, req, found) && Pooled(mm, pool)
    ensures mm.scanned <= old(mm.scanned) + Offered(objs)
    ensures !found ==> mm.scanned == old(mm.scanned) + Offered(objs)
    ensures forall o :: o in unwind ==> o in unwind0 || (o in objs && o.pinCount == 0)
  {
    hide Valid, Removable, Offering, Pooled;
    unwind, found := unwind0, false;
    var k := 0;
    assert objs[0..] == objs;
    while k < |objs|
      invariant 0 <= k <= |objs| && !found
      invariant mm.scanned + Offered(objs[k..]) == old(mm.scanned) + Offered(objs)
      invariant Offering(mm, unwind, m, req, false) && Pooled(mm, pool)
      invariant forall o :: o in unwind ==> o in unwind0 || (o in objs && o.pinCount == 0)
    {
      var obj := objs[k];
      assert objs[k..][1..] == objs[k + 1..];
      ghost var before, rest := mm.scanned, Offered(objs[k + 1..]);
      OneOffered(obj);
      assert before + (Offered([obj]) + rest) == before + Offered([obj]) + rest;
      unwind, found := MarkFree(mm, obj, unwind, m, req, rest, pool);
      if found {
        return;
      }
      k := k + 1;
    }
  }

  /** mark_free: a pinned object is passed over, any other joins the unwind list and is scanned. */
  method MarkFree(mm: Manager, obj: Obj, unwind0: seq<Obj>, ghost m: Mm, ghost req: Request, ghost rest: seq<Node>,
                  ghost pool: set<Node>)
    returns (unwind: seq<Obj>, hit: bool)
    requires Valid(m) && Removable(m.list, mm.scanned + (Offered([obj]) + rest))
    requires Offering(mm, unwind0, m, req, false) && Pooled(mm, pool)
    modifies mm, pool
    ensures Offering(mm, unwind, m, req, hit) && Pooled(mm, pool)
    ensures unwind == if obj.pinCount == 0 then [obj] + unwind0 else unwind0
    ensures obj.pinCount != 0 ==> !hit
    ensures mm.scanned == old(mm.scanned) + Offered([obj])
  {
    OneOffered(obj);
    if obj.pinCount != 0 {
      unwind, hit := unwind0, false;
      assert mm.scanned + [] == mm.scanned;
      return;
    }
    unwind, hit := ScanUnpinned(mm, obj, unwind0, m, req, rest, pool);
  }

  lemma OneOffered(obj: Obj)
    ensures Offered([obj]) == if obj.pinCount == 0 then [obj.space] else []
  {
    assert [obj][1..] == [];
  }

  /** ... and the scan is extended by it. */
  method ScanUnpinned(mm: Manager, obj: Obj, unwind0: seq<Obj>, ghost m: Mm, ghost req: Request,
                      ghost rest: seq<Node>, ghost pool: set<Node>)
    returns (unwind: seq<Obj>, hit: bool)
    requires Valid(m) && Removable(m.list, mm.scanned + ([obj.space] + rest))
    requires Offering(mm, unwind0, m, req, false) && Pooled(mm, pool)
    modifies mm, pool
    ensures Offering(mm, unwind, m, req, hit) && Pooled(mm, pool)
    ensures mm.scanned == old(mm.scanned) + [obj.space] && unwind == [obj] + unwind0
  {
    hide Valid, Removable, LastHit, AddBlock, Unwinding, ScannedSoFar, Linked, At, Entries, SavedOf;
    PrefixOfRest(m.list, mm.scanned, obj.space, rest);
    OfferNext(mm.ScanView(), m, req, mm.scanned, obj.space);
    NotSentinel(mm, obj.space);
    UnwindExtended(unwind0, mm.scanned, obj);
    unwind := [obj] + unwind0;
    hit := mm.ScanAddBlock(obj.space);
  }

  lemma PrefixOfRest(l: seq<Entry>, ns: seq<Node>, n: Node, rest: seq<Node>)
    requires Removable(l, ns + ([n] + rest))
    ensures Removable(l, ns + [n])
  {
    hide Removable;
    assert (ns + ([n] + rest))[..|ns| + 1] == ns + [n];
    PrefixRemovable(l, ns + ([n] + rest), |ns| + 1);
  }

  lemma UnwindExtended(unwind: seq<Obj>, ns: seq<Node>, obj: Obj)
    requires Unwinding(unwind, ns)
    ensures Unwinding([obj] + unwind, ns + [obj.space])
  {
  }

  /** The scan, extended by one more offered node. */
  lemma OfferNext(s: Scan, m: Mm, req: Request, ns: seq<Node>, n: Node)
    requires Valid(m) && Removable(m.list, ns + [n]) && ScannedSoFar(s, m, req, ns, |ns|)
    ensures Linked(s.m.list, n) && At(s.m.list, n) > 0
    ensures var (s', hit) := AddBlock(s, At(s.m.list, n));
            && ScannedSoFar(s', m, req, ns + [n], if hit then |ns| else |ns| + 1)
            && (hit ==> LastHit(m, req, ns + [n]))
  {
    hide Valid, Removable, AddBlock, LastHit, ScanAll, Misses, Linked, At;
    OfferOne(m, req, ns, n);
    var (s', hit) := AddBlock(s, At(s.m.list, n));
    ExtendScan(s, m, req, ns, n, s', hit);
  }

  lemma ExtendScan(s: Scan, m: Mm, req: Request, ns: seq<Node>, n: Node, s': Scan, hit: bool)
    requires ScannedSoFar(s, m, req, ns, |ns|) && s' == ScanAll(InitScan(m, req), ns + [n])
    requires !hit <==> Misses(InitScan(m, req), ns + [n], |ns|)
    ensures ScannedSoFar(s', m, req, ns + [n], if hit then |ns| else |ns| + 1)
  {
    hide Misses, ScanAll;
    forall j | 0 <= j < |ns|
      ensures Misses(InitScan(m, req), ns + [n], j)
    {
      MissesExtended(InitScan(m, req), ns, [n], j);
    }
  }

  lemma NotSentinel(mm: Manager, n: Node)
    requires mm.Separate() && Linked(mm.View().list, n) && At(mm.View().list, n) > 0
    ensures n in mm.nodes && n != mm.nodes[0]
  {
    hide Entries;
    mm.LinkedIsIn(n);
    mm.AtIsPos(n);
  }

  // ---------------------------------------------------------------- unwinding the scan

  /** The scan can be unwound to m, and nothing else of m has changed. */
  ghost predicate BackTo(s: Scan, m: Mm) {
    Unwinds(s.m.list, s.saved, m.list) && s.m.stack == m.stack && s.m.adjust == m.adjust
  }

  lemma OfferedBackTo(s: Scan, m: Mm, req: Request, ns: seq<Node>, k: nat)
    requires Valid(m) && ScannedSoFar(s, m, req, ns, k)
    ensures BackTo(s, m) && s.req == req
  {
    hide Valid, ScanAll, RemoveAll, Misses, Unwinds;
    ScanAllIsRemoveAll(m, req, ns);
  }

  /** Without a hit the hit bounds keep their initial value. */
  lemma {:induction false} NoHitYet(m: Mm, req: Request, ns: seq<Node>, k: nat)
    requires k <= |ns| && forall j :: 0 <= j < k ==> Misses(InitScan(m, req), ns, j)
    ensures var s := ScanAll(InitScan(m, req), ns[..k]); s.hitStart == 0 && s.hitEnd == 0
    decreases k
  {
    if k > 0 {
      hide Linked, At, Usable, CheckFreeHole, Unlink;
      NoHitYet(m, req, ns, k - 1);
      assert Misses(InitScan(m, req), ns, k - 1);
      assert ns[..k][..k - 1] == ns[..k - 1];
    }
  }

  lemma OfferedNoHit(s: Scan, m: Mm, req: Request, ns: seq<Node>)
    requires ScannedSoFar(s, m, req, ns, |ns|)
    ensures s.hitStart == 0 && s.hitEnd == 0
  {
    hide Misses;
    NoHitYet(m, req, ns, |ns|);
    assert ns[..|ns|] == ns;
  }

  /** The node scanned last remembers a node that is linked. */
  lemma LastLinkIsIn(mm: Manager, m: Mm)
    requires mm.Separate() && BackTo(mm.ScanView(), m) && |mm.scanned| > 0
    ensures mm.scanned[|mm.scanned| - 1].prevLink in mm.nodes
  {
    hide Unwinds, Entries, SavedOf, Linked;
    var l0, i := LastScanned(mm.ScanView(), m.list);
    mm.LinkedIsIn(mm.scanned[|mm.scanned| - 1].prevLink);
  }

  lemma StepBack(s: Scan, m: Mm)
    requires BackTo(s, m) && |s.saved| > 0
    ensures Linked(s.m.list, s.saved[|s.saved| - 1].link)
    ensures var s' := RemoveBlock(s).0;
            BackTo(s', m) && s'.hitStart == s.hitStart && s'.hitEnd == s.hitEnd && s'.saved == s.saved[..|s.saved| - 1]
  {
    hide Unwinds, Relink, At, EvictTest;
    RemoveKeepsUnwind(s, m.list);
  }

  lemma UnwindShortened(unwind: seq<Obj>, ns: seq<Node>)
    requires Unwinding(unwind, ns) && unwind != []
    ensures ns != [] && unwind[0].space == ns[|ns| - 1] && Unwinding(unwind[1..], ns[..|ns| - 1])
  {
  }

  lemma AllBack(s: Scan, m: Mm)
    requires BackTo(s, m) && s.saved == []
    ensures s.m == m
  {
  }

  /** Nothing found: unscan everything.  No answer is 1, so the caller's BUG_ON does not fire, and
      the manager is exactly what it was. */
  method UnwindNone(mm: Manager, unwind0: seq<Obj>, ghost m: Mm, ghost req: Request, ghost pool: set<Node>)
    requires Valid(m) && Offering(mm, unwind0, m, req, false) && Pooled(mm, pool)
    modifies mm, pool
    ensures mm.Separate() && mm.scanned == [] && mm.View() == m && Pooled(mm, pool)
  {
    hide Valid, BackTo, ScannedSoFar, Unwinding, RemoveBlock, Entries, SavedOf, LastHit;
    OfferedBackTo(mm.ScanView(), m, req, mm.scanned, |mm.scanned|);
    OfferedNoHit(mm.ScanView(), m, req, mm.scanned);
    UnwindLength(unwind0, mm.scanned);
    var unwind := unwind0;
    while unwind != []
      invariant mm.Separate() && Unwinding(unwind, mm.scanned) && Pooled(mm, pool) && |unwind| == |mm.scanned|
      invariant BackTo(mm.ScanView(), m) && mm.scanHitStart == 0 && mm.scanHitEnd == 0
      decreases |unwind|
    {
      UnwindShortened(unwind, mm.scanned);
      LastLinkIsIn(mm, m);
      StepBack(mm.ScanView(), m);
      NoAnswer(mm.ScanView(), m);
      var obj := unwind[0];
      var ret := mm.ScanRemoveBlock(obj.space);
      assert !ret;
      unwind := unwind[1..];
    }
    AllBack(mm.ScanView(), m);
  }

  lemma UnwindLength(unwind: seq<Obj>, ns: seq<Node>)
    requires Unwinding(unwind, ns)
    ensures |unwind| == |ns|
  {
  }

  lemma NoAnswer(s: Scan, m: Mm)
    requires BackTo(s, m) && |s.saved| > 0 && s.hitStart == 0 && s.hitEnd == 0
    ensures Linked(s.m.list, s.saved[|s.saved| - 1].link) && !RemoveBlock(s).1
  {
    hide Unwinds, RemoveBlock;
    NoHitNoEviction(s, m.list);
  }

  // ---------------------------------------------------------------- unwinding after a hit

  /** The neighbours of the hole that the last scan hit. */
  datatype Hit = Hit(before: Scan, at: nat) {
    ghost predicate Valid() {
      0 < at < |before.m.list| && AddBlock(before, at).1
    }

    function After(): Scan
      requires 0 < at < |before.m.list|
    {
      AddBlock(before, at).0
    }

    function Node(): MmModel.Node
      requires 0 < at < |before.m.list|
    {
      before.m.list[at - 1].node
    }

    function Left(): Block
      requires 0 < at < |before.m.list|
    {
      before.m.list[at - 1].block
    }

    function Right(): Block
      requires 0 < at < |before.m.list|
    {
      MmModel.After(After().m.list, at - 1).block
    }
  }

  ghost function TheHit(m: Mm, req: Request, ns: seq<Node>): (h: Hit)
    requires LastHit(m, req, ns)
    ensures h.Valid()
  {
    var s := ScanAll(InitScan(m, req), ns[..|ns| - 1]);
    Hit(s, At(s.m.list, ns[|ns| - 1]))
  }

  /** The scan state right after the hit and while unwinding it. */
  ghost predicate AfterHit(s: Scan, m: Mm, h: Hit) {
    && h.Valid() && BackTo(s, m)
    && Edges(s.m.list, h.Node(), h.Left(), h.Right())
    && s.hitStart == h.Left().End() && s.hitEnd == h.Right().start
  }

  lemma HitReached(s: Scan, m: Mm, req: Request, ns: seq<Node>)
    requires MmModel.Valid(m) && req.size > 0 && LastHit(m, req, ns) && ScannedSoFar(s, m, req, ns, |ns| - 1)
    ensures var h := TheHit(m, req, ns);
            && s == h.After() && AfterHit(s, m, h) && h.before.req == req && BackTo(h.before, m)
  {
    hide MmModel.Valid, RemoveAll, Misses, Unwinds, AddBlock, Linked, At;
    var rest := ns[..|ns| - 1];
    ScanAllIsRemoveAll(m, req, rest);
    ScanAllIsRemoveAll(m, req, ns);
    var h := TheHit(m, req, ns);
    HitEdges(h.before, h.at);
  }

  /** n was scanned as the k-th node or later and lies inside the hole. */
  ghost predicate NamedSince(saved: seq<Saved>, k: nat, p: Block, q: Block, n: Node) {
    exists t :: k <= t < |saved| && saved[t].entry.node == n && Inside(saved[t].entry.block, p, q)
  }

  /** The nodes of ns are those scanned from the k-th on that lie inside the hole. */
  ghost predicate NamedFrom(ns: seq<Node>, saved: seq<Saved>, k: nat, p: Block, q: Block) {
    && Distinct(ns)
    && (forall j :: 0 <= j < |ns| ==> NamedSince(saved, k, p, q, ns[j]))
    && (forall t :: k <= t < |saved| && Inside(saved[t].entry.block, p, q) ==> saved[t].entry.node in ns)
  }

  ghost predicate DistinctSaved(saved: seq<Saved>) {
    forall a, b :: 0 <= a < b < |saved| ==> saved[a].entry.node != saved[b].entry.node
  }

  lemma NamedEarlier(saved: seq<Saved>, k: nat, p: Block, q: Block, n: Node)
    requires DistinctSaved(saved) && k < |saved| && NamedSince(saved, k + 1, p, q, n)
    ensures NamedSince(saved, k, p, q, n) && n != saved[k].entry.node
  {
    var t :| k + 1 <= t < |saved| && saved[t].entry.node == n && Inside(saved[t].entry.block, p, q);
    assert saved[t].entry.node == n;
  }

  lemma NameOne(ns: seq<Node>, saved: seq<Saved>, k: nat, p: Block, q: Block)
    requires NamedFrom(ns, saved, k + 1, p, q) && DistinctSaved(saved) && k < |saved|
    ensures NamedFrom(if Inside(saved[k].entry.block, p, q) then [saved[k].entry.node] + ns else ns, saved, k, p, q)
  {
    hide Inside, DistinctSaved;
    var n := saved[k].entry.node;
    forall j | 0 <= j < |ns|
      ensures NamedSince(saved, k, p, q, ns[j]) && ns[j] != n
    {
      NamedEarlier(saved, k, p, q, ns[j]);
    }
    if Inside(saved[k].entry.block, p, q) {
      var r := [n] + ns;
      assert NamedSince(saved, k, p, q, n) by {
        assert saved[k].entry.node == n;
      }
      assert r[0] == n && forall j :: 0 < j < |r| ==> r[j] == ns[j - 1];
      forall t | k <= t < |saved| && Inside(saved[t].entry.block, p, q)
        ensures saved[t].entry.node in r
      {
        assert t > k ==> saved[t].entry.node in ns;
      }
    }
  }

  lemma NamedAll(ns: seq<Node>, saved: seq<Saved>, p: Block, q: Block)
    requires NamedFrom(ns, saved, 0, p, q)
    ensures ListsNamed(ns, saved, p, q)
  {
    hide Inside;
    forall k | 0 <= k < |ns|
      ensures NamedForEviction(saved, p, q, ns[k])
    {
      var t :| 0 <= t < |saved| && saved[t].entry.node == ns[k] && Inside(saved[t].entry.block, p, q);
      assert saved[t].entry.node == ns[k];
    }
  }

  function Spaces(objs: seq<Obj>): (ns: seq<Node>)
    ensures |ns| == |objs| && forall k :: 0 <= k < |ns| ==> ns[k] == objs[k].space
  {
    if objs == [] then [] else [objs[0].space] + Spaces(objs[1..])
  }

  /** Unscanning one node after a hit answers whether it lies inside, and keeps the hit in view. */
  lemma StepAfterHit(s: Scan, m: Mm, h: Hit)
    requires AfterHit(s, m, h) && |s.saved| > 0
    ensures Linked(s.m.list, s.saved[|s.saved| - 1].link)
    ensures var (s', evict) := RemoveBlock(s);
            && AfterHit(s', m, h) && s'.saved == s.saved[..|s.saved| - 1]
            && (evict <==> Inside(s.saved[|s.saved| - 1].entry.block, h.Left(), h.Right()))
  {
    hide Unwinds, Edges, Inside, AddBlock, RemoveBlock, Linked;
    StepBack(s, m);
    RemoveAnswers(s, m.list, h.Node(), h.Left(), h.Right());
  }

  lemma SavedNodes(mm: Manager)
    requires mm.Separate()
    ensures DistinctSaved(mm.ScanView().saved) && |mm.ScanView().saved| == |mm.scanned|
    ensures |mm.scanned| > 0 ==> mm.ScanView().saved[|mm.scanned| - 1].entry.node == mm.scanned[|mm.scanned| - 1]
  {
    hide SavedOf, Entries;
  }

  /** Found: unscan everything, collecting the objects that the answers name. */
  method UnwindFound(mm: Manager, unwind0: seq<Obj>, ghost m: Mm, ghost req: Request, ghost pool: set<Node>,
                     ghost h: Hit)
    returns (eviction: seq<Obj>)
    requires MmModel.Valid(m) && req.size > 0 && Offering(mm, unwind0, m, req, true) && Pooled(mm, pool)
    requires h == TheHit(m, req, mm.scanned)
    modifies mm, pool
    ensures mm.Separate() && mm.scanned == [] && mm.View() == m && Pooled(mm, pool)
    ensures ListsNamed(Spaces(eviction), h.After().saved, h.Left(), h.Right())
    ensures forall o :: o in eviction ==> o in unwind0
  {
    hide MmModel.Valid, BackTo, AfterHit, ScannedSoFar, Unwinding, RemoveBlock, Entries, SavedOf, LastHit, NamedFrom,
         Inside, ListsNamed, AddBlock, Spaces, DistinctSaved, TheHit;
    HitReached(mm.ScanView(), m, req, mm.scanned);
    UnwindLength(unwind0, mm.scanned);
    SavedNodes(mm);
    ghost var saved := mm.ScanView().saved;
    NothingNamed(saved, h.Left(), h.Right());
    var unwind := unwind0;
    eviction := [];
    assert saved[..|mm.scanned|] == saved && Spaces(eviction) == [];
    assert Evicting(mm, unwind, eviction, m, h, saved);
    hide Evicting;
    while unwind != []
      invariant Evicting(mm, unwind, eviction, m, h, saved) && Pooled(mm, pool) && h.Valid()
      invariant forall o :: o in unwind || o in eviction ==> o in unwind0
      decreases |unwind|
    {
      eviction := UnwindOne(mm, unwind, eviction, m, h, saved, pool);
      unwind := unwind[1..];
    }
    EvictingDone(mm, eviction, m, h, saved);
  }

  /** Part of the scan is unwound, and the objects whose nodes lie inside are on the eviction list. */
  ghost predicate Evicting(mm: Manager, unwind: seq<Obj>, eviction: seq<Obj>, m: Mm, h: Hit, saved: seq<Saved>)
    reads mm, mm.nodes, mm.scanned
  {
    && mm.Separate() && Unwinding(unwind, mm.scanned) && |mm.scanned| <= |saved|
    && AfterHit(mm.ScanView(), m, h) && mm.ScanView().saved == saved[..|mm.scanned|]
    && NamedFrom(Spaces(eviction), saved, |mm.scanned|, h.Left(), h.Right())
  }

  lemma EvictingDone(mm: Manager, eviction: seq<Obj>, m: Mm, h: Hit, saved: seq<Saved>)
    requires Evicting(mm, [], eviction, m, h, saved)
    ensures mm.Separate() && mm.scanned == [] && mm.View() == m
    ensures h.Valid() && ListsNamed(Spaces(eviction), saved, h.Left(), h.Right())
  {
    hide NamedFrom, ListsNamed, Entries, SavedOf;
    AllBack(mm.ScanView(), m);
    NamedAll(Spaces(eviction), saved, h.Left(), h.Right());
  }

  /** Unscan the newest scanned node; its object joins the eviction list if the answer is 1. */
  method UnwindOne(mm: Manager, unwind: seq<Obj>, eviction0: seq<Obj>, ghost m: Mm, ghost h: Hit,
                   ghost saved: seq<Saved>,
                   ghost pool: set<Node>)
    returns (eviction: seq<Obj>)
    requires unwind != [] && Evicting(mm, unwind, eviction0, m, h, saved) && DistinctSaved(saved) && Pooled(mm, pool)
    requires h.Valid()
    modifies mm, pool
    ensures Evicting(mm, unwind[1..], eviction, m, h, saved) && Pooled(mm, pool)
    ensures forall o :: o in eviction ==> o in eviction0 || o == unwind[0]
  {
    hide BackTo, AfterHit, Unwinding, RemoveBlock, RemoveBlockAt, Entries, SavedOf, NamedFrom, Inside, AddBlock,
         DistinctSaved, Pos;
    UnwindShortened(unwind, mm.scanned);
    StillBack(mm.ScanView(), m, h);
    LastLinkIsIn(mm, m);
    StepAfterHit(mm.ScanView(), m, h);
    SavedNodes(mm);
    var obj := unwind[0];
    NameOne(Spaces(eviction0), saved, |mm.scanned| - 1, h.Left(), h.Right());
    var evict := mm.ScanRemoveBlock(obj.space);
    eviction := if evict then [obj] + eviction0 else eviction0;
    assert Spaces([obj] + eviction0) == [obj.space] + Spaces(eviction0);
  }

  lemma StillBack(s: Scan, m: Mm, h: Hit)
    requires AfterHit(s, m, h)
    ensures BackTo(s, m)
  {
  }

  lemma NothingNamed(saved: seq<Saved>, p: Block, q: Block)
    ensures NamedFrom([], saved, |saved|, p, q)
  {
  }

  // ---------------------------------------------------------------- unbinding, and the whole driver

  /** How many objects are unbound before the first one fails. */
  function Unbound(objs: seq<Obj>, unbind: Obj -> int): (n: nat)
    ensures n <= |objs| && (forall k :: 0 <= k < n ==> unbind(objs[k]) == 0) && (n < |objs| ==> unbind(objs[n]) != 0)
  {
    if objs == [] || unbind(objs[0]) != 0 then 0 else 1 + Unbound(objs[1..], unbind)
  }

  /** The first failure in list order, or 0. */
  function Outcome(objs: seq<Obj>, unbind: Obj -> int): int {
    var n := Unbound(objs, unbind);
    if n < |objs| then unbind(objs[n]) else 0
  }

  /** Unbind the objects in turn until one fails; `unbind` is the outcome of everything that happens
      before the node is given back. */
  method UnbindAll(mm: Manager, objs: seq<Obj>, unbind: Obj -> int, ghost m: Mm, ghost pool: set<Node>)
    returns (ret: int)
    requires mm.Separate() && mm.scanned == [] && mm.View() == m && MmModel.Valid(m)
    requires Removable(m.list, Spaces(objs)) && Pooled(mm, pool)
    modifies mm, pool
    ensures mm.Separate() && mm.scanned == [] && MmModel.Valid(mm.View()) && mm.adjust == m.adjust && Pooled(mm, pool)
    ensures ret == Outcome(objs, unbind) && mm.View() == RemoveAll(m, Spaces(objs[..Unbound(objs, unbind)]))
  {
    hide MmModel.Valid, Removable, RemoveAll, Spaces, Entries, Linked, At, Remove, Unbound;
    ret := 0;
    var k := 0;
    ghost var n := Unbound(objs, unbind);
    NoneReleased(m, Spaces(objs));
    while k < |objs|
      invariant 0 <= k <= |objs| && mm.Separate() && mm.scanned == [] && mm.adjust == m.adjust && Pooled(mm, pool)
      invariant MmModel.Valid(mm.View())
      invariant ret == if n < k then unbind(objs[n]) else 0
      invariant mm.View() == RemoveAll(m, Spaces(objs)[..if n < k then n else k])
    {
      if ret == 0 {
        ret := UnbindOne(mm, objs[k], unbind, m, Spaces(objs), k, pool);
      }
      k := k + 1;
    }
    SpacesPrefix(objs, n);
  }

  lemma SpacesPrefix(objs: seq<Obj>, n: nat)
    requires n <= |objs|
    ensures Spaces(objs[..n]) == Spaces(objs)[..n]
  {
  }

  method UnbindOne(mm: Manager, obj: Obj, unbind: Obj -> int, ghost m: Mm, ghost ns: seq<Node>, ghost k: nat,
                   ghost pool: set<Node>)
    returns (ret: int)
    requires mm.Separate() && mm.scanned == [] && MmModel.Valid(m) && Removable(m.list, ns) && Pooled(mm, pool)
    requires k < |ns| && ns[k] == obj.space && mm.View() == RemoveAll(m, ns[..k]) && MmModel.Valid(mm.View())
    modifies mm, pool
    ensures mm.Separate() && mm.scanned == [] && mm.adjust == old(mm.adjust) && Pooled(mm, pool)
    ensures MmModel.Valid(mm.View())
    ensures ret == unbind(obj) && mm.View() == RemoveAll(m, ns[..if ret == 0 then k + 1 else k])
  {
    hide MmModel.Valid, Removable, RemoveAll, Entries, Linked, At, Remove, Released, Legal;
    RemoveAllStep(m, ns, k + 1);
    assert ns[..k + 1 - 1] == ns[..k];
    ret := unbind(obj);
    if ret == 0 {
      NotSentinel(mm, obj.space);
      mm.RemoveNode(obj.space);
    }
  }

  /** The objects that one call may offer. */
  function Candidates(inactive: seq<Obj>, active: seq<Obj>, nonblocking: bool): seq<Node> {
    Offered(inactive) + if nonblocking then [] else Offered(active)
  }

  /** No placement exists, even with all of ns released. */
  ghost predicate Hopeless(m: Mm, req: Request, ns: seq<Node>) {
    && MmModel.Valid(RemoveAll(m, ns)) && Search(RemoveAll(m, ns), req).None?
    && (m.adjust.None? ==> forall a :: !Placement(RemoveAll(m, ns).list, req, a))
  }

  lemma OfferedHopeless(s: Scan, m: Mm, req: Request, ns: seq<Node>)
    requires MmModel.Valid(m) && SoundAdjust(m.adjust) && Sensible(req) && Removable(m.list, ns)
    requires ScannedSoFar(s, m, req, ns, |ns|)
    ensures Search(m, req).None? ==> Hopeless(m, req, ns)
  {
    hide SearchIn, Ordered, FlagsExact, DistinctNodes, Removable, RemoveAll, Misses, ScanAll, Placement;
    if Search(m, req).None? {
      EvictionComplete(m, req, ns);
    }
  }

  lemma StartOffering(mm: Manager, m: Mm, req: Request)
    requires mm.Separate() && mm.scanned == [] && mm.ScanView() == InitScan(m, req)
    ensures Offering(mm, [], m, req, false)
  {
    hide Misses;
  }

  lemma CandidateParts(l: seq<Entry>, inactive: seq<Obj>, active: seq<Obj>, nonblocking: bool)
    requires Removable(l, Candidates(inactive, active, nonblocking))
    ensures Removable(l, [] + Offered(inactive))
    ensures !nonblocking ==> Removable(l, Offered(inactive) + Offered(active))
    ensures nonblocking ==> Candidates(inactive, active, nonblocking) == Offered(inactive)
    ensures !nonblocking ==> Candidates(inactive, active, nonblocking) == Offered(inactive) + Offered(active)
    ensures [] + Offered(inactive) == Offered(inactive)
  {
    hide Removable;
    var all := Candidates(inactive, active, nonblocking);
    assert all[..|Offered(inactive)|] == Offered(inactive) == [] + Offered(inactive);
    PrefixRemovable(l, all, |Offered(inactive)|);
    assert Offered(inactive) + [] == Offered(inactive);
  }

  lemma NoneIsHopeless(mm: Manager, unwind: seq<Obj>, m: Mm, req: Request)
    requires MmModel.Valid(m) && SoundAdjust(m.adjust) && Sensible(req) && Removable(m.list, mm.scanned)
    requires Offering(mm, unwind, m, req, false)
    ensures Search(m, req).None? ==> Hopeless(m, req, mm.scanned)
  {
    hide MmModel.Valid, SoundAdjust, Sensible, Removable, Search, ScannedSoFar, Hopeless, Unwinding;
    OfferedHopeless(mm.ScanView(), m, req, mm.scanned);
  }

  /** The next search succeeds. */
  ghost predicate Retries(m: Mm, req: Request) {
    MmModel.Valid(m) && Search(m, req).Some?
  }

  /** What is known of the hit when the search for one stops. */
  ghost predicate HitOn(m: Mm, req: Request, h: Hit) {
    h.Valid() && h.before.req == req && BackTo(h.before, m)
  }

  lemma FoundFacts(mm: Manager, unwind: seq<Obj>, m: Mm, req: Request)
    requires MmModel.Valid(m) && req.size > 0 && Offering(mm, unwind, m, req, true)
    ensures LastHit(m, req, mm.scanned) && HitOn(m, req, TheHit(m, req, mm.scanned))
  {
    hide MmModel.Valid, LastHit, ScannedSoFar, Unwinding, AfterHit, BackTo, TheHit;
    HitReached(mm.ScanView(), m, req, mm.scanned);
  }

  lemma FoundRetries(m: Mm, h: Hit, req: Request, ns: seq<Node>)
    requires MmModel.Valid(m) && req.size > 0 && HitOn(m, req, h)
    requires ListsNamed(ns, h.After().saved, h.Left(), h.Right())
    ensures Removable(m.list, ns) && Retries(RemoveAll(m, ns), req) && ns != []
  {
    hide MmModel.Valid, Removable, RemoveAll, Search, ListsNamed, AddBlock, Unwinds, Inside;
    RetrySucceeds(m, h.before, h.at, ns);
    HitNamesItsNode(m, h.before, h.at);
    NamesSome(ns, h.After().saved, h.Left(), h.Right());
  }

  lemma NamesSome(ns: seq<Node>, saved: seq<Saved>, p: Block, q: Block)
    requires ListsNamed(ns, saved, p, q) && |saved| > 0 && Inside(saved[|saved| - 1].entry.block, p, q)
    ensures ns != []
  {
  }

  /** The object may be offered by this call. */
  predicate Candidate(o: Obj, inactive: seq<Obj>, active: seq<Obj>, nonblocking: bool) {
    o.pinCount == 0 && (o in inactive || (!nonblocking && o in active))
  }

  /** i915_gem_evict_something.  Finding nothing leaves the manager as it was and means that nothing
      could be found.  Finding something unbinds the candidates in the hole that was hit: the answer is the
      first failure among them, and without one the retried search succeeds. */
  method EvictSomething(mm: Manager, inactive: seq<Obj>, active: seq<Obj>, req: Request, nonblocking: bool,
                        unbind: Obj -> int, ghost pool: set<Node>)
    returns (ret: int, ghost found: bool, ghost eviction: seq<Obj>)
    requires mm.Separate() && mm.scanned == [] && MmModel.Valid(mm.View()) && SoundAdjust(mm.adjust) && Sensible(req)
    requires Removable(mm.View().list, Candidates(inactive, active, nonblocking)) && Pooled(mm, pool)
    modifies mm, pool
    ensures mm.Separate() && mm.scanned == [] && MmModel.Valid(mm.View()) && mm.adjust == old(mm.adjust)
    ensures Pooled(mm, pool)
    ensures !found ==> ret == -ENOSPC && mm.View() == old(mm.View()) && eviction == []
    ensures !found && old(Search(mm.View(), req)).None? ==>
              Hopeless(old(mm.View()), req, Candidates(inactive, active, nonblocking))
    ensures found ==> eviction != [] && forall o :: o in eviction ==> Candidate(o, inactive, active, nonblocking)
    ensures found ==> ret == Outcome(eviction, unbind)
                      && mm.View() == RemoveAll(old(mm.View()), Spaces(eviction[..Unbound(eviction, unbind)]))
    ensures found && ret == 0 ==> Retries(mm.View(), req)
  {
    hide MmModel.Valid, Removable, Offering, Pooled, Search, Hopeless, SoundAdjust, Entries, SavedOf, StackExact,
         HitOn, LastHit, TheHit, ListsNamed, RemoveAll, AddBlock, Retries, Unbound;
    ghost var m := mm.View();
    mm.InitScanning(req);
    StartOffering(mm, m, req);
    CandidateParts(m.list, inactive, active, nonblocking);
    var unwind, hit := OfferAll(mm, inactive, [], m, req, pool);
    if !hit && !nonblocking {
      unwind, hit := OfferAll(mm, active, unwind, m, req, pool);
    }
    if !hit {
      NoneIsHopeless(mm, unwind, m, req);
      UnwindNone(mm, unwind, m, req, pool);
      return -ENOSPC, false, [];
    }
    FoundFacts(mm, unwind, m, req);
    ghost var h := TheHit(m, req, mm.scanned);
    var evicted := UnwindFound(mm, unwind, m, req, pool, h);
    FoundRetries(m, h, req, Spaces(evicted));
    ret := UnbindAll(mm, evicted, unbind, m, pool);
    assert evicted[..|evicted|] == evicted;
    found, eviction := true, evicted;
  }

  /** Those offered are the nodes of all candidates. */
  lemma CandidatesAre(inactive: seq<Obj>, active: seq<Obj>, nonblocking: bool, n: Node)
    ensures n in Candidates(inactive, active, nonblocking) <==>
              exists o :: o in inactive + active && Candidate(o, inactive, active, nonblocking) && o.space == n
  {
    OfferedAre(inactive, n);
    OfferedAre(active, n);
    if n in Offered(inactive) {
      var o :| o in inactive && o.pinCount == 0 && o.space == n;
      assert o in inactive + active && Candidate(o, inactive, active, nonblocking);
    } else if !nonblocking && n in Offered(active) {
      var o :| o in active && o.pinCount == 0 && o.space == n;
      assert o in inactive + active && Candidate(o, inactive, active, nonblocking);
    }
  }

  lemma {:induction false} OfferedAre(objs: seq<Obj>, n: Node)
    ensures n in Offered(objs) <==> exists o :: o in objs && o.pinCount == 0 && o.space == n
  {
    if objs != [] {
      OfferedAre(objs[1..], n);
      if objs[0].pinCount == 0 && objs[0].space == n {
        assert objs[0] in objs;
      }
      forall o | o in objs[1..]
        ensures o in objs
      {
      }
      assert forall o :: o in objs ==> o == objs[0] || o in objs[1..];
    }
  }

  ghost predicate AllUnbind(inactive: seq<Obj>, active: seq<Obj>, nonblocking: bool, unbind: Obj -> int) {
    forall o :: o in inactive + active && Candidate(o, inactive, active, nonblocking) ==> unbind(o) == 0
  }

  lemma NoFailure(objs: seq<Obj>, inactive: seq<Obj>, active: seq<Obj>, nonblocking: bool, unbind: Obj -> int)
    requires forall o :: o in objs ==> Candidate(o, inactive, active, nonblocking)
    ensures AllUnbind(inactive, active, nonblocking, unbind) ==> Outcome(objs, unbind) == 0
  {
    var n := Unbound(objs, unbind);
    if n < |objs| {
      assert objs[n] in objs;
    }
  }

  /** What the retry loop leaves when it has succeeded: the node is inserted as the search wanted it, after
      the eviction of `eviction` if the search failed at first. */
  ghost predicate Bound(m: Mm, eviction: seq<Obj>, node: Node, req: Request, r: Mm) {
    && StackExact(m.list, m.stack) && (eviction == [] <==> Search(m, req).Some?)
    && var m' := RemoveAll(m, Spaces(eviction));
       && MmModel.Valid(m') && m'.adjust == m.adjust
       && Legal(m', InsertOp(node, req)) && Search(m', req).Some? && r == Apply(m', InsertOp(node, req))
  }

  /** The check that follows, i915_gem_valid_gtt_space, never fails. */
  lemma BoundPasses(m: Mm, eviction: seq<Obj>, node: Node, req: Request, r: Mm)
    requires m.adjust == Some(I915Adjust) && Sensible(req) && Bound(m, eviction, node, req, r)
    ensures Linked(r.list, node) && 0 < At(r.list, node) && ValidSpace(r.list, At(r.list, node), req.color)
  {
    hide MmModel.Valid, Search, Placement, PlacementIn, SoundAdjust, StackExact, RemoveAll, Spaces, Insert, ValidSpace;
    var m' := RemoveAll(m, Spaces(eviction));
    I915IsSound(m');
    InsertValid(m', node, req);
    InsertKeepsApart(m', node, req);
    ValidDistinct(r);
    AtIs(r.list, At(m'.list, Search(m', req).value) + 1);
  }

  /** The retry loop of i915_gem_object_bind_to_gtt: insert, or evict and insert again.  One eviction is
      always enough, so the loop ends.  It fails exactly when no placement exists even with every candidate
      evicted, or when a candidate in the way cannot be unbound. */
  method BindToGtt(mm: Manager, node: Node, inactive: seq<Obj>, active: seq<Obj>, req: Request, nonblocking: bool,
                   unbind: Obj -> int, ghost pool: set<Node>)
    returns (ret: int, ghost eviction: seq<Obj>)
    requires mm.Separate() && mm.scanned == [] && MmModel.Valid(mm.View()) && SoundAdjust(mm.adjust) && Sensible(req)
    requires Removable(mm.View().list, Candidates(inactive, active, nonblocking)) && Pooled(mm, pool)
    requires node !in pool && !node.isAllocated && !node.scannedBlock
    modifies mm, pool, node
    ensures mm.Separate() && mm.scanned == [] && MmModel.Valid(mm.View())
    ensures forall o :: o in eviction ==> Candidate(o, inactive, active, nonblocking)
    ensures ret == 0 ==> node in mm.nodes && Bound(old(mm.View()), eviction, node, req, mm.View())
    ensures ret != 0 && eviction == [] ==>
              && ret == -ENOSPC && mm.View() == old(mm.View())
              && Hopeless(mm.View(), req, Candidates(inactive, active, nonblocking))
    ensures ret != 0 && eviction != [] ==> ret == Outcome(eviction, unbind)
    ensures !Hopeless(old(mm.View()), req, Candidates(inactive, active, nonblocking))
            && AllUnbind(inactive, active, nonblocking, unbind) ==>
              ret == 0
  {
    hide MmModel.Valid, Removable, Search, Hopeless, SoundAdjust, Entries, StackExact, Legal, Apply, Candidates,
         RemoveAll, Spaces, Unbound, Candidate, AllUnbind;
    ghost var m := mm.View();
    ghost var found := false;
    eviction := [];
    NothingEvicted(m);
    while true
      invariant mm.Separate() && mm.scanned == [] && MmModel.Valid(mm.View()) && SoundAdjust(mm.adjust)
      invariant Pooled(mm, pool)
      invariant !node.isAllocated && !node.scannedBlock
      invariant mm.View() == RemoveAll(m, Spaces(eviction)) && mm.adjust == m.adjust
      invariant forall o :: o in eviction ==> Candidate(o, inactive, active, nonblocking)
      invariant StackExact(m.list, m.stack)
      invariant if found then eviction != [] && Search(m, req).None? && Retries(mm.View(), req) else eviction == []
      decreases !found
    {
      ret := mm.InsertNode(node, req);
      if ret == 0 {
        return;
      }
      ret, found, eviction := EvictSomething(mm, inactive, active, req, nonblocking, unbind, pool);
      NoFailure(eviction, inactive, active, nonblocking, unbind);
      if ret != 0 {
        return;
      }
      assert eviction[..|eviction|] == eviction;
    }
  }

  lemma NothingEvicted(m: Mm)
    requires MmModel.Valid(m)
    ensures RemoveAll(m, Spaces([])) == m && StackExact(m.list, m.stack)
  {
  }
}
