/** Eviction is sound: evicting what the scan names opens the wanted hole, and the retried search
    takes it.  Eviction is complete: if the scan finds nothing, there is nothing to find. */
module MmEviction {
  import opened Lists
  import opened MmModel
  import opened MmAllocation
  import opened MmScan

  // ---------------------------------------------------------------- scanned nodes and the original list

  ghost predicate IsScanned(saved: seq<Saved>, n: Node) {
    exists k :: 0 <= k < |saved| && saved[k].entry.node == n
  }

  /** Every linked node of l is linked with the same block in `origin`; so is every scanned one. */
  ghost predicate PartOf(l: seq<Entry>, saved: seq<Saved>, origin: seq<Entry>) {
    && (forall k :: 0 <= k < |l| ==> Linked(origin, l[k].node) && origin[At(origin, l[k].node)].block == l[k].block)
    && (forall k :: 0 <= k < |saved| ==>
          && Linked(origin, saved[k].entry.node) && !Linked(l, saved[k].entry.node)
          && origin[At(origin, saved[k].entry.node)].block == saved[k].entry.block)
  }

  /** Every node of `origin` is linked in l or scanned. */
  ghost predicate Covers(l: seq<Entry>, saved: seq<Saved>, origin: seq<Entry>) {
    forall k :: 0 <= k < |origin| ==> Linked(l, origin[k].node) || IsScanned(saved, origin[k].node)
  }

  lemma NothingScanned(origin: seq<Entry>)
    requires DistinctNodes(origin)
    ensures PartOf(origin, [], origin) && Covers(origin, [], origin)
  {
    forall k | 0 <= k < |origin|
      ensures Linked(origin, origin[k].node) && At(origin, origin[k].node) == k
    {
      AtIs(origin, k);
    }
  }

  /** Scanning only partitions the original nodes into linked and scanned ones. */
  lemma {:induction false} UnwindsParts(l: seq<Entry>, saved: seq<Saved>, origin: seq<Entry>)
    requires Unwinds(l, saved, origin) && DistinctNodes(origin)
    ensures PartOf(l, saved, origin) && Covers(l, saved, origin)
    ensures |l| > 0 && |origin| > 0 && l[0].node == origin[0].node && l[0].block == origin[0].block
    decreases |saved|
  {
    hide PartOf, Covers, Unlinked, Relink, DistinctNodes;
    if saved == [] {
      NothingScanned(origin);
    } else {
      var v, rest := saved[|saved| - 1], saved[..|saved| - 1];
      var l0 := Relink(l, v);
      UnwindsParts(l0, rest, origin);
      assert saved == rest + [v];
      var i :| 0 < i < |l0| && Unlinked(l0, i, true, l) && v == Saved(l0[i], l0[i - 1].node, l0[i - 1].hole);
      assert DistinctNodes(l0);
      UnlinkParts(l0, i, l, rest, v, origin);
      UnlinkCovers(l0, i, l, rest, v, origin);
    }
  }

  lemma UnlinkCovers(l0: seq<Entry>, i: nat, l: seq<Entry>, saved: seq<Saved>, v: Saved, origin: seq<Entry>)
    requires DistinctNodes(l0) && 0 < i < |l0| && Unlinked(l0, i, true, l) && l0[i] == v.entry
    requires Covers(l0, saved, origin)
    ensures Covers(l, saved + [v], origin)
  {
    UnlinkDistinct(l0, i, true, l);
    forall k | 0 <= k < |origin|
      ensures Linked(l, origin[k].node) || IsScanned(saved + [v], origin[k].node)
    {
      var n := origin[k].node;
      UnlinkAt(l0, i, true, l, n);
      if n == v.entry.node {
        assert (saved + [v])[|saved|].entry.node == n;
      } else if !Linked(l0, n) {
        var j :| 0 <= j < |saved| && saved[j].entry.node == n;
        assert (saved + [v])[j].entry.node == n;
      }
    }
  }

  lemma UnlinkParts(l0: seq<Entry>, i: nat, l: seq<Entry>, saved: seq<Saved>, v: Saved, origin: seq<Entry>)
    requires DistinctNodes(l0) && 0 < i < |l0| && Unlinked(l0, i, true, l) && l0[i] == v.entry
    requires PartOf(l0, saved, origin)
    ensures DistinctNodes(l) && PartOf(l, saved + [v], origin)
    ensures |l| > 0 && l[0].node == l0[0].node && l[0].block == l0[0].block
  {
    UnlinkDistinct(l0, i, true, l);
    forall k | 0 <= k < |l|
      ensures Linked(origin, l[k].node) && origin[At(origin, l[k].node)].block == l[k].block
    {
      var j := if k < i then k else k + 1;
      assert l[k].node == l0[j].node && l[k].block == l0[j].block;
    }
    forall k | 0 <= k < |saved| + 1
      ensures !Linked(l, (saved + [v])[k].entry.node)
    {
      UnlinkAt(l0, i, true, l, (saved + [v])[k].entry.node);
    }
  }

  // ---------------------------------------------------------------- releasing many nodes

  /** Release the nodes of ns in order. */
  ghost function RemoveAll(m: Mm, ns: seq<Node>): Mm
    decreases |ns|
  {
    if ns == [] then m
    else
      var m1, n := RemoveAll(m, ns[..|ns| - 1]), ns[|ns| - 1];
      if Linked(m1.list, n) && At(m1.list, n) > 0 then Remove(m1, At(m1.list, n)) else m1
  }

  /** The nodes of ns are linked (and none is the sentinel), each once. */
  ghost predicate Removable(l: seq<Entry>, ns: seq<Node>) {
    Distinct(ns) && forall k :: 0 <= k < |ns| ==> Linked(l, ns[k]) && At(l, ns[k]) > 0
  }

  /** r holds the nodes of l other than those of ns, with their blocks. */
  ghost predicate Remains(l: seq<Entry>, ns: seq<Node>, r: seq<Entry>) {
    && (forall k :: 0 <= k < |r| ==>
          Linked(l, r[k].node) && r[k].node !in ns && l[At(l, r[k].node)].block == r[k].block)
    && (forall k :: 0 <= k < |l| ==> l[k].node in ns || Linked(r, l[k].node))
  }

  lemma RemainsUnlinked(l: seq<Entry>, ns: seq<Node>, r0: seq<Entry>, i: nat, hole: bool, r: seq<Entry>)
    requires Remains(l, ns, r0) && DistinctNodes(r0) && 0 < i < |r0| && Unlinked(r0, i, hole, r)
    ensures DistinctNodes(r) && Remains(l, ns + [r0[i].node], r)
  {
    UnlinkDistinct(r0, i, hole, r);
    forall k | 0 <= k < |r|
      ensures Linked(l, r[k].node) && r[k].node !in ns + [r0[i].node] && l[At(l, r[k].node)].block == r[k].block
    {
      var j := if k < i then k else k + 1;
      assert r[k].node == r0[j].node && r[k].block == r0[j].block;
    }
    forall k | 0 <= k < |l|
      ensures l[k].node in ns + [r0[i].node] || Linked(r, l[k].node)
    {
      UnlinkAt(r0, i, hole, r, l[k].node);
    }
  }

  /** r is the valid manager that is left of m once the nodes of ns are released. */
  ghost predicate Released(m: Mm, ns: seq<Node>, r: Mm) {
    && Valid(r) && r.adjust == m.adjust && |m.list| > 0
    && Lo(r.list) == Lo(m.list) && Hi(r.list) == Hi(m.list) && r.list[0].node == m.list[0].node
    && Remains(m.list, ns, r.list)
  }

  lemma PrefixRemovable(l: seq<Entry>, ns: seq<Node>, k: nat)
    requires Removable(l, ns) && k <= |ns|
    ensures Removable(l, ns[..k])
  {
    hide At, Linked;
    assert forall j :: 0 <= j < k ==> ns[..k][j] == ns[j];
  }

  /** Releasing linked nodes in any order leaves a valid manager with the other nodes in it. */
  lemma {:induction false} RemoveAllValid(m: Mm, ns: seq<Node>)
    requires Valid(m) && Removable(m.list, ns)
    ensures Released(m, ns, RemoveAll(m, ns))
    decreases |ns|
  {
    hide Valid, Released, Remove, Removable, Linked, At;
    if ns == [] {
      NothingReleased(m);
    } else {
      var rest, n := ns[..|ns| - 1], ns[|ns| - 1];
      RemovableLast(m.list, ns);
      RemoveAllValid(m, rest);
      ReleaseOne(m, rest, n, RemoveAll(m, rest));
      assert ns == rest + [n];
    }
  }

  lemma NothingReleased(m: Mm)
    requires Valid(m)
    ensures Released(m, [], m)
  {
    AtNodes(m.list);
  }

  lemma RemovableLast(l: seq<Entry>, ns: seq<Node>)
    requires Removable(l, ns) && ns != []
    ensures Removable(l, ns[..|ns| - 1])
    ensures ns[|ns| - 1] !in ns[..|ns| - 1] && Linked(l, ns[|ns| - 1]) && At(l, ns[|ns| - 1]) > 0
  {
    PrefixRemovable(l, ns, |ns| - 1);
    NotBefore(ns, |ns| - 1);
  }

  /** One more release, of a node that is still linked. */
  lemma ReleaseOne(m: Mm, ns: seq<Node>, n: Node, r0: Mm)
    requires Valid(m) && Released(m, ns, r0)
    requires Linked(m.list, n) && At(m.list, n) > 0 && n !in ns
    ensures Linked(r0.list, n) && At(r0.list, n) > 0 && r0.list[At(r0.list, n)].block == m.list[At(m.list, n)].block
    ensures Released(m, ns + [n], Remove(r0, At(r0.list, n)))
  {
    hide Valid, Remove, Ordered, DistinctNodes, Remains, HoleStart, HoleEnd;
    ValidDistinct(m);
    ValidDistinct(r0);
    RemainsAt(m.list, ns, r0.list, n);
    var i := At(r0.list, n);
    RemoveValid(r0, i);
    RemainsUnlinked(m.list, ns, r0.list, i, true, Remove(r0, i).list);
  }

  lemma AtNodes(l: seq<Entry>)
    requires DistinctNodes(l)
    ensures forall k :: 0 <= k < |l| ==> Linked(l, l[k].node) && At(l, l[k].node) == k
  {
    forall k | 0 <= k < |l|
      ensures Linked(l, l[k].node) && At(l, l[k].node) == k
    {
      AtIs(l, k);
    }
  }

  /** The step from one prefix to the next releases a linked node, still with its own block. */
  lemma RemoveAllStep(m: Mm, ns: seq<Node>, k: nat)
    requires Valid(m) && Removable(m.list, ns) && 0 < k <= |ns|
    ensures var r0, n := RemoveAll(m, ns[..k - 1]), ns[k - 1];
            && Released(m, ns[..k - 1], r0) && Linked(r0.list, n) && At(r0.list, n) > 0
            && r0.list[At(r0.list, n)].block == m.list[At(m.list, n)].block
            && RemoveAll(m, ns[..k]) == Remove(r0, At(r0.list, n))
  {
    hide Valid, Released, Remove;
    PrefixRemovable(m.list, ns, k - 1);
    RemoveAllValid(m, ns[..k - 1]);
    assert ns[..k][..k - 1] == ns[..k - 1];
    NotBefore(ns, k - 1);
    ReleaseOne(m, ns[..k - 1], ns[k - 1], RemoveAll(m, ns[..k - 1]));
  }

  lemma NotBefore<T>(ns: seq<T>, k: nat)
    requires Distinct(ns) && k < |ns|
    ensures ns[k] !in ns[..k]
  {
  }

  lemma RemainsAt(l: seq<Entry>, ns: seq<Node>, r: seq<Entry>, n: Node)
    requires DistinctNodes(l) && Remains(l, ns, r) && Linked(l, n) && At(l, n) > 0 && n !in ns
    requires |r| > 0 && r[0].node == l[0].node
    ensures Linked(r, n) && At(r, n) > 0 && r[At(r, n)].block == l[At(l, n)].block
  {
    AtIs(l, 0);
    assert l[At(l, n)].node == n;
  }

  lemma ValidDistinct(m: Mm)
    requires Valid(m)
    ensures DistinctNodes(m.list) && Ordered(m.list)
  {
  }

  /** Releasing a node inside leaves the two neighbours in place. */
  lemma EdgesUnlinked(l: seq<Entry>, i: nat, r: seq<Entry>, n: Node, p: Block, q: Block)
    requires Ordered(l) && 0 < i < |l| && Unlinked(l, i, true, r) && Edges(l, n, p, q) && Inside(l[i].block, p, q)
    ensures Edges(r, n, p, q)
  {
    var a: nat, b: nat :| EdgesAt(l, a, b, n, p, q);
    InsideIffBetween(l, a, b, n, p, q, i);
    assert EdgesAt(r, a, b - 1, n, p, q);
  }

  /** Every node inside is among ns. */
  ghost predicate OnlyInside(l: seq<Entry>, p: Block, q: Block, ns: seq<Node>) {
    forall i :: 0 < i < |l| && Inside(l[i].block, p, q) ==> l[i].node in ns
  }

  /** Every node of ns is inside. */
  ghost predicate AllInside(l: seq<Entry>, p: Block, q: Block, ns: seq<Node>) {
    forall k :: 0 <= k < |ns| ==>
      Linked(l, ns[k]) && At(l, ns[k]) > 0 && Inside(l[At(l, ns[k])].block, p, q)
  }

  /** Releasing the nodes inside, in any order, keeps the two neighbours in place. */
  lemma {:induction false} EvictPrefix(m: Mm, ns: seq<Node>, k: nat, n: Node, p: Block, q: Block)
    requires Valid(m) && Edges(m.list, n, p, q) && Distinct(ns) && AllInside(m.list, p, q, ns)
    requires k <= |ns|
    ensures Edges(RemoveAll(m, ns[..k]).list, n, p, q)
    decreases k
  {
    hide Valid, Edges, Released, Unlinked, Remove, RemoveAll, AllInside, Removable, Linked, At, Inside, Distinct;
    if k == 0 {
      NoneReleased(m, ns);
    } else {
      EvictPrefix(m, ns, k - 1, n, p, q);
      InsideRemovable(m.list, p, q, ns);
      RemoveAllStep(m, ns, k);
      var r := RemoveAll(m, ns[..k - 1]);
      IsInside(m.list, p, q, ns, k - 1);
      EvictOne(m, ns[..k - 1], r, At(r.list, ns[k - 1]), n, p, q);
    }
  }

  lemma NoneReleased(m: Mm, ns: seq<Node>)
    ensures RemoveAll(m, ns[..0]) == m
  {
  }

  lemma InsideRemovable(l: seq<Entry>, p: Block, q: Block, ns: seq<Node>)
    requires Distinct(ns) && AllInside(l, p, q, ns)
    ensures Removable(l, ns)
  {
  }

  lemma IsInside(l: seq<Entry>, p: Block, q: Block, ns: seq<Node>, k: nat)
    requires AllInside(l, p, q, ns) && k < |ns|
    ensures Linked(l, ns[k]) && Inside(l[At(l, ns[k])].block, p, q)
  {
  }

  lemma EvictOne(m: Mm, ns: seq<Node>, r: Mm, i: nat, n: Node, p: Block, q: Block)
    requires Valid(m) && Released(m, ns, r) && Edges(r.list, n, p, q)
    requires 0 < i < |r.list| && Inside(r.list[i].block, p, q)
    ensures Edges(Remove(r, i).list, n, p, q)
  {
    hide Edges, Unlinked, Remove, Remains, Inside;
    ValidDistinct(r);
    RemoveUnlinks(r, i);
    EdgesUnlinked(r.list, i, Remove(r, i).list, n, p, q);
  }

  /** Node n heads the stack of holes, and its hole runs from its block p to block q. */
  ghost predicate HoleOnTop(m: Mm, n: Node, p: Block, q: Block) {
    && Valid(m) && |m.stack| > 0 && m.stack[0] == n && Linked(m.list, n)
    && m.list[At(m.list, n)].block == p && After(m.list, At(m.list, n)).block == q
  }

  /** The last node inside lies directly between the two neighbours. */
  lemma LastIsBetween(l: seq<Entry>, i: nat, n: Node, p: Block, q: Block)
    requires Ordered(l) && Edges(l, n, p, q) && 0 < i < |l| && Inside(l[i].block, p, q)
    requires forall j :: 0 < j < |l| && Inside(l[j].block, p, q) ==> j == i
    ensures EdgesAt(l, i - 1, i + 1, n, p, q)
  {
    var a: nat, b: nat :| EdgesAt(l, a, b, n, p, q);
    InsideIffBetween(l, a, b, n, p, q, i);
    InsideIffBetween(l, a, b, n, p, q, a + 1);
    InsideIffBetween(l, a, b, n, p, q, b - 1);
  }

  /** Releasing the last node inside joins the two neighbours. */
  lemma EvictLast(m: Mm, i: nat, n: Node, p: Block, q: Block)
    requires Valid(m) && Edges(m.list, n, p, q) && 0 < i < |m.list| && Inside(m.list[i].block, p, q)
    requires forall j :: 0 < j < |m.list| && Inside(m.list[j].block, p, q) ==> j == i
    ensures HoleOnTop(Remove(m, i), n, p, q)
  {
    ValidDistinct(m);
    LastIsBetween(m.list, i, n, p, q);
    RemoveValid(m, i);
    ValidDistinct(Remove(m, i));
    hide Valid, Ordered, Inside, Edges;
    assert |Remove(m, i).stack| > 0;
    AtIs(Remove(m, i).list, i - 1);
  }

  lemma OneLeftInside(m: Mm, ns: seq<Node>, r: seq<Entry>, p: Block, q: Block, j: nat)
    requires Ordered(m.list) && DistinctNodes(m.list) && DistinctNodes(r)
    requires Distinct(ns) && ns != [] && OnlyInside(m.list, p, q, ns)
    requires Remains(m.list, ns[..|ns| - 1], r) && |r| > 0 && r[0].node == m.list[0].node
    requires 0 < j < |r| && Inside(r[j].block, p, q)
    ensures r[j].node == ns[|ns| - 1]
  {
    var y := r[j].node;
    assert y in ns by {
      assert r[0].node != y;
      assert m.list[At(m.list, y)].node == y;
    }
    var last := |ns| - 1;
    assert forall k :: 0 <= k < last ==> ns[k] in ns[..last];
  }

  /** Releasing exactly the nodes inside, in any order, leaves a single hole between the two
      neighbours, on top of the stack. */
  lemma EvictAll(m: Mm, ns: seq<Node>, n: Node, p: Block, q: Block)
    requires Valid(m) && Edges(m.list, n, p, q) && Distinct(ns) && ns != []
    requires AllInside(m.list, p, q, ns) && OnlyInside(m.list, p, q, ns)
    ensures HoleOnTop(RemoveAll(m, ns), n, p, q)
    ensures RemoveAll(m, ns).adjust == m.adjust && Remains(m.list, ns, RemoveAll(m, ns).list)
  {
    hide Valid, Edges, Remains, Remove, HoleOnTop, Ordered, DistinctNodes;
    var k := |ns| - 1;
    EvictPrefix(m, ns, k, n, p, q);
    RemoveAllStep(m, ns, |ns|);
    RemoveAllValid(m, ns);
    assert ns[..|ns|] == ns;
    var r := RemoveAll(m, ns[..k]);
    hide RemoveAll;
    var i := At(r.list, ns[k]);
    ValidDistinct(m);
    ValidDistinct(r);
    forall j | 0 < j < |r.list| && Inside(r.list[j].block, p, q)
      ensures j == i
    {
      OneLeftInside(m, ns, r.list, p, q, j);
      AtIs(r.list, j);
    }
    EvictLast(r, i, n, p, q);
  }

  // ---------------------------------------------------------------- soundness

  /** n was scanned and lies between the blocks p and q: removing it from the scan answers 1. */
  ghost predicate NamedForEviction(saved: seq<Saved>, p: Block, q: Block, n: Node) {
    exists k :: 0 <= k < |saved| && saved[k].entry.node == n && Inside(saved[k].entry.block, p, q)
  }

  /** At a hit, every node of the original list inside the hole has been scanned. */
  lemma InsideWereScanned(l: seq<Entry>, saved: seq<Saved>, origin: seq<Entry>, i: nat, n: Node, p: Block, q: Block,
                          k: nat)
    requires Ordered(l) && DistinctNodes(origin) && PartOf(l, saved, origin) && Covers(l, saved, origin)
    requires |l| > 0 && l[0].node == origin[0].node && EdgesAt(l, i, i + 1, n, p, q)
    requires 0 < k < |origin| && Inside(origin[k].block, p, q)
    ensures NamedForEviction(saved, p, q, origin[k].node)
  {
    AtNodes(origin);
    var x := origin[k].node;
    if Linked(l, x) {
      assert l[At(l, x)].block == origin[k].block;
      InsideIffBetween(l, i, i + 1, n, p, q, At(l, x));
    }
    var j :| 0 <= j < |saved| && saved[j].entry.node == x;
    assert saved[j].entry.node == x && Inside(saved[j].entry.block, p, q);
  }

  /** Every node named for eviction is an original one, other than the sentinel, inside the hole. */
  lemma NamedAreInside(l: seq<Entry>, saved: seq<Saved>, origin: seq<Entry>, p: Block, q: Block, x: Node)
    requires DistinctNodes(origin) && PartOf(l, saved, origin)
    requires |l| > 0 && |origin| > 0 && l[0].node == origin[0].node && NamedForEviction(saved, p, q, x)
    ensures Linked(origin, x) && At(origin, x) > 0 && Inside(origin[At(origin, x)].block, p, q)
  {
    var k :| 0 <= k < |saved| && saved[k].entry.node == x && Inside(saved[k].entry.block, p, q);
    assert l[0].node != x;
  }

  lemma EdgesUnwound(l: seq<Entry>, saved: seq<Saved>, origin: seq<Entry>, n: Node, p: Block, q: Block)
    requires Unwinds(l, saved, origin) && Edges(l, n, p, q)
    ensures Edges(origin, n, p, q)
    decreases |saved|
  {
    hide Relink, Ordered, DistinctNodes, Unlinked, EdgesAt;
    if saved != [] {
      var v, rest := saved[|saved| - 1], saved[..|saved| - 1];
      var l0 := Relink(l, v);
      var i :| 0 < i < |l0| && Unlinked(l0, i, true, l) && v == Saved(l0[i], l0[i - 1].node, l0[i - 1].hole);
      var a: nat, b: nat :| EdgesAt(l, a, b, n, p, q);
      EdgesRelinked(l0, i, l, a, b, n, p, q);
      EdgesUnwound(l0, rest, origin, n, p, q);
    }
  }

  /** ns lists exactly the nodes named for eviction, each once, in any order. */
  ghost predicate ListsNamed(ns: seq<Node>, saved: seq<Saved>, p: Block, q: Block) {
    && Distinct(ns)
    && (forall k :: 0 <= k < |ns| ==> NamedForEviction(saved, p, q, ns[k]))
    && (forall k :: 0 <= k < |saved| && Inside(saved[k].entry.block, p, q) ==> saved[k].entry.node in ns)
  }

  /** The scan that hits names its own node. */
  lemma HitNodeIsInside(l: seq<Entry>, i: nat)
    requires Ordered(l) && 0 < i < |l|
    ensures Inside(l[i].block, l[i - 1].block, After(Unlink(l, i), i - 1).block)
  {
  }

  /** Releasing the named nodes, in any order, leaves one hole on top of the stack. */
  lemma EvictionOpensHole(m: Mm, s: Scan, i: nat, ns: seq<Node>)
    requires Valid(m) && Unwinds(s.m.list, s.saved, m.list) && 0 < i < |s.m.list|
    requires AddBlock(s, i).1 && s.req.size > 0
    requires ListsNamed(ns, AddBlock(s, i).0.saved, s.m.list[i - 1].block, After(AddBlock(s, i).0.m.list, i - 1).block)
    ensures HoleOnTop(RemoveAll(m, ns), s.m.list[i - 1].node, s.m.list[i - 1].block,
                      After(AddBlock(s, i).0.m.list, i - 1).block)
    ensures RemoveAll(m, ns).adjust == m.adjust && Remains(m.list, ns, RemoveAll(m, ns).list)
  {
    hide Valid, RemoveAll, HoleOnTop, Remains, Unwinds, NamedForEviction, AddBlock, Inside, Linked, At;
    HitNamesItsNode(m, s, i);
    var r := AddBlock(s, i).0;
    NamedListed(m, r, i - 1, s.m.list[i - 1].node, s.m.list[i - 1].block, After(r.m.list, i - 1).block, ns);
  }

  lemma HitNamesItsNode(m: Mm, s: Scan, i: nat)
    requires Unwinds(s.m.list, s.saved, m.list) && 0 < i < |s.m.list|
    requires AddBlock(s, i).1 && s.req.size > 0
    ensures var r := AddBlock(s, i).0; var p, q := s.m.list[i - 1].block, After(r.m.list, i - 1).block;
            && Unwinds(r.m.list, r.saved, m.list)
            && EdgesAt(r.m.list, i - 1, i, s.m.list[i - 1].node, p, q)
            && |r.saved| > 0 && Inside(r.saved[|r.saved| - 1].entry.block, p, q)
  {
    AddKeepsUnwind(s, i, m.list);
    assert Ordered(s.m.list);
    hide Unwinds, Ordered;
    HitEdges(s, i);
    HitNodeIsInside(s.m.list, i);
  }

  lemma NamedListed(m: Mm, r: Scan, i: nat, n: Node, p: Block, q: Block, ns: seq<Node>)
    requires Valid(m) && Unwinds(r.m.list, r.saved, m.list) && EdgesAt(r.m.list, i, i + 1, n, p, q)
    requires ListsNamed(ns, r.saved, p, q) && ns != []
    ensures HoleOnTop(RemoveAll(m, ns), n, p, q)
    ensures RemoveAll(m, ns).adjust == m.adjust && Remains(m.list, ns, RemoveAll(m, ns).list)
  {
    hide Valid, RemoveAll, HoleOnTop, Remains, PartOf, Covers, DistinctNodes, Ordered;
    ValidDistinct(m);
    UnwindsParts(r.m.list, r.saved, m.list);
    EdgesUnwound(r.m.list, r.saved, m.list, n, p, q);
    forall k | 0 < k < |m.list| && Inside(m.list[k].block, p, q)
      ensures m.list[k].node in ns
    {
      InsideWereScanned(r.m.list, r.saved, m.list, i, n, p, q, k);
    }
    forall k | 0 <= k < |ns|
      ensures Linked(m.list, ns[k]) && At(m.list, ns[k]) > 0 && Inside(m.list[At(m.list, ns[k])].block, p, q)
    {
      NamedAreInside(r.m.list, r.saved, m.list, p, q, ns[k]);
    }
    EvictAll(m, ns, n, p, q);
  }

  /** A search whose newest hole fits returns it. */
  lemma TopOfStackFits(m: Mm, n: Node, p: Block, q: Block, req: Request)
    requires HoleOnTop(m, n, p, q) && HoleFits(m.adjust, p, q, req)
    ensures Search(m, req) == Some(n)
  {
  }

  /** After a hit: releasing the nodes named for eviction, in any order, leaves one hole
      [hitStart, hitEnd) on top of the stack; the retried search takes it, and the insertion lands
      inside it with no consistency check failing. */
  lemma EvictionSound(m: Mm, s: Scan, i: nat, ns: seq<Node>, node: Node)
    requires Valid(m) && SoundAdjust(m.adjust) && Sensible(s.req) && s.m.adjust == m.adjust
    requires Unwinds(s.m.list, s.saved, m.list) && 0 < i < |s.m.list| && AddBlock(s, i).1
    requires ListsNamed(ns, AddBlock(s, i).0.saved, s.m.list[i - 1].block, After(AddBlock(s, i).0.m.list, i - 1).block)
    requires !Linked(m.list, node)
    ensures var r, n, m' := AddBlock(s, i).0, s.m.list[i - 1].node, RemoveAll(m, ns);
            && Valid(m') && Linked(m'.list, n) && Remains(m.list, ns, m'.list)
            && HoleStart(m'.list, At(m'.list, n)) == r.hitStart && HoleEnd(m'.list, At(m'.list, n)) == r.hitEnd
            && Search(m', s.req) == Some(n)
            && InsertionLandsIn(m', n, node, s.req, r.hitStart, r.hitEnd)
  {
    EvictionOpensHole(m, s, i, ns);
    HitEdges(s, i);
    var r, n, m' := AddBlock(s, i).0, s.m.list[i - 1].node, RemoveAll(m, ns);
    var p, q := s.m.list[i - 1].block, After(r.m.list, i - 1).block;
    hide Unwinds, AddBlock, Remains, RemoveAll, ListsNamed, Valid, NamedForEviction;
    TopOfStackFits(m', n, p, q, s.req);
    LandsInHole(m, ns, m', n, p, q, node, s.req);
  }

  /** The retried search succeeds once the named nodes are released. */
  lemma RetrySucceeds(m: Mm, s: Scan, i: nat, ns: seq<Node>)
    requires Valid(m) && s.req.size > 0 && s.m.adjust == m.adjust
    requires Unwinds(s.m.list, s.saved, m.list) && 0 < i < |s.m.list| && AddBlock(s, i).1
    requires ListsNamed(ns, AddBlock(s, i).0.saved, s.m.list[i - 1].block, After(AddBlock(s, i).0.m.list, i - 1).block)
    ensures Valid(RemoveAll(m, ns)) && Search(RemoveAll(m, ns), s.req) == Some(s.m.list[i - 1].node)
    ensures Removable(m.list, ns)
  {
    hide RemoveAll, ListsNamed, Unwinds, AddBlock, Remains;
    EvictionOpensHole(m, s, i, ns);
    HitEdges(s, i);
    AddKeepsUnwind(s, i, m.list);
    var r := AddBlock(s, i).0;
    TopOfStackFits(RemoveAll(m, ns), s.m.list[i - 1].node, s.m.list[i - 1].block, After(r.m.list, i - 1).block, s.req);
    NamedRemovable(m, r, s.m.list[i - 1].block, After(r.m.list, i - 1).block, ns);
  }

  lemma NamedRemovable(m: Mm, r: Scan, p: Block, q: Block, ns: seq<Node>)
    requires Valid(m) && Unwinds(r.m.list, r.saved, m.list) && ListsNamed(ns, r.saved, p, q)
    ensures Removable(m.list, ns)
  {
    hide Valid, PartOf, Covers, DistinctNodes, Ordered, NamedForEviction;
    ValidDistinct(m);
    UnwindsParts(r.m.list, r.saved, m.list);
    forall k | 0 <= k < |ns|
      ensures Linked(m.list, ns[k]) && At(m.list, ns[k]) > 0
    {
      NamedAreInside(r.m.list, r.saved, m.list, p, q, ns[k]);
    }
  }

  /** Inserting behind n keeps the manager valid and places the node on an aligned, in-range piece of
      [lo, hi). */
  ghost predicate InsertionLandsIn(m: Mm, n: Node, node: Node, req: Request, lo: int, hi: int) {
    && Linked(m.list, n) && m.list[At(m.list, n)].node in m.stack
    && Valid(Insert(m, At(m.list, n), node, req))
    && (var a := StartIn(m, At(m.list, n), req);
        Placement(m.list, req, a) && lo <= a && a + req.size <= hi)
  }

  lemma LandsInHole(m: Mm, ns: seq<Node>, m': Mm, n: Node, p: Block, q: Block, node: Node, req: Request)
    requires SoundAdjust(m'.adjust) && Sensible(req) && HoleOnTop(m', n, p, q)
    requires Search(m', req) == Some(n)
    requires Remains(m.list, ns, m'.list) && !Linked(m.list, node)
    ensures InsertionLandsIn(m', n, node, req, p.End(), q.start)
  {
    assert !Linked(m'.list, node);
    hide Remains;
    InsertValid(m', node, req);
    ValidDistinct(m');
    PlacementInIsPlacement(m', At(m'.list, n), req, StartIn(m', At(m'.list, n), req));
  }

  // ---------------------------------------------------------------- completeness

  /** No gap between neighbours of l would do. */
  ghost predicate NothingFits(l: seq<Entry>, adjust: Option<ColorAdjust>, req: Request) {
    forall i :: 0 <= i < |l| ==> !HoleFits(adjust, l[i].block, After(l, i).block, req)
  }

  lemma FailedSearchNothingFits(m: Mm, req: Request)
    requires Valid(m) && SoundAdjust(m.adjust) && Sensible(req)
    ensures Search(m, req).None? <==> NothingFits(m.list, m.adjust, req)
  {
    SearchExact(m, req);
    forall i | 0 <= i < |m.list|
      ensures HoleFits(m.adjust, m.list[i].block, After(m.list, i).block, req) <==>
              exists a :: PlacementIn(m, i, req, a)
    {
      FitsExact(m, i, req);
    }
    if Search(m, req).Some? {
      assert Fits(m, At(m.list, Search(m, req).value), req);
    }
  }

  lemma AddWithoutHit(s: Scan, i: nat)
    requires 0 < i < |s.m.list| && s.req.size > 0 && !AddBlock(s, i).1
    requires NothingFits(s.m.list, s.m.adjust, s.req)
    ensures NothingFits(AddBlock(s, i).0.m.list, s.m.adjust, s.req)
  {
    var l, r := s.m.list, AddBlock(s, i).0.m.list;
    UnlinkIsUnlinked(l, i);
    forall k | 0 <= k < |r|
      ensures !HoleFits(s.m.adjust, r[k].block, After(r, k).block, s.req)
    {
      if k < i - 1 {
        assert r[k].block == l[k].block && After(r, k).block == After(l, k).block;
      } else if k > i - 1 {
        assert r[k].block == l[k + 1].block && After(r, k).block == After(l, k + 1).block;
      }
    }
  }

  /** Scan the nodes of ns in order. */
  ghost function ScanAll(s: Scan, ns: seq<Node>): Scan
    decreases |ns|
  {
    if ns == [] then s
    else
      var s1, n := ScanAll(s, ns[..|ns| - 1]), ns[|ns| - 1];
      if Linked(s1.m.list, n) && At(s1.m.list, n) > 0 then AddBlock(s1, At(s1.m.list, n)).0 else s1
  }

  /** The k-th of these scans does not hit. */
  ghost predicate Misses(s: Scan, ns: seq<Node>, k: nat)
    requires k < |ns|
  {
    var s1 := ScanAll(s, ns[..k]);
    Linked(s1.m.list, ns[k]) && At(s1.m.list, ns[k]) > 0 ==> !AddBlock(s1, At(s1.m.list, ns[k])).1
  }

  /** The two walk through the same lists, and the scan keeps its way back. */
  ghost predicate SameLists(s: Scan, r: Mm, m: Mm, req: Request) {
    && s.m.list == r.list && s.m.stack == m.stack && s.m.adjust == m.adjust && s.req == req
    && Unwinds(s.m.list, s.saved, m.list)
  }

  lemma SameListsStep(s: Scan, r: Mm, m: Mm, req: Request, i: nat)
    requires SameLists(s, r, m, req) && 0 < i < |s.m.list|
    ensures SameLists(AddBlock(s, i).0, Remove(r, i), m, req)
  {
    AddKeepsUnwind(s, i, m.list);
  }

  /** Scanning unlinks exactly the nodes that releasing them would. */
  lemma {:induction false} ScanAllIsRemoveAll(m: Mm, req: Request, ns: seq<Node>)
    requires Valid(m)
    ensures SameLists(ScanAll(InitScan(m, req), ns), RemoveAll(m, ns), m, req)
    decreases |ns|
  {
    if ns != [] {
      var rest := ns[..|ns| - 1];
      ScanAllIsRemoveAll(m, req, rest);
      var s, r, n := ScanAll(InitScan(m, req), rest), RemoveAll(m, rest), ns[|ns| - 1];
      assert s.m.list == r.list;
      hide SameLists, Valid, AddBlock, Remove;
      if Linked(r.list, n) && At(r.list, n) > 0 {
        SameListsStep(s, r, m, req, At(r.list, n));
      }
    }
  }

  lemma {:induction false} MissesLeaveNothing(m: Mm, req: Request, ns: seq<Node>, k: nat)
    requires Valid(m) && SoundAdjust(m.adjust) && Sensible(req) && Search(m, req).None?
    requires k <= |ns| && forall j :: 0 <= j < k ==> Misses(InitScan(m, req), ns, j)
    ensures NothingFits(ScanAll(InitScan(m, req), ns[..k]).m.list, m.adjust, req)
    decreases k
  {
    if k == 0 {
      FailedSearchNothingFits(m, req);
    } else {
      hide Valid, Search, NothingFits, AddBlock;
      MissesLeaveNothing(m, req, ns, k - 1);
      assert Misses(InitScan(m, req), ns, k - 1);
      ScanAllKeeps(m, req, ns[..k - 1]);
      MissStep(InitScan(m, req), ns, k);
    }
  }

  lemma MissStep(s: Scan, ns: seq<Node>, k: nat)
    requires 0 < k <= |ns| && Misses(s, ns, k - 1) && s.req.size > 0
    requires var s1 := ScanAll(s, ns[..k - 1]);
             s1.m.adjust == s.m.adjust && s1.req == s.req && NothingFits(s1.m.list, s.m.adjust, s.req)
    ensures NothingFits(ScanAll(s, ns[..k]).m.list, s.m.adjust, s.req)
  {
    hide NothingFits, AddBlock;
    assert ns[..k][..k - 1] == ns[..k - 1];
    var s1, n := ScanAll(s, ns[..k - 1]), ns[k - 1];
    if Linked(s1.m.list, n) && At(s1.m.list, n) > 0 {
      AddWithoutHit(s1, At(s1.m.list, n));
    }
  }

  lemma ScanAllKeeps(m: Mm, req: Request, ns: seq<Node>)
    requires Valid(m)
    ensures var s := ScanAll(InitScan(m, req), ns); s.m.adjust == m.adjust && s.req == req
  {
    hide ScanAll, RemoveAll, Valid;
    ScanAllIsRemoveAll(m, req, ns);
  }

  /** If the search failed and no scan of the offered nodes hits, the search still fails with all
      offered nodes released: without colouring, no placement exists at all. */
  lemma EvictionComplete(m: Mm, req: Request, ns: seq<Node>)
    requires Valid(m) && SoundAdjust(m.adjust) && Sensible(req) && Search(m, req).None?
    requires Removable(m.list, ns)
    requires forall j :: 0 <= j < |ns| ==> Misses(InitScan(m, req), ns, j)
    ensures Valid(RemoveAll(m, ns)) && Search(RemoveAll(m, ns), req).None?
    ensures m.adjust.None? ==> forall a :: !Placement(RemoveAll(m, ns).list, req, a)
  {
    MissesLeaveNothing(m, req, ns, |ns|);
    ScanAllIsRemoveAll(m, req, ns);
    RemoveAllValid(m, ns);
    assert ns[..|ns|] == ns;
    FailedSearchNothingFits(RemoveAll(m, ns), req);
    if m.adjust.None? {
      SearchExactByAddress(RemoveAll(m, ns), req);
    }
  }
}
