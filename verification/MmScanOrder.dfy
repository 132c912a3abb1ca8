/** In which order scanned nodes may come back.  The comment of drm_mm_scan_remove_block asks for "the
    same order" in which they were scanned; what the code needs is the reverse order. */
module MmScanOrder {
  import opened Lists
  import opened MmModel
  import opened MmAllocation
  import opened MmScan
  import opened MmEviction

  /** What scanning entry i remembers. */
  function SavedAt(l: seq<Entry>, i: nat): Saved
    requires 0 < i < |l|
  {
    Saved(l[i], l[i - 1].node, l[i - 1].hole)
  }

  /** The position of entry j once entry i is unlinked. */
  function Shifted(i: nat, j: nat): nat
    requires i != j
  {
    if j < i then j else j - 1
  }

  /** Entries i and j are scanned in this order and removed from the scan in the same order. */
  ghost function SameOrder(l: seq<Entry>, i: nat, j: nat): seq<Entry>
    requires 0 < i < |l| && 0 < j < |l| && i != j
  {
    var l1 := Unlink(l, i);
    var j1 := Shifted(i, j);
    Relink(Relink(Unlink(l1, j1), SavedAt(l, i)), SavedAt(l1, j1))
  }

  /** ... and in the reverse order. */
  ghost function ReverseOrder(l: seq<Entry>, i: nat, j: nat): seq<Entry>
    requires 0 < i < |l| && 0 < j < |l| && i != j
  {
    var l1 := Unlink(l, i);
    var j1 := Shifted(i, j);
    Relink(Relink(Unlink(l1, j1), SavedAt(l1, j1)), SavedAt(l, i))
  }

  lemma RelinkAt(l: seq<Entry>, v: Saved, k: nat)
    requires DistinctNodes(l) && k < |l| && l[k].node == v.link
    ensures Relink(l, v) == l[..k] + [l[k].(hole := v.preceeds), v.entry] + l[k + 1..]
  {
    AtIs(l, k);
  }

  lemma UnlinkKeepsDistinct(l: seq<Entry>, i: nat)
    requires DistinctNodes(l) && 0 < i < |l|
    ensures DistinctNodes(Unlink(l, i)) && |Unlink(l, i)| == |l| - 1
    ensures forall k :: 0 <= k < |l| - 1 ==>
              Unlink(l, i)[k] == if k < i - 1 then l[k] else if k == i - 1 then l[k].(hole := true) else l[k + 1]
  {
    UnlinkIsUnlinked(l, i);
    UnlinkDistinct(l, i, true, Unlink(l, i));
  }

  /** The first one back finds its predecessor in place, unless that is the other scanned node. */
  lemma FirstBack(l: seq<Entry>, i: nat, j: nat)
    requires DistinctNodes(l) && 0 < i < |l| && 0 < j < |l| && i != j && j != i - 1
    ensures var l2 := Unlink(Unlink(l, i), Shifted(i, j));
            var a := if j < i then i - 2 else i - 1;
            && DistinctNodes(l2) && a < |l2| && l2[a].node == l[i - 1].node
            && Relink(l2, SavedAt(l, i)) == l2[..a] + [l2[a].(hole := l[i - 1].hole), l[i]] + l2[a + 1..]
  {
    UnlinkKeepsDistinct(l, i);
    UnlinkKeepsDistinct(Unlink(l, i), Shifted(i, j));
    RelinkAt(Unlink(Unlink(l, i), Shifted(i, j)), SavedAt(l, i), if j < i then i - 2 else i - 1);
  }

  /** Its predecessor is unlinked itself: the node is not reached from the list any more. */
  lemma FirstLost(l: seq<Entry>, i: nat)
    requires DistinctNodes(l) && 1 < i < |l|
    ensures |SameOrder(l, i, i - 1)| < |l|
  {
    UnlinkKeepsDistinct(l, i);
    var l1 := Unlink(l, i);
    UnlinkKeepsDistinct(l1, i - 1);
    var l2 := Unlink(l1, i - 1);
    forall k | 0 <= k < |l2|
      ensures l2[k].node != l[i - 1].node
    {
    }
    assert !Linked(l2, SavedAt(l, i).link);
  }

  /** The successor was scanned second: it comes back on the wrong side. */
  lemma SecondMisplaced(l: seq<Entry>, i: nat)
    requires DistinctNodes(l) && 0 < i && i + 1 < |l|
    ensures SameOrder(l, i, i + 1) != l
  {
    FirstBack(l, i, i + 1);
    UnlinkKeepsDistinct(l, i);
    var l1 := Unlink(l, i);
    UnlinkKeepsDistinct(l1, i);
    var l2 := Unlink(l1, i);
    var l3 := Relink(l2, SavedAt(l, i));
    DistinctAgain(l, l2, l3, i - 1, i);
    RelinkAt(l3, SavedAt(l1, i), i - 1);
    assert SameOrder(l, i, i + 1)[i].node == l[i + 1].node;
  }

  lemma DistinctAgain(l: seq<Entry>, l2: seq<Entry>, l3: seq<Entry>, a: nat, i: nat)
    requires DistinctNodes(l2) && a < |l2| && 0 < i < |l|
    requires l3 == l2[..a] + [l2[a].(hole := l[i - 1].hole), l[i]] + l2[a + 1..]
    requires forall k :: 0 <= k < |l2| ==> l2[k].node != l[i].node
    ensures DistinctNodes(l3)
  {
    forall k | 0 <= k < |l3|
      ensures l3[k].node == if k <= a then l2[k].node else if k == a + 1 then l[i].node else l2[k - 1].node
    {
    }
  }

  /** Nodes that are not neighbours do not see each other: with the first one back, it is as if only
      the second had been scanned. */
  lemma FirstBackIs(l: seq<Entry>, i: nat, j: nat)
    requires DistinctNodes(l) && 0 < i < |l| && 0 < j < |l| && i != j && j != i - 1 && j != i + 1
    ensures Relink(Unlink(Unlink(l, i), Shifted(i, j)), SavedAt(l, i)) == Unlink(l, j)
  {
    FirstBack(l, i, j);
    TwoUnlinked(l, i, j);
    UnlinkIsUnlinked(l, j);
    hide Relink, DistinctNodes, Unlink, SavedAt, Unlinked;
    BackAmong(l, i, j, Unlink(Unlink(l, i), Shifted(i, j)));
    SameUnlinked(l, j, Relink(Unlink(Unlink(l, i), Shifted(i, j)), SavedAt(l, i)), Unlink(l, j));
  }

  lemma SameUnlinked(l: seq<Entry>, j: nat, r: seq<Entry>, u: seq<Entry>)
    requires 0 < j < |l| && Unlinked(l, j, true, r) && Unlinked(l, j, true, u)
    ensures r == u
  {
    forall k: nat | k < |u|
      ensures r[k] == u[k]
    {
      if k >= j {
        assert r[k] == l[k + 1];
      }
    }
  }

  /** The same entry by entry: l2 with entry i back is l without entry j. */
  lemma BackAmong(l: seq<Entry>, i: nat, j: nat, l2: seq<Entry>)
    requires 0 < i < |l| && 0 < j < |l| && i != j && j != i - 1 && j != i + 1
    requires |l2| == |l| - 2
    requires forall k: nat :: k < |l2| ==>
               l2[k] == if Origin(i, j, k) == i - 1 || Origin(i, j, k) == j - 1
                        then l[Origin(i, j, k)].(hole := true) else l[Origin(i, j, k)]
    ensures var a := if j < i then i - 2 else i - 1;
            Unlinked(l, j, true, l2[..a] + [l2[a].(hole := l[i - 1].hole), l[i]] + l2[a + 1..])
  {
    var a := if j < i then i - 2 else i - 1;
    var r := l2[..a] + [l2[a].(hole := l[i - 1].hole), l[i]] + l2[a + 1..];
    assert Origin(i, j, a) == i - 1;
    forall k: nat | k < |r|
      ensures r[k] == if k == a then l[i - 1] else if k == a + 1 then l[i] else if k < a then l2[k] else l2[k - 1]
    {
    }
    BackEntries(l, i, j, l2, r);
  }

  lemma BackEntries(l: seq<Entry>, i: nat, j: nat, l2: seq<Entry>, r: seq<Entry>)
    requires 0 < i < |l| && 0 < j < |l| && i != j && j != i - 1 && j != i + 1
    requires |l2| == |l| - 2 && |r| == |l| - 1
    requires forall k: nat :: k < |l2| ==>
               l2[k] == if Origin(i, j, k) == i - 1 || Origin(i, j, k) == j - 1
                        then l[Origin(i, j, k)].(hole := true) else l[Origin(i, j, k)]
    requires var a := if j < i then i - 2 else i - 1;
             forall k: nat {:trigger r[k]} :: k < |r| ==>
               r[k] == if k == a then l[i - 1] else if k == a + 1 then l[i] else if k < a then l2[k] else l2[k - 1]
    ensures Unlinked(l, j, true, r)
  {
    var a := if j < i then i - 2 else i - 1;
    forall k: nat | k < |r|
      ensures r[k] == if k == j - 1 then l[k].(hole := true) else if k < j then l[k] else l[k + 1]
    {
      if k < a {
        assert r[k] == l2[k];
      } else if k > a + 1 {
        assert r[k] == l2[k - 1];
      }
    }
  }

  lemma TwoUnlinked(l: seq<Entry>, i: nat, j: nat)
    requires DistinctNodes(l) && 0 < i < |l| && 0 < j < |l| && i != j && j != i - 1 && j != i + 1
    ensures var l2 := Unlink(Unlink(l, i), Shifted(i, j));
            && |l2| == |l| - 2
            && forall k: nat :: k < |l2| ==>
                 l2[k] == if Origin(i, j, k) == i - 1 || Origin(i, j, k) == j - 1
                          then l[Origin(i, j, k)].(hole := true) else l[Origin(i, j, k)]
  {
    UnlinkKeepsDistinct(l, i);
    var l1, j1 := Unlink(l, i), Shifted(i, j);
    UnlinkKeepsDistinct(l1, j1);
    var l2 := Unlink(l1, j1);
    forall k: nat | k < |l2|
      ensures l2[k] == if Origin(i, j, k) == i - 1 || Origin(i, j, k) == j - 1
                       then l[Origin(i, j, k)].(hole := true) else l[Origin(i, j, k)]
    {
      var m := if k < j1 then k else k + 1;
      assert l2[k] == if k == j1 - 1 then l1[m].(hole := true) else l1[m];
      assert l1[m] == if m == i - 1 then l[i - 1].(hole := true) else if m < i then l[m] else l[m + 1];
    }
  }

  /** Where the k-th entry was before i and j were unlinked. */
  function Origin(i: nat, j: nat, k: nat): (o: nat)
    ensures o <= k + 2
  {
    if k < i && k < j then k else if k + 1 < i || k + 1 < j then k + 1 else k + 2
  }

  lemma ApartRestores(l: seq<Entry>, i: nat, j: nat)
    requires DistinctNodes(l) && 0 < i < |l| && 0 < j < |l| && i != j && j != i - 1 && j != i + 1
    ensures SameOrder(l, i, j) == l
  {
    FirstBackIs(l, i, j);
    UnlinkKeepsDistinct(l, i);
    assert SavedAt(Unlink(l, i), Shifted(i, j)) == SavedAt(l, j);
    hide Relink, Unlink, DistinctNodes, Unlinked;
    UnlinkIsUnlinked(l, j);
    RelinkUndoes(l, j, Unlink(l, j));
  }

  /** Two nodes may come back in the order in which they were scanned if and only if they were not
      neighbours; in the reverse order they always may. */
  lemma OrderMatters(l: seq<Entry>, i: nat, j: nat)
    requires DistinctNodes(l) && 0 < i < |l| && 0 < j < |l| && i != j
    ensures SameOrder(l, i, j) == l <==> j != i - 1 && j != i + 1
    ensures ReverseOrder(l, i, j) == l
  {
    if j == i - 1 {
      FirstLost(l, i);
    } else if j == i + 1 {
      SecondMisplaced(l, i);
    } else {
      ApartRestores(l, i, j);
    }
    UnlinkKeepsDistinct(l, i);
    UnlinkIsUnlinked(l, i);
    UnlinkIsUnlinked(Unlink(l, i), Shifted(i, j));
    hide Unlink, Unlinked, DistinctNodes, Relink;
    RelinkUndoes(Unlink(l, i), Shifted(i, j), Unlink(Unlink(l, i), Shifted(i, j)));
    RelinkUndoes(l, i, Unlink(l, i));
  }

  // ---------------------------------------------------------------- any number of nodes

  /** l with node n unlinked by a scan, and what the scan remembers of it. */
  ghost function Without(l: seq<Entry>, n: Node): seq<Entry> {
    if Linked(l, n) && At(l, n) > 0 then Unlink(l, At(l, n)) else l
  }

  ghost function SavedNode(l: seq<Entry>, n: Node): Saved
    requires Linked(l, n) && At(l, n) > 0
  {
    SavedAt(l, At(l, n))
  }

  /** The list once the nodes of ns are scanned one after the other, */
  ghost function ScanList(l: seq<Entry>, ns: seq<Node>): seq<Entry>
    decreases |ns|
  {
    if ns == [] then l else ScanList(Without(l, ns[0]), ns[1..])
  }

  /** and what is remembered of them, in that order. */
  ghost function ScanSaved(l: seq<Entry>, ns: seq<Node>): seq<Saved>
    decreases |ns|
  {
    if ns == [] then []
    else (if Linked(l, ns[0]) && At(l, ns[0]) > 0 then [SavedNode(l, ns[0])] else [])
         + ScanSaved(Without(l, ns[0]), ns[1..])
  }

  /** Removing them from the scan in the order in which they were scanned. */
  ghost function InScanOrder(l: seq<Entry>, saved: seq<Saved>): seq<Entry>
    decreases |saved|
  {
    if saved == [] then l else InScanOrder(Relink(l, saved[0]), saved[1..])
  }

  /** Node b is linked right behind node a. */
  ghost predicate Follows(l: seq<Entry>, a: Node, b: Node) {
    exists k :: 0 <= k < |l| - 1 && l[k].node == a && l[k + 1].node == b
  }

  /** No node of ns follows another one. */
  ghost predicate Apart(l: seq<Entry>, ns: seq<Node>) {
    forall i, j :: 0 <= i < |ns| && 0 <= j < |ns| ==> !Follows(l, ns[i], ns[j])
  }

  /** Neither neighbour of n is in ns. */
  ghost predicate Isolated(l: seq<Entry>, n: Node, ns: seq<Node>) {
    forall i :: 0 <= i < |ns| ==> !Follows(l, n, ns[i]) && !Follows(l, ns[i], n)
  }

  // ---------------------------------------------------------------- one node less

  lemma WithoutAt(l: seq<Entry>, n: Node)
    requires DistinctNodes(l) && Linked(l, n) && At(l, n) > 0
    ensures var r := Without(l, n);
            && DistinctNodes(r) && Unlinked(l, At(l, n), true, r) && |r| == |l| - 1
    ensures forall m :: Linked(Without(l, n), m) <==> Linked(l, m) && m != n
    ensures forall m :: Linked(Without(l, n), m) ==> (At(Without(l, n), m) > 0 <==> At(l, m) > 0)
  {
    var i := At(l, n);
    UnlinkKeepsDistinct(l, i);
    UnlinkIsUnlinked(l, i);
    var r := Unlink(l, i);
    forall m
      ensures Linked(r, m) <==> Linked(l, m) && m != n
      ensures Linked(r, m) ==> (At(r, m) > 0 <==> At(l, m) > 0)
    {
      UnlinkAt(l, i, true, r, m);
      if Linked(r, m) {
        AtIs(l, 0);
        AtIs(r, 0);
      }
    }
  }

  lemma RemovableRest(l: seq<Entry>, ns: seq<Node>)
    requires DistinctNodes(l) && Removable(l, ns) && ns != []
    ensures Linked(l, ns[0]) && At(l, ns[0]) > 0 && ns[0] !in ns[1..]
    ensures DistinctNodes(Without(l, ns[0])) && Removable(l, ns[1..]) && Removable(Without(l, ns[0]), ns[1..])
  {
    WithoutAt(l, ns[0]);
    hide Linked, At, Without, DistinctNodes, Unlinked;
    forall k | 0 <= k < |ns[1..]|
      ensures ns[1..][k] == ns[k + 1] && Linked(Without(l, ns[0]), ns[1..][k]) && At(Without(l, ns[0]), ns[1..][k]) > 0
    {
    }
  }

  /** Unlinking two nodes that are not neighbours: the order does not matter, nor does one see the other. */
  lemma UnlinksCommute(l: seq<Entry>, n: Node, m: Node)
    requires DistinctNodes(l) && n != m && Linked(l, n) && At(l, n) > 0 && Linked(l, m) && At(l, m) > 0
    requires !Follows(l, n, m) && !Follows(l, m, n)
    ensures Without(Without(l, n), m) == Without(Without(l, m), n)
    ensures Linked(Without(l, n), m) && At(Without(l, n), m) > 0 && SavedNode(Without(l, n), m) == SavedNode(l, m)
  {
    var i, j := At(l, n), At(l, m);
    assert j != i + 1 && j != i - 1;
    WithoutBoth(l, n, m);
    WithoutBoth(l, m, n);
    hide Unlink, At, Linked, DistinctNodes;
    TwoUnlinked(l, i, j);
    TwoUnlinked(l, j, i);
    var a, b := Unlink(Unlink(l, i), Shifted(i, j)), Unlink(Unlink(l, j), Shifted(j, i));
    forall k: nat | k < |a|
      ensures a[k] == b[k]
    {
      assert Origin(i, j, k) == Origin(j, i, k);
    }
    assert a == b;
  }

  lemma WithoutBoth(l: seq<Entry>, n: Node, m: Node)
    requires DistinctNodes(l) && n != m && Linked(l, n) && At(l, n) > 0 && Linked(l, m) && At(l, m) > 0
    requires At(l, m) != At(l, n) + 1 && At(l, m) != At(l, n) - 1
    ensures var i, j := At(l, n), At(l, m);
            && i != j && Without(l, n) == Unlink(l, i)
            && Linked(Unlink(l, i), m) && At(Unlink(l, i), m) == Shifted(i, j) > 0
            && Without(Without(l, n), m) == Unlink(Unlink(l, i), Shifted(i, j))
            && SavedNode(Without(l, n), m) == SavedNode(l, m)
  {
    var i, j := At(l, n), At(l, m);
    UnlinkKeepsDistinct(l, i);
    assert Unlink(l, i)[Shifted(i, j)].node == m;
    AtIs(Unlink(l, i), Shifted(i, j));
  }

  /** The neighbours of n stay its neighbours when another node goes. */
  lemma FollowsKept(l: seq<Entry>, m: Node, a: Node, b: Node)
    requires DistinctNodes(l) && Linked(l, m) && At(l, m) > 0 && Follows(l, a, b) && m != a && m != b
    ensures Follows(Without(l, m), a, b)
  {
    var i := At(l, m);
    UnlinkKeepsDistinct(l, i);
    var r := Unlink(l, i);
    var k :| 0 <= k < |l| - 1 && l[k].node == a && l[k + 1].node == b;
    if k < i {
      assert r[k].node == a && r[k + 1].node == b;
    } else {
      assert r[k - 1].node == a && r[k].node == b;
    }
  }

  /** Whoever become neighbours were neighbours before, or m was between them. */
  lemma FollowsOnly(l: seq<Entry>, m: Node, a: Node, b: Node)
    requires DistinctNodes(l) && Linked(l, m) && At(l, m) > 0 && Follows(Without(l, m), a, b)
    ensures Follows(l, a, b) || (Follows(l, a, m) && Follows(l, m, b))
  {
    var i := At(l, m);
    UnlinkKeepsDistinct(l, i);
    var r := Unlink(l, i);
    var k :| 0 <= k < |r| - 1 && r[k].node == a && r[k + 1].node == b;
    if k < i - 1 {
      assert l[k].node == a && l[k + 1].node == b;
    } else if k >= i {
      assert l[k + 1].node == a && l[k + 2].node == b;
    } else {
      assert l[i - 1].node == a && l[i].node == m && l[i + 1].node == b;
    }
  }

  /** When a node goes that is no neighbour of n, none of the others becomes one. */
  lemma IsolatedKept(l: seq<Entry>, n: Node, ns: seq<Node>)
    requires DistinctNodes(l) && ns != [] && Linked(l, ns[0]) && At(l, ns[0]) > 0 && Isolated(l, n, ns)
    ensures Isolated(Without(l, ns[0]), n, ns[1..])
  {
    hide Follows, At, Linked, DistinctNodes, Without;
    var r := Without(l, ns[0]);
    forall k | 0 <= k < |ns[1..]|
      ensures !Follows(r, n, ns[1..][k]) && !Follows(r, ns[1..][k], n)
    {
      assert ns[1..][k] == ns[k + 1];
      if Follows(r, n, ns[k + 1]) {
        FollowsOnly(l, ns[0], n, ns[k + 1]);
      }
      if Follows(r, ns[k + 1], n) {
        FollowsOnly(l, ns[0], ns[k + 1], n);
      }
    }
  }

  /** With an isolated node back first, it is as if the others alone had been scanned. */
  lemma {:induction false} FirstBackAlone(l: seq<Entry>, n: Node, ns: seq<Node>)
    requires DistinctNodes(l) && Removable(l, [n] + ns) && Isolated(l, n, ns)
    ensures Linked(l, n) && At(l, n) > 0
    ensures Relink(ScanList(Without(l, n), ns), SavedNode(l, n)) == ScanList(l, ns)
    ensures ScanSaved(Without(l, n), ns) == ScanSaved(l, ns)
    decreases |ns|
  {
    hide Follows, At, Linked, DistinctNodes, Without, Relink, Isolated, Removable, SavedNode;
    HeadAndTail(l, n, ns);
    if ns == [] {
      WithoutAndBack(l, n);
    } else {
      var m := ns[0];
      NotBeside(l, n, ns);
      UnlinksCommute(l, n, m);
      UnlinksCommute(l, m, n);
      WithoutRest(l, n, ns);
      IsolatedKept(l, n, ns);
      FirstBackAlone(Without(l, m), n, ns[1..]);
    }
  }

  lemma HeadAndTail(l: seq<Entry>, n: Node, ns: seq<Node>)
    requires Removable(l, [n] + ns)
    ensures Linked(l, n) && At(l, n) > 0 && n !in ns && Removable(l, ns)
    ensures ns != [] ==> Linked(l, ns[0]) && At(l, ns[0]) > 0 && n != ns[0]
  {
    hide At, Linked;
    assert ([n] + ns)[0] == n;
    assert forall k :: 0 <= k < |ns| ==> ([n] + ns)[k + 1] == ns[k];
  }

  lemma WithoutAndBack(l: seq<Entry>, n: Node)
    requires DistinctNodes(l) && Linked(l, n) && At(l, n) > 0
    ensures Relink(Without(l, n), SavedNode(l, n)) == l
  {
    UnlinkIsUnlinked(l, At(l, n));
    RelinkUndoes(l, At(l, n), Unlink(l, At(l, n)));
  }

  lemma NotBeside(l: seq<Entry>, n: Node, ns: seq<Node>)
    requires Isolated(l, n, ns) && ns != []
    ensures !Follows(l, n, ns[0]) && !Follows(l, ns[0], n)
  {
  }

  lemma WithoutRest(l: seq<Entry>, n: Node, ns: seq<Node>)
    requires DistinctNodes(l) && Removable(l, [n] + ns) && ns != []
    ensures DistinctNodes(Without(l, ns[0])) && Removable(Without(l, ns[0]), [n] + ns[1..])
  {
    HeadAndTail(l, n, ns);
    WithoutAt(l, ns[0]);
    hide At, Linked, Without, DistinctNodes, Unlinked;
    var t := [n] + ns[1..];
    assert ([n] + ns)[0] == n && forall k :: 0 <= k < |ns| ==> ([n] + ns)[k + 1] == ns[k];
    forall k | 0 <= k < |t|
      ensures Linked(Without(l, ns[0]), t[k]) && At(Without(l, ns[0]), t[k]) > 0
    {
      assert t[k] == ([n] + ns)[if k == 0 then 0 else k + 1];
    }
  }

  // ---------------------------------------------------------------- neighbours never come back right

  /** Scanning unlinks exactly the nodes of ns. */
  lemma {:induction false} ScannedAreGone(l: seq<Entry>, ns: seq<Node>)
    requires DistinctNodes(l) && Removable(l, ns)
    ensures DistinctNodes(ScanList(l, ns))
    ensures forall m :: Linked(ScanList(l, ns), m) <==> Linked(l, m) && m !in ns
    decreases |ns|
  {
    hide DistinctNodes, Removable, Without, Linked, At;
    if ns != [] {
      RemovableRest(l, ns);
      WithoutLinks(l, ns[0]);
      ScannedAreGone(Without(l, ns[0]), ns[1..]);
    }
  }

  lemma WithoutLinks(l: seq<Entry>, n: Node)
    requires DistinctNodes(l) && Linked(l, n) && At(l, n) > 0
    ensures forall m :: Linked(Without(l, n), m) <==> Linked(l, m) && m != n
  {
    hide Unlinked;
    WithoutAt(l, n);
  }

  lemma {:induction false} SavedNodes(l: seq<Entry>, ns: seq<Node>)
    requires DistinctNodes(l) && Removable(l, ns)
    ensures |ScanSaved(l, ns)| == |ns| && forall k :: 0 <= k < |ns| ==> ScanSaved(l, ns)[k].entry.node == ns[k]
    decreases |ns|
  {
    hide DistinctNodes, Removable, Without, Linked;
    if ns != [] {
      RemovableRest(l, ns);
      SavedNodes(Without(l, ns[0]), ns[1..]);
    }
  }

  /** A node that is unlinked and not to be removed from the scan stays unlinked. */
  lemma {:induction false} NeverBack(l: seq<Entry>, saved: seq<Saved>, n: Node)
    requires !Linked(l, n) && forall k :: 0 <= k < |saved| ==> saved[k].entry.node != n
    ensures !Linked(InScanOrder(l, saved), n)
    decreases |saved|
  {
    hide Relink, Linked;
    if saved != [] {
      RelinkLinks(l, saved[0], n);
      NeverBack(Relink(l, saved[0]), saved[1..], n);
    }
  }

  lemma RelinkLinks(l: seq<Entry>, v: Saved, n: Node)
    requires !Linked(l, n) && v.entry.node != n
    ensures !Linked(Relink(l, v), n)
  {
  }

  /** If the predecessor of n is scanned after it, n is lost. */
  lemma Lost(l: seq<Entry>, n: Node, ns: seq<Node>, p: Node)
    requires DistinctNodes(l) && Removable(l, [n] + ns) && Follows(l, p, n) && p in ns
    ensures Linked(l, n) && At(l, n) > 0
    ensures InScanOrder(Relink(ScanList(Without(l, n), ns), SavedNode(l, n)), ScanSaved(Without(l, n), ns)) != l
  {
    hide Removable, Without, ScanList, ScanSaved, DistinctNodes;
    HeadAndTail(l, n, ns);
    LinkIs(l, p, n);
    RestRemovable(l, n, ns);
    var r := Without(l, n);
    WithoutLinks(l, n);
    ScannedAreGone(r, ns);
    SavedNodes(r, ns);
    var l2 := ScanList(r, ns);
    assert Relink(l2, SavedNode(l, n)) == l2;
    NeverBack(l2, ScanSaved(r, ns), n);
  }

  lemma RestRemovable(l: seq<Entry>, n: Node, ns: seq<Node>)
    requires DistinctNodes(l) && Removable(l, [n] + ns)
    ensures DistinctNodes(Without(l, n)) && Removable(Without(l, n), ns) && Removable(l, ns) && n !in ns
  {
    hide Removable, DistinctNodes, Without;
    RemovableRest(l, [n] + ns);
    assert ([n] + ns)[0] == n && ([n] + ns)[1..] == ns;
  }

  lemma LinkIs(l: seq<Entry>, p: Node, n: Node)
    requires DistinctNodes(l) && Linked(l, n) && At(l, n) > 0 && Follows(l, p, n)
    ensures SavedNode(l, n).link == p && SavedNode(l, n).entry.node == n && Linked(l, p) && p != n
  {
    var k :| 0 <= k < |l| - 1 && l[k].node == p && l[k + 1].node == n;
    AtIs(l, k + 1);
  }

  /** Every occurrence of a stands before every one of b. */
  ghost predicate AllBefore(l: seq<Entry>, a: Node, b: Node) {
    forall i, j :: 0 <= i < |l| && 0 <= j < |l| && l[i].node == a && l[j].node == b ==> i < j
  }

  ghost predicate Before(l: seq<Entry>, a: Node, b: Node) {
    exists i, j :: 0 <= i < j < |l| && l[i].node == a && l[j].node == b
  }

  lemma RelinkKeepsBefore(l: seq<Entry>, v: Saved, a: Node, b: Node)
    requires Before(l, a, b)
    ensures Before(Relink(l, v), a, b)
  {
    if Linked(l, v.link) {
      var k := At(l, v.link);
      var r := Relink(l, v);
      var i, j :| 0 <= i < j < |l| && l[i].node == a && l[j].node == b;
      assert r[if i <= k then i else i + 1].node == a && r[if j <= k then j else j + 1].node == b;
    }
  }

  lemma RelinkKeepsLinked(l: seq<Entry>, v: Saved, a: Node)
    requires Linked(l, a)
    ensures Linked(Relink(l, v), a)
  {
    if Linked(l, v.link) {
      var k := At(l, v.link);
      var i :| 0 <= i < |l| && l[i].node == a;
      assert Relink(l, v)[if i <= k then i else i + 1].node == a;
    }
  }

  lemma RelinkKeepsAllBefore(l: seq<Entry>, v: Saved, a: Node, b: Node)
    requires AllBefore(l, a, b) && v.entry.node != a && v.entry.node != b
    ensures AllBefore(Relink(l, v), a, b)
  {
    if Linked(l, v.link) {
      var k, r := At(l, v.link), Relink(l, v);
      forall i, j | 0 <= i < |r| && 0 <= j < |r| && r[i].node == a && r[j].node == b
        ensures i < j
      {
        assert i != k + 1 && j != k + 1;
        assert r[i].node == l[if i <= k then i else i - 1].node;
        assert r[j].node == l[if j <= k then j else j - 1].node;
      }
    }
  }

  /** What comes back behind p stands before what stood behind p. */
  lemma RelinkSlipsIn(l: seq<Entry>, v: Saved, p: Node, n: Node)
    requires AllBefore(l, p, n) && Linked(l, p) && Linked(l, n) && v.link == p
    ensures Before(Relink(l, v), v.entry.node, n)
  {
    var k := At(l, p);
    var j :| 0 <= j < |l| && l[j].node == n;
    var r := Relink(l, v);
    assert r[k + 1].node == v.entry.node && r[j + 1].node == n;
  }

  lemma {:induction false} StaysBefore(l: seq<Entry>, saved: seq<Saved>, a: Node, b: Node)
    requires Before(l, a, b)
    ensures Before(InScanOrder(l, saved), a, b)
    decreases |saved|
  {
    hide Relink, Before;
    if saved != [] {
      RelinkKeepsBefore(l, saved[0], a, b);
      StaysBefore(Relink(l, saved[0]), saved[1..], a, b);
    }
  }

  /** If p and n stay linked and q is to come back behind p, it ends up before n. */
  lemma {:induction false} SlipsIn(l: seq<Entry>, saved: seq<Saved>, p: Node, n: Node, t: nat)
    requires AllBefore(l, p, n) && Linked(l, p) && Linked(l, n)
    requires forall k :: 0 <= k < |saved| ==> saved[k].entry.node != p && saved[k].entry.node != n
    requires t < |saved| && saved[t].link == p
    ensures Before(InScanOrder(l, saved), saved[t].entry.node, n)
    decreases |saved|
  {
    hide Relink, Before, AllBefore, Linked;
    if t == 0 {
      RelinkSlipsIn(l, saved[0], p, n);
      StaysBefore(Relink(l, saved[0]), saved[1..], saved[0].entry.node, n);
    } else {
      RelinkKeepsAllBefore(l, saved[0], p, n);
      RelinkKeepsLinked(l, saved[0], p);
      RelinkKeepsLinked(l, saved[0], n);
      SlipsIn(Relink(l, saved[0]), saved[1..], p, n, t - 1);
    }
  }

  /** A scanned node whose predecessor is not scanned remembers that predecessor. */
  lemma {:induction false} RemembersLink(l: seq<Entry>, ns: seq<Node>, p: Node, t: nat)
    requires DistinctNodes(l) && Removable(l, ns) && t < |ns| && Follows(l, p, ns[t]) && p !in ns
    ensures |ScanSaved(l, ns)| == |ns| && ScanSaved(l, ns)[t].link == p
    decreases |ns|
  {
    hide DistinctNodes, Removable, Without, Linked, At, Follows;
    RemovableRest(l, ns);
    SavedNodes(l, ns);
    if t == 0 {
      LinkIs(l, p, ns[0]);
    } else {
      NotFirst(ns, t);
      FollowsKept(l, ns[0], p, ns[t]);
      RemembersLink(Without(l, ns[0]), ns[1..], p, t - 1);
    }
  }

  lemma NotFirst(ns: seq<Node>, t: nat)
    requires 0 < t < |ns| && ns[0] !in ns[1..]
    ensures ns[t] != ns[0] && ns[1..][t - 1] == ns[t]
  {
    assert ns[1..][t - 1] == ns[t];
  }

  /** The node before n, and the two nodes around n once n is unlinked. */
  lemma Around(l: seq<Entry>, n: Node) returns (p: Node)
    requires DistinctNodes(l) && Linked(l, n) && At(l, n) > 0
    ensures Follows(l, p, n) && Linked(l, p) && p != n
    ensures forall q :: Follows(l, n, q) ==> Follows(Without(l, n), p, q) && q != p
  {
    var i := At(l, n);
    p := l[i - 1].node;
    UnlinkKeepsDistinct(l, i);
    var r := Unlink(l, i);
    forall q | Follows(l, n, q)
      ensures Follows(r, p, q) && q != p
    {
      assert l[i + 1].node == q;
      assert r[i - 1].node == p && r[i].node == q;
    }
  }

  /** Behind p alone, n comes back with p before it. */
  lemma BackBehind(l: seq<Entry>, v: Saved)
    requires DistinctNodes(l) && Linked(l, v.link) && !Linked(l, v.entry.node)
    ensures AllBefore(Relink(l, v), v.link, v.entry.node)
    ensures Linked(Relink(l, v), v.link) && Linked(Relink(l, v), v.entry.node)
  {
    var k := At(l, v.link);
    RelinkAt(l, v, k);
    var r := Relink(l, v);
    assert r[k].node == v.link && r[k + 1].node == v.entry.node;
    forall i | 0 <= i < |r|
      ensures r[i].node == if i <= k then l[i].node else if i == k + 1 then v.entry.node else l[i - 1].node
    {
    }
  }

  lemma NotBoth(l: seq<Entry>, a: Node, b: Node)
    requires DistinctNodes(l) && Follows(l, a, b)
    ensures !Before(l, b, a)
  {
  }

  /** If only the successor of n is scanned after it, that one comes back on the wrong side. */
  lemma Misplaced(l: seq<Entry>, n: Node, ns: seq<Node>, t: nat)
    requires DistinctNodes(l) && Removable(l, [n] + ns) && t < |ns| && Follows(l, n, ns[t])
    requires forall k :: 0 <= k < |ns| ==> !Follows(l, ns[k], n)
    ensures Linked(l, n) && At(l, n) > 0
    ensures InScanOrder(Relink(ScanList(Without(l, n), ns), SavedNode(l, n)), ScanSaved(Without(l, n), ns)) != l
  {
    hide Removable, Without, ScanList, ScanSaved, DistinctNodes, Follows, Linked, At, Relink, Before, AllBefore;
    HeadAndTail(l, n, ns);
    var p := Around(l, n);
    LinkIs(l, p, n);
    RestRemovable(l, n, ns);
    var r := Without(l, n);
    WithoutLinks(l, n);
    ScannedAreGone(r, ns);
    SavedNodes(r, ns);
    assert p !in ns;
    var l2, v, saved := ScanList(r, ns), SavedNode(l, n), ScanSaved(r, ns);
    BackBehind(l2, v);
    RemembersLink(r, ns, p, t);
    SlipsIn(Relink(l2, v), saved, p, n, t);
    NotBoth(l, n, ns[t]);
  }

  // ---------------------------------------------------------------- the general statement

  lemma ScanFirst(l: seq<Entry>, ns: seq<Node>)
    requires DistinctNodes(l) && Removable(l, ns) && ns != []
    ensures Linked(l, ns[0]) && At(l, ns[0]) > 0 && [ns[0]] + ns[1..] == ns
    ensures InScanOrder(ScanList(l, ns), ScanSaved(l, ns))
            == InScanOrder(Relink(ScanList(Without(l, ns[0]), ns[1..]), SavedNode(l, ns[0])),
                            ScanSaved(Without(l, ns[0]), ns[1..]))
  {
    hide DistinctNodes, Removable, Without, Linked, At, Relink, SavedNode;
    RemovableRest(l, ns);
    var saved := ScanSaved(l, ns);
    assert saved[0] == SavedNode(l, ns[0]) && saved[1..] == ScanSaved(Without(l, ns[0]), ns[1..]);
  }

  lemma ApartRest(l: seq<Entry>, ns: seq<Node>)
    requires DistinctNodes(l) && ns != []
    ensures Apart(l, ns) <==> Isolated(l, ns[0], ns[1..]) && Apart(l, ns[1..])
  {
    assert !Follows(l, ns[0], ns[0]);
    hide Follows, DistinctNodes;
    assert forall k :: 0 <= k < |ns[1..]| ==> ns[1..][k] == ns[k + 1];
    if Isolated(l, ns[0], ns[1..]) && Apart(l, ns[1..]) {
      forall i, j | 0 <= i < |ns| && 0 <= j < |ns|
        ensures !Follows(l, ns[i], ns[j])
      {
        if i > 0 && j > 0 {
          assert !Follows(l, ns[1..][i - 1], ns[1..][j - 1]);
        } else if i > 0 {
          assert !Follows(l, ns[1..][i - 1], ns[0]);
        } else if j > 0 {
          assert !Follows(l, ns[0], ns[1..][j - 1]);
        }
      }
    }
    if Apart(l, ns) {
      forall i | 0 <= i < |ns[1..]|
        ensures !Follows(l, ns[0], ns[1..][i]) && !Follows(l, ns[1..][i], ns[0])
        ensures forall j :: 0 <= j < |ns[1..]| ==> !Follows(l, ns[1..][i], ns[1..][j])
      {
        assert ns[1..][i] == ns[i + 1];
      }
    }
  }

  /** Nodes scanned in any sequence and removed from the scan in that same order restore the list if and
      only if no two of them were neighbours. */
  lemma {:induction false} SameOrderExact(l: seq<Entry>, ns: seq<Node>)
    requires DistinctNodes(l) && Removable(l, ns)
    ensures InScanOrder(ScanList(l, ns), ScanSaved(l, ns)) == l <==> Apart(l, ns)
    decreases |ns|
  {
    hide DistinctNodes, Removable, Without, Linked, At, Relink, Follows, Isolated, Apart, SavedNode;
    if ns == [] {
      NothingApart(l);
    } else {
      var n, rest := ns[0], ns[1..];
      ScanFirst(l, ns);
      ApartRest(l, ns);
      RemovableRest(l, ns);
      if Isolated(l, n, rest) {
        FirstBackAlone(l, n, rest);
        SameOrderExact(l, rest);
      } else {
        NeighbourScanned(l, n, rest);
      }
    }
  }

  lemma NothingApart(l: seq<Entry>)
    ensures Apart(l, [])
  {
  }

  lemma NeighbourScanned(l: seq<Entry>, n: Node, ns: seq<Node>)
    requires DistinctNodes(l) && Removable(l, [n] + ns) && !Isolated(l, n, ns)
    ensures Linked(l, n) && At(l, n) > 0
    ensures InScanOrder(Relink(ScanList(Without(l, n), ns), SavedNode(l, n)), ScanSaved(Without(l, n), ns)) != l
  {
    hide DistinctNodes, Removable, Without, Linked, At, Relink, Follows, SavedNode, ScanList, ScanSaved;
    if k: nat :| k < |ns| && Follows(l, ns[k], n) {
      Lost(l, n, ns, ns[k]);
    } else {
      var t: nat :| t < |ns| && Follows(l, n, ns[t]);
      Misplaced(l, n, ns, t);
    }
  }
}
