/** What the search with best_match returns: the comparison is of the nodes before the holes, as
    unsigned longs, and not of the holes. */
module MmBestFit {
  import opened Lists
  import opened MmModel
  import opened MmAllocation

  const ULONG := 0x1_0000_0000_0000_0000

  /** node->size; the sentinel's is negative and wraps. */
  function StoredSize(b: Block): int {
    if b.size < 0 then b.size + ULONG else b.size
  }

  ghost predicate FitsAt(m: Mm, req: Request, k: nat)
    requires StackExact(m.list, m.stack) && k < |m.stack|
  {
    Fits(m, At(m.list, m.stack[k]), req)
  }

  ghost function SizeAt(m: Mm, k: nat): int
    requires StackExact(m.list, m.stack) && k < |m.stack|
  {
    StoredSize(m.list[At(m.list, m.stack[k])].block)
  }

  /** Of the first n holes, the k-th fits, lies behind a smallest node and is the first such. */
  ghost predicate BestAt(m: Mm, req: Request, n: nat, k: nat)
    requires StackExact(m.list, m.stack) && n <= |m.stack|
  {
    && k < n && FitsAt(m, req, k) && SizeAt(m, k) < ULONG - 1
    && forall j :: 0 <= j < n && FitsAt(m, req, j) ==>
         SizeAt(m, k) <= SizeAt(m, j) && (j < k ==> SizeAt(m, k) < SizeAt(m, j))
  }

  ghost predicate Best(m: Mm, req: Request, n: nat, r: Node?)
    requires StackExact(m.list, m.stack) && n <= |m.stack|
  {
    if r == null then forall k :: 0 <= k < n && FitsAt(m, req, k) ==> SizeAt(m, k) >= ULONG - 1
    else exists k: nat :: BestAt(m, req, n, k) && m.stack[k] == r
  }

  /** The smallest size seen so far. */
  ghost function BestSize(m: Mm, r: Node?): int
    requires r != null ==> Linked(m.list, r)
  {
    if r == null then ULONG - 1 else StoredSize(m.list[At(m.list, r)].block)
  }

  lemma BestStarts(m: Mm, req: Request)
    requires StackExact(m.list, m.stack)
    ensures Best(m, req, 0, null)
  {
  }

  /** One hole more. */
  lemma BestStep(m: Mm, req: Request, n: nat, r: Node?)
    requires StackExact(m.list, m.stack) && n < |m.stack| && Best(m, req, n, r) && (r != null ==> Linked(m.list, r))
    ensures FitsAt(m, req, n) && SizeAt(m, n) < BestSize(m, r) ==> Best(m, req, n + 1, m.stack[n])
    ensures !FitsAt(m, req, n) || SizeAt(m, n) >= BestSize(m, r) ==> Best(m, req, n + 1, r)
  {
    hide StackExact, Linked, FitsAt;
    if r == null {
      if FitsAt(m, req, n) && SizeAt(m, n) < ULONG - 1 {
        assert BestAt(m, req, n + 1, n);
      }
    } else {
      var k: nat :| BestAt(m, req, n, k) && m.stack[k] == r;
      if FitsAt(m, req, n) && SizeAt(m, n) < SizeAt(m, k) {
        assert BestAt(m, req, n + 1, n);
      } else {
        assert BestAt(m, req, n + 1, k);
      }
    }
  }

  /** A search with best_match fails if and only if no hole fits, or one byte is managed: the sentinel's
      size then is the very value the comparison starts from. */
  lemma BestFailsExactly(m: Mm, req: Request, r: Node?)
    requires Valid(m) && Hi(m.list) - Lo(m.list) < ULONG && Best(m, req, |m.stack|, r)
    ensures r == null <==> Search(m, req) == None || Hi(m.list) - Lo(m.list) == 1
  {
    hide Fits, Ordered, FlagsExact;
    NotEmpty(m);
    forall k | 0 <= k < |m.stack|
      ensures SizeAt(m, k) < ULONG - 1 <==> Hi(m.list) - Lo(m.list) != 1
    {
      StoredSizes(m, At(m.list, m.stack[k]));
    }
    if Search(m, req).Some? {
      var k :| 0 <= k < |m.stack| && m.stack[k] == Search(m, req).value;
      assert FitsAt(m, req, k);
    }
    if r != null {
      var k: nat :| BestAt(m, req, |m.stack|, k) && m.stack[k] == r;
      assert Fits(m, At(m.list, m.stack[k]), req);
    }
  }

  lemma NotEmpty(m: Mm)
    requires Valid(m)
    ensures |m.list| > 0
  {
  }

  lemma StoredSizes(m: Mm, i: nat)
    requires Ordered(m.list) && FlagsExact(m.list) && i < |m.list| && m.list[i].hole
    requires Hi(m.list) - Lo(m.list) < ULONG
    ensures StoredSize(m.list[i].block) < ULONG - 1 <==> Hi(m.list) - Lo(m.list) != 1
  {
    GapBounds(m.list, i);
  }

  /** Three nodes: the sentinel, one byte followed by 100 free ones, and 50 bytes followed by 10. */
  function Example(h: Node, a: Node, b: Node): Mm {
    Mm([Entry(h, Block(161, -161, 0, false), false), Entry(a, Block(0, 1, 0, true), true),
        Entry(b, Block(101, 50, 0, true), true)],
       [b, a], None)
  }

  lemma ExampleIsValid(h: Node, a: Node, b: Node)
    requires h != a && h != b && a != b
    ensures var m := Example(h, a, b);
            && Valid(m) && Linked(m.list, a) && At(m.list, a) == 1 && Linked(m.list, b) && At(m.list, b) == 2
  {
    hide Ordered, FlagsExact, Linked, At;
    ExamplePlaces(h, a, b);
    ExampleGaps(h, a, b);
    var m := Example(h, a, b);
    assert m.stack[0] == b && m.stack[1] == a;
  }

  lemma ExampleGaps(h: Node, a: Node, b: Node)
    ensures Ordered(Example(h, a, b).list) && FlagsExact(Example(h, a, b).list)
  {
  }

  lemma ExamplePlaces(h: Node, a: Node, b: Node)
    requires h != a && h != b && a != b
    ensures var l := Example(h, a, b).list;
            DistinctNodes(l) && Linked(l, a) && At(l, a) == 1 && Linked(l, b) && At(l, b) == 2
  {
    var l := Example(h, a, b).list;
    assert l[1].node == a && l[2].node == b;
  }

  /** The hole it returns need not be the tightest: a request for 10 bytes gets the hole of 100, which
      follows the smaller node. */
  lemma BestIsNotTightest(h: Node, a: Node, b: Node)
    requires h != a && h != b && a != b
    ensures var m, req := Example(h, a, b), Request(10, 0, 0, None);
            && Valid(m) && Best(m, req, 2, a) && Fits(m, 2, req)
            && m.list[2].node == b && HoleEnd(m.list, 2) - HoleStart(m.list, 2) == 10
            && m.list[1].node == a && HoleEnd(m.list, 1) - HoleStart(m.list, 1) == 100
  {
    hide Valid, Linked, At, StackExact;
    ExampleIsValid(h, a, b);
    var m, req := Example(h, a, b), Request(10, 0, 0, None);
    assert StackExact(m.list, m.stack) by { ValidStackIs(m); }
    assert m.stack[1] == a && m.stack[0] == b;
    assert BestAt(m, req, 2, 1);
  }

  lemma ValidStackIs(m: Mm)
    requires Valid(m)
    ensures StackExact(m.list, m.stack)
  {
  }
}
