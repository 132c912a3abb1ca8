/** The range allocator as a value: what one operation does to the address-ordered node list, the
    hole flags and the stack of holes.  Addresses and sizes are mathematical integers. */
module MmModel {
  import opened Lists

  /** An allocation record; `prevLink` is the predecessor pointer that a node keeps while a scan has
      it unlinked. */
  class Node {
    var start: int
    var size: int
    var color: nat
    var isAllocated: bool
    var holeFollows: bool
    var scannedBlock: bool
    var scannedPreceedsHole: bool
    var prevLink: Node?

    constructor ()
      ensures !isAllocated && !holeFollows && !scannedBlock && color == 0
    {
      start, size, color := 0, 0, 0;
      isAllocated, holeFollows, scannedBlock, scannedPreceedsHole := false, false, false, false;
      prevLink := null;
    }
  }

  datatype Block = Block(start: int, size: int, color: nat, isAllocated: bool) {
    function End(): int { start + size }
  }

  /** One linked node: its identity, its block and its hole_follows flag. */
  datatype Entry = Entry(node: Node, block: Block, hole: bool)

  /** (node before the hole, node after it, colour, start, end) to the usable part of the hole. */
  type ColorAdjust = (Block, Block, nat, int, int) -> (int, int)

  datatype Range = Range(lo: int, hi: int)

  /** What a caller asks for: `range` is None for the unrestricted variants. */
  datatype Request = Request(size: int, alignment: nat, color: nat, range: Option<Range>)

  /** list[0] is the sentinel head_node: its end wraps to the start of the managed range and its
      start is the end of it. */
  datatype Mm = Mm(list: seq<Entry>, stack: seq<Node>, adjust: Option<ColorAdjust>)

  function Lo(l: seq<Entry>): int
    requires |l| > 0
  {
    l[0].block.End()
  }

  function Hi(l: seq<Entry>): int
    requires |l| > 0
  {
    l[0].block.start
  }

  /** The entry behind entry i of the circular list. */
  function After(l: seq<Entry>, i: nat): Entry
    requires i < |l|
  {
    if i + 1 < |l| then l[i + 1] else l[0]
  }

  function HoleStart(l: seq<Entry>, i: nat): int
    requires i < |l|
  {
    l[i].block.End()
  }

  function HoleEnd(l: seq<Entry>, i: nat): int
    requires i < |l|
  {
    After(l, i).block.start
  }

  /** Nodes lie in the managed range, are not empty, and are disjoint and ascending. */
  ghost predicate Ordered(l: seq<Entry>) {
    && |l| > 0 && 0 <= Lo(l) <= Hi(l)
    && (forall i :: 1 <= i < |l| ==>
          l[i].block.size > 0 && Lo(l) <= l[i].block.start && l[i].block.End() <= Hi(l))
    && (forall i, j :: 1 <= i < j < |l| ==> l[i].block.End() <= l[j].block.start)
  }

  ghost predicate DistinctNodes(l: seq<Entry>) {
    forall i, j :: 0 <= i < j < |l| ==> l[i].node != l[j].node
  }

  /** hole_follows marks exactly the non-empty gaps. */
  ghost predicate FlagsExact(l: seq<Entry>) {
    forall i :: 0 <= i < |l| ==> (l[i].hole <==> HoleStart(l, i) < HoleEnd(l, i))
  }

  ghost predicate Linked(l: seq<Entry>, n: Node) {
    exists i :: 0 <= i < |l| && l[i].node == n
  }

  /** The position of a linked node. */
  ghost function At(l: seq<Entry>, n: Node): (i: nat)
    requires Linked(l, n)
    ensures i < |l| && l[i].node == n
  {
    var i :| 0 <= i < |l| && l[i].node == n;
    i
  }

  /** hole_stack holds exactly the marked nodes, each once. */
  ghost predicate StackExact(l: seq<Entry>, stack: seq<Node>) {
    && Distinct(stack)
    && (forall k :: 0 <= k < |stack| ==> Linked(l, stack[k]) && l[At(l, stack[k])].hole)
    && (forall i :: 0 <= i < |l| && l[i].hole ==> l[i].node in stack)
  }

  ghost predicate Valid(m: Mm) {
    Ordered(m.list) && DistinctNodes(m.list) && FlagsExact(m.list) && StackExact(m.list, m.stack)
  }

  ghost predicate ShrinkOnly(adjust: ColorAdjust) {
    forall b, c, color, s, e :: adjust(b, c, color, s, e).0 >= s && adjust(b, c, color, s, e).1 <= e
  }

  ghost predicate SoundAdjust(adjust: Option<ColorAdjust>) {
    adjust.Some? ==> ShrinkOnly(adjust.value)
  }

  ghost predicate Sensible(req: Request) {
    req.size > 0 && (req.range.Some? ==> req.range.value.lo >= 0)
  }

  // ---------------------------------------------------------------- searching

  function AlignUp(start: int, alignment: nat): int {
    if alignment != 0 && start % alignment != 0 then start + (alignment - start % alignment) else start
  }

  predicate CheckFreeHole(start: int, end: int, size: int, alignment: nat) {
    if end - start < size then false else end >= AlignUp(start, alignment) + size
  }

  /** The part of the hole between p and q that the request may use. */
  function Usable(adjust: Option<ColorAdjust>, p: Block, q: Block, req: Request): (int, int) {
    var s, e := p.End(), q.start;
    var s1 := if req.range.Some? && s < req.range.value.lo then req.range.value.lo else s;
    var e1 := if req.range.Some? && e > req.range.value.hi then req.range.value.hi else e;
    if adjust.Some? then adjust.value(p, q, req.color, s1, e1) else (s1, e1)
  }

  /** The search's test of the hole between p and q. */
  predicate HoleFits(adjust: Option<ColorAdjust>, p: Block, q: Block, req: Request) {
    var (s, e) := Usable(adjust, p, q, req);
    if adjust.Some? && e <= s then false else CheckFreeHole(s, e, req.size, req.alignment)
  }

  predicate Fits(m: Mm, i: nat, req: Request)
    requires i < |m.list|
  {
    HoleFits(m.adjust, m.list[i].block, After(m.list, i).block, req)
  }

  /** First fit over the stack of holes, newest first. */
  ghost function SearchIn(m: Mm, stack: seq<Node>, req: Request): (r: Option<Node>)
    requires forall k :: 0 <= k < |stack| ==> Linked(m.list, stack[k])
    ensures r.Some? ==> r.value in stack && Linked(m.list, r.value) && Fits(m, At(m.list, r.value), req)
    ensures r.None? ==> forall k :: 0 <= k < |stack| ==> !Fits(m, At(m.list, stack[k]), req)
  {
    if stack == [] then None
    else if Fits(m, At(m.list, stack[0]), req) then Some(stack[0])
    else SearchIn(m, stack[1..], req)
  }

  ghost function Search(m: Mm, req: Request): Option<Node>
    requires StackExact(m.list, m.stack)
  {
    SearchIn(m, m.stack, req)
  }

  // ---------------------------------------------------------------- inserting and removing

  function StartIn(m: Mm, i: nat, req: Request): int
    requires i < |m.list|
  {
    AlignUp(Usable(m.adjust, m.list[i].block, After(m.list, i).block, req).0, req.alignment)
  }

  /** Place `node` at the start of the usable part of the hole behind entry i. */
  function Insert(m: Mm, i: nat, node: Node, req: Request): Mm
    requires i < |m.list| && m.list[i].node in m.stack
  {
    var p, start := m.list[i], StartIn(m, i, req);
    var filled := start == HoleStart(m.list, i);
    var follows := start + req.size < HoleEnd(m.list, i);
    var stack := if filled then Delete(m.stack, p.node) else m.stack;
    Mm(m.list[..i] + [p.(hole := !filled && p.hole), Entry(node, Block(start, req.size, req.color, true), follows)]
         + m.list[i + 1..],
       if follows then [node] + stack else stack,
       m.adjust)
  }

  function Unstack(stack: seq<Node>, e: Entry): seq<Node> {
    if e.hole && e.node in stack then Delete(stack, e.node) else stack
  }

  /** Release entry i: its predecessor's hole grows over it and moves to the top of the stack. */
  function Remove(m: Mm, i: nat): Mm
    requires 0 < i < |m.list|
  {
    var p := m.list[i - 1];
    Mm(m.list[..i - 1] + [p.(hole := true)] + m.list[i + 1..],
       [p.node] + Unstack(Unstack(m.stack, m.list[i]), p),
       m.adjust)
  }

  // ---------------------------------------------------------------- placements, by address

  ghost predicate Aligned(a: int, alignment: nat) {
    alignment == 0 || a % alignment == 0
  }

  /** [a, a + size) is managed and none of the linked nodes touches it. */
  ghost predicate FreeAt(l: seq<Entry>, a: int, size: int)
    requires |l| > 0
  {
    && Lo(l) <= a && a + size <= Hi(l)
    && forall i :: 1 <= i < |l| ==> l[i].block.End() <= a || a + size <= l[i].block.start
  }

  /** An aligned piece of free address space that satisfies the request, whatever hole it is in. */
  ghost predicate Placement(l: seq<Entry>, req: Request, a: int)
    requires |l| > 0
  {
    && Aligned(a, req.alignment)
    && FreeAt(l, a, req.size)
    && (req.range.Some? ==> req.range.value.lo <= a && a + req.size <= req.range.value.hi)
  }

  /** An aligned piece of the gap between p and q that is in range and that the colour callback, asked
      about the part of the gap in range, does not rule out. */
  ghost predicate InGap(adjust: Option<ColorAdjust>, p: Block, q: Block, req: Request, a: int) {
    var lo := if req.range.Some? && req.range.value.lo > p.End() then req.range.value.lo else p.End();
    var hi := if req.range.Some? && req.range.value.hi < q.start then req.range.value.hi else q.start;
    && Aligned(a, req.alignment)
    && match adjust
       case None => lo <= a && a + req.size <= hi
       case Some(f) => f(p, q, req.color, lo, hi).0 <= a && a + req.size <= f(p, q, req.color, lo, hi).1
  }

  /** An aligned piece of the hole behind entry i. */
  ghost predicate PlacementIn(m: Mm, i: nat, req: Request, a: int)
    requires i < |m.list|
  {
    InGap(m.adjust, m.list[i].block, After(m.list, i).block, req, a)
  }
}
