/** What every step of the vertical-blank machinery keeps: reference counts, event space and the
    distance of each pending event from its target. */
module VblankRules {
  import opened Lists
  import opened VblankModel

  // ---------------------------------------------------------------- counting

  function OnPipe(es: seq<Event>, c: nat): nat {
    if es == [] then 0 else (if es[0].pipe == c then 1 else 0) + OnPipe(es[1..], c)
  }

  function OfFile(es: seq<Event>, f: nat): nat {
    if es == [] then 0 else (if es[0].file == f then 1 else 0) + OfFile(es[1..], f)
  }

  lemma {:induction false} CountAppend(es: seq<Event>, e: Event, c: nat, f: nat)
    ensures OnPipe(es + [e], c) == OnPipe(es, c) + if e.pipe == c then 1 else 0
    ensures OfFile(es + [e], f) == OfFile(es, f) + if e.file == f then 1 else 0
  {
    if es == [] {
      assert [e][1..] == [];
      assert es + [e] == [e];
    } else {
      assert (es + [e])[1..] == es[1..] + [e];
      CountAppend(es[1..], e, c, f);
    }
  }

  function ModesetRef(c: Crtc): nat {
    if c.inModeset == 3 then 1 else 0
  }

  // ---------------------------------------------------------------- the invariants

  /** Each CRTC's count is its pending events, its modeset reference and its clients' references. */
  ghost predicate RefsBalance(crtcs: seq<Crtc>, es: seq<Event>) {
    forall c :: 0 <= c < |crtcs| ==>
      crtcs[c].refs == OnPipe(es, c) + ModesetRef(crtcs[c]) + crtcs[c].clients && crtcs[c].inModeset in {0, 1, 3}
  }

  function Occupied(f: File, pending: nat): int {
    EVENT_SIZE * (pending + f.flips + |f.queue|)
  }

  /** Each open file's free space and its pending, in-flight and unread events fill its budget. */
  ghost predicate SpaceBalance(files: seq<File>, es: seq<Event>) {
    forall f :: 0 <= f < |files| && files[f].open ==>
      files[f].space >= 0 && files[f].space + Occupied(files[f], OfFile(es, f)) == EVENT_SPACE
  }

  ghost predicate FilesOpen(files: seq<File>, es: seq<Event>) {
    forall k :: 0 <= k < |es| ==> es[k].file < |files| && files[es[k].file].open
  }

  /** How many counts the event is still ahead of its CRTC. */
  function Ahead(count: nat, target: nat): nat {
    Minus(target, count)
  }

  /** A pending event lies strictly ahead, within the window; it may have been reached only while its
      CRTC's interrupt is delivering or its CRTC is being switched off. */
  ghost predicate Waiting(d: Device, e: Event)
    requires e.pipe < |d.crtcs|
  {
    && e.target < U32 && d.crtcs[e.pipe].count < U32
    && Ahead(d.crtcs[e.pipe].count, e.target) < U32 - WINDOW
    && (Ahead(d.crtcs[e.pipe].count, e.target) == 0 ==> d.handler == Some(e.pipe) || d.off == Some(e.pipe))
  }

  ghost predicate AllWaiting(d: Device)
    requires InRange(d.pending, |d.crtcs|, |d.files|)
  {
    forall k :: 0 <= k < |d.pending| ==> Waiting(d, d.pending[k])
  }

  ghost predicate CountsFit(crtcs: seq<Crtc>) {
    forall c :: 0 <= c < |crtcs| ==> crtcs[c].count < U32
  }

  ghost predicate NewIds(d: Device) {
    && (forall j, k :: 0 <= j < k < |d.pending| ==> d.pending[j].id != d.pending[k].id)
    && (forall k :: 0 <= k < |d.pending| ==> d.pending[k].id < d.nextId)
  }

  ghost predicate Inv(d: Device) {
    && WellFormed(d)
    && RefsBalance(d.crtcs, d.pending)
    && SpaceBalance(d.files, d.pending) && FilesOpen(d.files, d.pending)
    && CountsFit(d.crtcs) && AllWaiting(d) && NewIds(d)
    && (d.off.Some? ==> !d.crtcs[d.off.value].enabled)
  }

  // ---------------------------------------------------------------- unsigned arithmetic

  lemma MinusSelf(a: nat)
    ensures Minus(a, a) == 0
  {
  }

  /** The two differences of distinct counts add up to 2^32. */
  lemma MinusFlip(a: nat, b: nat)
    requires a < U32 && b < U32
    ensures Minus(a, b) == if a >= b then a - b else a - b + U32
    ensures a != b ==> Minus(a, b) + Minus(b, a) == U32
    ensures Minus(a, b) == 0 <==> a == b
  {
  }

  /** For a target within the window ahead, "reached" means reached exactly. */
  lemma ReachedExactly(count: nat, target: nat)
    requires count < U32 && target < U32 && Ahead(count, target) < U32 - WINDOW
    ensures Reached(count, target) <==> count == target
  {
    MinusFlip(count, target);
    MinusFlip(target, count);
  }

  /** One more count brings a target one step nearer. */
  lemma AheadAfterCount(count: nat, target: nat)
    requires count < U32 && target < U32 && count != target
    ensures Ahead((count + 1) % U32, target) == Ahead(count, target) - 1
  {
    MinusFlip(target, count);
    MinusFlip(target, (count + 1) % U32);
  }

  // ---------------------------------------------------------------- the hardware counter

  /** For a counter that runs modulo `period` and has gone round less than once, the count is exact if
      and only if it has not wrapped or max_vblank_count is that very period. */
  lemma MissedExact(last: nat, elapsed: nat, period: nat, maxCount: nat)
    requires last < period <= U32 && elapsed < period && maxCount < U32
    ensures var cur := if last + elapsed < period then last + elapsed else last + elapsed - period;
            Missed(cur, last, maxCount) == elapsed <==> last + elapsed < period || maxCount == period % U32
  {
    var cur := if last + elapsed < period then last + elapsed else last + elapsed - period;
    MinusFlip(cur, last);
  }

  // ---------------------------------------------------------------- one pass over the pending list

  /** The balances in the middle of a pass: `kept` has been passed over, `rest` is still to come. */
  ghost predicate MidRefs(crtcs: seq<Crtc>, kept: seq<Event>, rest: seq<Event>) {
    forall c :: 0 <= c < |crtcs| ==>
      crtcs[c].refs == OnPipe(kept, c) + OnPipe(rest, c) + ModesetRef(crtcs[c]) + crtcs[c].clients
      && crtcs[c].inModeset in {0, 1, 3}
  }

  ghost predicate MidSpace(w: Sweep, files: seq<File>, kept: seq<Event>, rest: seq<Event>) {
    forall f :: 0 <= f < |files| && files[f].open && w != Discard(f) ==>
      files[f].space >= 0 && files[f].space + Occupied(files[f], OfFile(kept, f) + OfFile(rest, f)) == EVENT_SPACE
  }

  /** Passing over one event: the reference it holds is there to be put, and the references balance. */
  lemma FlushOneRefs(r: Flushed, es: seq<Event>, w: Sweep)
    requires es != [] && es[0].pipe < |r.crtcs| && es[0].file < |r.files|
    requires MidRefs(r.crtcs, r.kept, es)
    ensures var r' := FlushOne(r, es[0], w); MidRefs(r'.crtcs, r'.kept, es[1..])
    ensures r.crtcs[es[0].pipe].refs > 0
  {
    hide Takes;
    var r' := FlushOne(r, es[0], w);
    forall c | 0 <= c < |r'.crtcs|
      ensures r'.crtcs[c].refs
              == OnPipe(r'.kept, c) + OnPipe(es[1..], c) + ModesetRef(r'.crtcs[c]) + r'.crtcs[c].clients
    {
      CountAppend(r.kept, es[0], c, 0);
    }
  }

  lemma FlushOneSpace(r: Flushed, es: seq<Event>, w: Sweep)
    requires es != [] && es[0].pipe < |r.crtcs| && es[0].file < |r.files|
    requires MidSpace(w, r.files, r.kept, es)
    ensures var r' := FlushOne(r, es[0], w); MidSpace(w, r'.files, r'.kept, es[1..])
  {
    var r' := FlushOne(r, es[0], w);
    forall f | 0 <= f < |r'.files| && r'.files[f].open && w != Discard(f)
      ensures r'.files[f].space >= 0
      ensures r'.files[f].space + Occupied(r'.files[f], OfFile(r'.kept, f) + OfFile(es[1..], f)) == EVENT_SPACE
    {
      CountAppend(r.kept, es[0], 0, f);
    }
  }

  lemma RangeTail(es: seq<Event>, crtcs: nat, files: nat)
    requires InRange(es, crtcs, files) && es != []
    ensures es[0].pipe < crtcs && es[0].file < files && InRange(es[1..], crtcs, files)
  {
    assert forall k :: 0 <= k < |es[1..]| ==> es[1..][k] == es[k + 1];
  }

  lemma {:induction false} FlushBalances(r: Flushed, es: seq<Event>, w: Sweep)
    requires InRange(es, |r.crtcs|, |r.files|)
    requires MidRefs(r.crtcs, r.kept, es) && MidSpace(w, r.files, r.kept, es)
    ensures var r' := Flush(r, es, w);
            MidRefs(r'.crtcs, r'.kept, []) && MidSpace(w, r'.files, r'.kept, [])
    decreases |es|
  {
    hide MidRefs, MidSpace, InRange, Takes;
    if es != [] {
      RangeTail(es, |r.crtcs|, |r.files|);
      FlushOneRefs(r, es, w);
      FlushOneSpace(r, es, w);
      FlushBalances(FlushOne(r, es[0], w), es[1..], w);
    }
  }

  lemma BalancesStart(crtcs: seq<Crtc>, files: seq<File>, es: seq<Event>, w: Sweep)
    ensures RefsBalance(crtcs, es) <==> MidRefs(crtcs, [], es)
    ensures RefsBalance(crtcs, es) <==> MidRefs(crtcs, es, [])
    ensures SpaceBalance(files, es) ==> MidSpace(w, files, [], es)
    ensures w.Deliver? && MidSpace(w, files, es, []) ==> SpaceBalance(files, es)
  {
    assert forall c :: OnPipe([], c) == 0;
    assert forall f :: OfFile([], f) == 0;
  }

  /** What a pass leaves on the list, and what it appends to the queue of file f, in list order. */
  function Kept(es: seq<Event>, w: Sweep): seq<Event> {
    if es == [] then []
    else (if Takes(w, es[0]) then [] else [es[0]]) + Kept(es[1..], w)
  }

  function SentTo(es: seq<Event>, f: nat, w: Sweep): seq<Sent> {
    if es == [] then []
    else (if w.Deliver? && Takes(w, es[0]) && es[0].file == f then [Sent(es[0].id, es[0].target, w.sequence)] else [])
         + SentTo(es[1..], f, w)
  }

  ghost predicate SameButQueue(a: File, b: File) {
    b == a.(queue := b.queue)
  }

  ghost predicate SameButRefs(a: Crtc, b: Crtc) {
    b == a.(refs := b.refs)
  }

  /** A pass sends exactly the due events, each with the current sequence, in list order; it keeps the
      others in list order and changes nothing else but the counts of references. */
  lemma {:induction false} FlushIs(r: Flushed, es: seq<Event>, w: Sweep)
    requires InRange(es, |r.crtcs|, |r.files|)
    ensures var r' := Flush(r, es, w);
            && r'.kept == r.kept + Kept(es, w)
            && (forall c :: 0 <= c < |r.crtcs| ==> SameButRefs(r.crtcs[c], r'.crtcs[c]))
            && (forall f :: 0 <= f < |r.files| ==>
                  r'.files[f] == r.files[f].(queue := r.files[f].queue + SentTo(es, f, w)))
    decreases |es|
  {
    hide Takes;
    if es == [] {
      assert r.kept + [] == r.kept;
      assert forall f :: 0 <= f < |r.files| ==> r.files[f].queue + [] == r.files[f].queue;
    } else {
      RangeTail(es, |r.crtcs|, |r.files|);
      var r1 := FlushOne(r, es[0], w);
      FlushIs(r1, es[1..], w);
      FlushIsStep(r, es, w);
    }
  }

  /** One event: what is kept, what the CRTCs become, and what each file gets. */
  lemma FlushIsStep(r: Flushed, es: seq<Event>, w: Sweep)
    requires es != [] && es[0].pipe < |r.crtcs| && es[0].file < |r.files|
    ensures var r1 := FlushOne(r, es[0], w);
            && r1.kept + Kept(es[1..], w) == r.kept + Kept(es, w)
            && (forall c :: 0 <= c < |r.crtcs| ==> SameButRefs(r.crtcs[c], r1.crtcs[c]))
            && (forall f :: 0 <= f < |r.files| ==>
                  r1.files[f].(queue := r1.files[f].queue + SentTo(es[1..], f, w))
                  == r.files[f].(queue := r.files[f].queue + SentTo(es, f, w)))
  {
    hide Takes, SentTo, FlushOne, Kept, SameButRefs;
    KeptStep(r, es, w);
    CrtcsStep(r, es[0], w);
    forall f | 0 <= f < |r.files|
      ensures var r1 := FlushOne(r, es[0], w);
              r1.files[f].(queue := r1.files[f].queue + SentTo(es[1..], f, w))
              == r.files[f].(queue := r.files[f].queue + SentTo(es, f, w))
    {
      QueueStep(r, es, w, f);
    }
  }

  lemma KeptStep(r: Flushed, es: seq<Event>, w: Sweep)
    requires es != [] && es[0].pipe < |r.crtcs| && es[0].file < |r.files|
    ensures FlushOne(r, es[0], w).kept + Kept(es[1..], w) == r.kept + Kept(es, w)
  {
    hide Takes, Send, PutRef;
    var rest := Kept(es[1..], w);
    if Takes(w, es[0]) {
      assert [] + rest == rest;
    } else {
      assert (r.kept + [es[0]]) + rest == r.kept + ([es[0]] + rest);
    }
  }

  lemma CrtcsStep(r: Flushed, e: Event, w: Sweep)
    requires e.pipe < |r.crtcs| && e.file < |r.files|
    ensures |FlushOne(r, e, w).crtcs| == |r.crtcs| && |FlushOne(r, e, w).files| == |r.files|
    ensures forall c :: 0 <= c < |r.crtcs| ==> SameButRefs(r.crtcs[c], FlushOne(r, e, w).crtcs[c])
  {
    hide Takes;
  }

  lemma QueueStep(r: Flushed, es: seq<Event>, w: Sweep, f: nat)
    requires es != [] && es[0].pipe < |r.crtcs| && es[0].file < |r.files| && f < |r.files|
    ensures var r1 := FlushOne(r, es[0], w);
            r1.files[f].(queue := r1.files[f].queue + SentTo(es[1..], f, w))
            == r.files[f].(queue := r.files[f].queue + SentTo(es, f, w))
  {
    hide Takes, PutRef;
    var e, rest := es[0], SentTo(es[1..], f, w);
    if w.Deliver? && Takes(w, e) && e.file == f {
      var s := [Sent(e.id, e.target, w.sequence)];
      assert (r.files[f].queue + s) + rest == r.files[f].queue + (s + rest);
    } else {
      assert [] + rest == rest;
    }
  }

  // ---------------------------------------------------------------- membership after a pass

  lemma {:induction false} KeptMembers(es: seq<Event>, w: Sweep)
    ensures forall e :: e in Kept(es, w) <==> e in es && !Takes(w, e)
    ensures |Kept(es, w)| <= |es|
  {
    hide Takes;
    if es != [] {
      KeptMembers(es[1..], w);
      assert forall e :: e in es <==> e == es[0] || e in es[1..];
    }
  }

  lemma {:induction false} SentToMembers(es: seq<Event>, f: nat, w: Sweep, e: Event)
    requires w.Deliver? && e in es && Takes(w, e) && e.file == f
    ensures Sent(e.id, e.target, w.sequence) in SentTo(es, f, w)
  {
    hide Takes;
    if es[0] != e {
      SentToMembers(es[1..], f, w, e);
    }
  }

  lemma {:induction false} SentToOnly(es: seq<Event>, f: nat, w: Sweep, k: nat)
    requires k < |SentTo(es, f, w)|
    ensures w.Deliver?
    ensures exists e :: e in es && Takes(w, e) && e.file == f
                        && SentTo(es, f, w)[k] == Sent(e.id, e.target, w.sequence)
  {
    var first := if w.Deliver? && Takes(w, es[0]) && es[0].file == f
                 then [Sent(es[0].id, es[0].target, w.sequence)] else [];
    if k < |first| {
      assert es[0] in es;
    } else {
      SentToOnly(es[1..], f, w, k - |first|);
      var e :| e in es[1..] && Takes(w, e) && e.file == f
               && SentTo(es[1..], f, w)[k - |first|] == Sent(e.id, e.target, w.sequence);
      assert e in es;
    }
  }

  /** Ids stay distinct on what a pass leaves. */
  lemma {:induction false} KeptDistinct(es: seq<Event>, w: Sweep)
    requires forall j, k :: 0 <= j < k < |es| ==> es[j].id != es[k].id
    ensures var r := Kept(es, w); forall j, k :: 0 <= j < k < |r| ==> r[j].id != r[k].id
  {
    if es != [] {
      hide Takes;
      assert forall j :: 0 <= j < |es[1..]| ==> es[1..][j] == es[j + 1];
      KeptDistinct(es[1..], w);
      KeptMembers(es[1..], w);
      var t := Kept(es[1..], w);
      forall j | 0 <= j < |t|
        ensures t[j].id != es[0].id
      {
        assert t[j] in es[1..];
      }
    }
  }
}
