/** Every step keeps the invariants, and the fate of a pending event over whole runs. */
module VblankSteps {
  import opened Lists
  import opened VblankModel
  import opened VblankRules

  lemma {:induction false} NoneOnPipe(es: seq<Event>, c: nat, k: nat)
    requires OnPipe(es, c) == 0 && k < |es|
    ensures es[k].pipe != c
  {
    if k > 0 {
      NoneOnPipe(es[1..], c, k - 1);
    }
  }

  // ---------------------------------------------------------------- steps that touch one CRTC

  /** The CRTC's own references and its mode-setting state change together; its count stays, or no
      event waits on it, or it advances by one while its events are about to be looked at. */
  ghost predicate CrtcStep(d: Device, c: nat, crtc: Crtc, d': Device)
    requires c < |d.crtcs|
  {
    var before := d.crtcs[c];
    && d' == d.(crtcs := d.crtcs[c := crtc], handler := d'.handler, off := d'.off, disableAllowed := d'.disableAllowed)
    && crtc.refs - ModesetRef(crtc) - crtc.clients == before.refs - ModesetRef(before) - before.clients
    && crtc.inModeset in {0, 1, 3} && crtc.count < U32
    && (d'.handler == d.handler || (d.handler.None? && d'.handler == Some(c)))
    && (d'.off == d.off || (d.off.None? && d'.off == Some(c)))
    && (d'.off == Some(c) ==> !crtc.enabled)
    && (|| crtc.count == before.count
        || before.refs == 0
        || (crtc.count == (before.count + 1) % U32 && d.handler.None? && d.off != Some(c)
            && (d'.handler == Some(c) || d'.off == Some(c))))
  }

  lemma CrtcStepRefs(d: Device, c: nat, crtc: Crtc, d': Device)
    requires c < |d.crtcs| && CrtcStep(d, c, crtc, d') && RefsBalance(d.crtcs, d.pending) && CountsFit(d.crtcs)
    ensures RefsBalance(d'.crtcs, d'.pending) && CountsFit(d'.crtcs)
  {
  }

  lemma CrtcStepWaits(d: Device, c: nat, crtc: Crtc, d': Device, k: nat)
    requires Inv(d) && c < |d.crtcs| && CrtcStep(d, c, crtc, d') && k < |d.pending|
    ensures Waiting(d', d.pending[k])
    ensures var e := d.pending[k];
            var a, a' := Ahead(d.crtcs[e.pipe].count, e.target), Ahead(d'.crtcs[e.pipe].count, e.target);
            a' == a || a' == a - 1
  {
    hide SpaceBalance, FilesOpen, NewIds;
    var e := d.pending[k];
    assert Waiting(d, e);
    if e.pipe == c {
      if d.crtcs[c].refs == 0 {
        NoneOnPipe(d.pending, c, k);
      } else if crtc.count != d.crtcs[c].count {
        MinusFlip(e.target, d.crtcs[c].count);
        AheadAfterCount(d.crtcs[c].count, e.target);
      }
    }
  }

  lemma CrtcStepKeeps(d: Device, c: nat, crtc: Crtc, d': Device)
    requires Inv(d) && c < |d.crtcs| && CrtcStep(d, c, crtc, d')
    ensures Inv(d')
  {
    hide Waiting, SpaceBalance, FilesOpen, NewIds, RefsBalance, CountsFit;
    CrtcStepRefs(d, c, crtc, d');
    forall k | 0 <= k < |d.pending|
      ensures Waiting(d', d.pending[k])
    {
      CrtcStepWaits(d, c, crtc, d', k);
    }
    SameIds(d, d');
  }

  lemma SameIds(d: Device, d': Device)
    requires NewIds(d) && d'.pending == d.pending && d'.nextId >= d.nextId
    ensures NewIds(d')
  {
  }

  /** The steps of one CRTC. */
  predicate TouchesOneCrtc(a: Action) {
    a.Get? || a.Put? || a.PreModeset? || a.PostModeset? || a.DisableTimer? || a.OffBegin? || a.Irq? || a.QueueNoMemory?
  }

  lemma CrtcStepOf(d: Device, a: Action) returns (c: nat, crtc: Crtc)
    requires Inv(d) && Can(d, a) && TouchesOneCrtc(a)
    ensures c < |d.crtcs| && CrtcStep(d, c, crtc, Step(d, a))
  {
    hide SpaceBalance, FilesOpen, NewIds, AllWaiting, OnPipe;
    c := a.c;
    crtc := Step(d, a).crtcs[c];
    assert Step(d, a).crtcs == d.crtcs[c := crtc];
    assert RefsBalance(d.crtcs, d.pending);
    assert d.crtcs[c].count < U32;
  }

  // ---------------------------------------------------------------- steps that touch one file

  /** The file stays open, and what it gives up in free space it gains in events. */
  ghost predicate FileStep(d: Device, f: nat, file: File, d': Device)
    requires f < |d.files|
  {
    && d' == d.(files := d.files[f := file], nextId := d'.nextId) && d'.nextId >= d.nextId
    && d.files[f].open && file.open && file.space >= 0
    && file.space + Occupied(file, 0) == d.files[f].space + Occupied(d.files[f], 0)
  }

  lemma FileStepKeeps(d: Device, f: nat, file: File, d': Device)
    requires Inv(d) && f < |d.files| && FileStep(d, f, file, d')
    ensures Inv(d')
  {
    hide Waiting, NewIds, RefsBalance, CountsFit, OfFile;
    forall k | 0 <= k < |d.pending|
      ensures Waiting(d', d.pending[k])
    {
      SameWait(d, d', d.pending[k]);
    }
    SameIds(d, d');
  }

  lemma SameWait(d: Device, d': Device, e: Event)
    requires e.pipe < |d.crtcs| == |d'.crtcs| && Waiting(d, e) && d'.crtcs[e.pipe].count == d.crtcs[e.pipe].count
    requires d'.handler == d.handler && d'.off == d.off
    ensures Waiting(d', e)
  {
  }

  predicate TouchesOneFile(a: Action) {
    a.FlipReserve? || a.FlipAbort? || a.FlipDone? || a.Read?
  }

  lemma FileStepOf(d: Device, a: Action) returns (f: nat, file: File)
    requires Inv(d) && Can(d, a) && TouchesOneFile(a)
    ensures f < |d.files| && FileStep(d, f, file, Step(d, a))
  {
    hide AllWaiting, NewIds, RefsBalance, CountsFit, FilesOpen;
    f := a.file;
    file := Step(d, a).files[f];
    assert Step(d, a).files == d.files[f := file];
    assert OfFile(d.pending, f) >= 0;
  }

  lemma {:induction false} NoneOfFile(es: seq<Event>, f: nat)
    requires forall k :: 0 <= k < |es| ==> es[k].file != f
    ensures OfFile(es, f) == 0
  {
    if es != [] {
      assert forall k :: 0 <= k < |es[1..]| ==> es[1..][k] == es[k + 1];
      NoneOfFile(es[1..], f);
    }
  }

  lemma OpenKeeps(d: Device)
    requires Inv(d)
    ensures Inv(Step(d, Open))
  {
    hide Waiting, NewIds, RefsBalance, CountsFit, OfFile;
    var d' := Step(d, Open);
    NoneOfFile(d.pending, |d.files|);
    forall k | 0 <= k < |d.pending|
      ensures Waiting(d', d.pending[k])
    {
      SameWait(d, d', d.pending[k]);
    }
    SameIds(d, d');
  }

  lemma UninstallKeeps(d: Device, readings: seq<nat>)
    requires Inv(d) && Can(d, IrqUninstall(readings))
    ensures Inv(Step(d, IrqUninstall(readings)))
  {
    hide Waiting, NewIds, SpaceBalance, FilesOpen, OnPipe;
    var d' := Step(d, IrqUninstall(readings));
    assert forall c :: 0 <= c < |d.crtcs| ==> d'.crtcs[c] == d.crtcs[c].(enabled := false, last := readings[c]);
    forall k | 0 <= k < |d.pending|
      ensures Waiting(d', d.pending[k])
    {
      SameWait(d, d', d.pending[k]);
    }
    SameIds(d, d');
  }

  // ---------------------------------------------------------------- queueing

  /** A target that is not reached yet is strictly ahead, within the window. */
  lemma NotReachedIsAhead(count: nat, target: nat)
    requires count < U32 && target < U32 && !Reached(count, target)
    ensures 0 < Ahead(count, target) < U32 - WINDOW
  {
    MinusFlip(count, target);
  }

  /** The event goes on the list and takes over its caller's reference. */
  ghost predicate Enqueued(d: Device, c: nat, file: nat, target: nat, d': Device)
    requires c < |d.crtcs| && file < |d.files| && d.crtcs[c].clients > 0
  {
    && target < U32 && !Reached(d.crtcs[c].count, target)
    && d.files[file].open && d.files[file].space >= EVENT_SIZE
    && d' == d.(crtcs := d.crtcs[c := d.crtcs[c].(clients := d.crtcs[c].clients - 1)],
                files := d.files[file := d.files[file].(space := d.files[file].space - EVENT_SIZE)],
                pending := d.pending + [Event(d.nextId, c, target, file)], nextId := d.nextId + 1)
  }

  lemma EnqueuedBalances(d: Device, c: nat, file: nat, target: nat, d': Device)
    requires Inv(d) && c < |d.crtcs| && file < |d.files| && d.crtcs[c].clients > 0 && Enqueued(d, c, file, target, d')
    ensures RefsBalance(d'.crtcs, d'.pending) && SpaceBalance(d'.files, d'.pending)
  {
    hide AllWaiting, NewIds, OnPipe, OfFile, Reached;
    var e := Event(d.nextId, c, target, file);
    forall x | 0 <= x < |d'.crtcs|
      ensures d'.crtcs[x].refs == OnPipe(d'.pending, x) + ModesetRef(d'.crtcs[x]) + d'.crtcs[x].clients
    {
      CountAppend(d.pending, e, x, 0);
    }
    forall f | 0 <= f < |d'.files| && d'.files[f].open
      ensures d'.files[f].space >= 0 && d'.files[f].space + Occupied(d'.files[f], OfFile(d'.pending, f)) == EVENT_SPACE
    {
      CountAppend(d.pending, e, 0, f);
    }
  }

  lemma EnqueuedKeeps(d: Device, c: nat, file: nat, target: nat, d': Device)
    requires Inv(d) && c < |d.crtcs| && file < |d.files| && d.crtcs[c].clients > 0 && Enqueued(d, c, file, target, d')
    ensures Inv(d')
  {
    hide RefsBalance, SpaceBalance, Reached, Minus;
    EnqueuedBalances(d, c, file, target, d');
    NotReachedIsAhead(d.crtcs[c].count, target);
  }

  /** drm_queue_vblank_event: refused, sent at once, or put on the list. */
  lemma QueueCases(d: Device, c: nat, file: nat, request: nat, nextOnMiss: bool) returns (target: nat)
    requires Inv(d) && Can(d, Queue(c, file, request, nextOnMiss))
    ensures target < U32
    ensures target == request
            || (nextOnMiss && Reached(d.crtcs[c].count, request) && target == (d.crtcs[c].count + 1) % U32)
    ensures var d' := Step(d, Queue(c, file, request, nextOnMiss));
            var crtc := PutRef(d.crtcs[c]).(clients := d.crtcs[c].clients - 1);
            || CrtcStep(d, c, crtc, d')
            || (Reached(d.crtcs[c].count, target)
                && CrtcStep(d, c, crtc, d.(crtcs := d.crtcs[c := crtc]))
                && FileStep(d.(crtcs := d.crtcs[c := crtc]), file, d'.files[file], d')
                && d'.files[file].queue == d.files[file].queue + [Sent(d.nextId, target, d.crtcs[c].count)])
            || Enqueued(d, c, file, target, d')
  {
    hide AllWaiting, NewIds, OnPipe, OfFile, Reached;
    target := if nextOnMiss && Reached(d.crtcs[c].count, request) then (d.crtcs[c].count + 1) % U32 else request;
    assert d.crtcs[c].count < U32 && d.crtcs[c].inModeset in {0, 1, 3};
  }

  lemma InvForm(d: Device)
    requires Inv(d)
    ensures WellFormed(d)
  {
  }

  lemma QueueKeeps(d: Device, c: nat, file: nat, request: nat, nextOnMiss: bool)
    requires Inv(d) && Can(d, Queue(c, file, request, nextOnMiss))
    ensures Inv(Step(d, Queue(c, file, request, nextOnMiss)))
  {
    hide Inv, Reached, QueueEvent;
    InvForm(d);
    var target := QueueCases(d, c, file, request, nextOnMiss);
    var d' := Step(d, Queue(c, file, request, nextOnMiss));
    var crtc := PutRef(d.crtcs[c]).(clients := d.crtcs[c].clients - 1);
    if CrtcStep(d, c, crtc, d') {
      CrtcStepKeeps(d, c, crtc, d');
    } else if Enqueued(d, c, file, target, d') {
      EnqueuedKeeps(d, c, file, target, d');
    } else {
      CrtcStepKeeps(d, c, crtc, d.(crtcs := d.crtcs[c := crtc]));
      FileStepKeeps(d.(crtcs := d.crtcs[c := crtc]), file, d'.files[file], d');
    }
  }

  // ---------------------------------------------------------------- passes over the pending list

  /** The passes that occur: an interrupt's, a switch-off's, a closing file's. */
  ghost predicate LegalSweep(d: Device, w: Sweep) {
    match w
    case Deliver(pipe, all, sequence) =>
      && pipe < |d.crtcs| && sequence == d.crtcs[pipe].count
      && (if all then d.off == Some(pipe) else d.handler == Some(pipe))
    case Discard(file) => IsOpen(d, file)
  }

  /** The device after the pass, with the lock given up or the file closed. */
  function Swept(d: Device, w: Sweep): Device
    requires InRange(d.pending, |d.crtcs|, |d.files|) && (w.Discard? ==> w.file < |d.files|)
  {
    var d' := FlushDevice(d, w);
    match w
    case Deliver(_, all, _) => if all then d'.(off := None) else d'.(handler := None)
    case Discard(file) => d'.(files := d'.files[file := File(false, 0, 0, [])])
  }

  lemma SweptBalances(d: Device, w: Sweep)
    requires Inv(d) && LegalSweep(d, w)
    ensures var d' := Swept(d, w); RefsBalance(d'.crtcs, d'.pending) && SpaceBalance(d'.files, d'.pending)
  {
    hide AllWaiting, NewIds, OnPipe, OfFile, Reached, RefsBalance, Flush, FilesOpen, CountsFit, MidRefs;
    var r0 := Flushed([], d.crtcs, d.files);
    BalancesStart(d.crtcs, d.files, d.pending, w);
    FlushBalances(r0, d.pending, w);
    var r := Flush(r0, d.pending, w);
    BalancesStart(r.crtcs, r.files, r.kept, w);
    FlushIs(r0, d.pending, w);
    if w.Discard? {
      DiscardSpace(w.file, r.files, r.kept);
    }
  }

  lemma DiscardSpace(file: nat, files: seq<File>, es: seq<Event>)
    requires MidSpace(Discard(file), files, es, []) && file < |files|
    ensures SpaceBalance(files[file := File(false, 0, 0, [])], es)
  {
    assert forall f :: OfFile([], f) == 0;
  }

  /** After the pass no event of the interrupt's or switched-off CRTC is left at its target. */
  lemma KeptWaits(d: Device, w: Sweep, e: Event)
    requires Inv(d) && LegalSweep(d, w) && e in d.pending && !Takes(w, e)
    ensures e.pipe < |d.crtcs| && Waiting(Swept(d, w), e)
  {
    hide SpaceBalance, NewIds, RefsBalance, Flush, Reached, FilesOpen;
    var k := 0;
    while d.pending[k] != e
      invariant 0 <= k < |d.pending| && e !in d.pending[..k]
      decreases |d.pending| - k
    {
      k := k + 1;
    }
    assert Waiting(d, d.pending[k]);
    FlushIs(Flushed([], d.crtcs, d.files), d.pending, w);
    ReachedExactly(d.crtcs[e.pipe].count, e.target);
    MinusFlip(e.target, d.crtcs[e.pipe].count);
  }

  lemma SweptShape(d: Device, w: Sweep)
    requires Inv(d) && LegalSweep(d, w)
    ensures var d' := Swept(d, w);
            && |d'.crtcs| == |d.crtcs| && |d'.files| == |d.files| && d'.nextId == d.nextId
            && d'.pending == Kept(d.pending, w)
            && (forall c :: 0 <= c < |d.crtcs| ==> SameButRefs(d.crtcs[c], d'.crtcs[c]))
            && (forall f :: 0 <= f < |d.files| && w != Discard(f) ==> SameButQueue(d.files[f], d'.files[f]))
            && (d'.off.Some? ==> d'.off == d.off) && (d'.handler.Some? ==> d'.handler == d.handler)
  {
    hide Inv, Flush, Takes, Kept, SentTo, LegalSweep;
    InvForm(d);
    SweepFile(d, w);
    FlushIs(Flushed([], d.crtcs, d.files), d.pending, w);
    assert [] + Kept(d.pending, w) == Kept(d.pending, w);
  }

  lemma SweepFile(d: Device, w: Sweep)
    requires LegalSweep(d, w)
    ensures w.Discard? ==> w.file < |d.files|
  {
  }

  lemma KeptIds(d: Device, w: Sweep, d': Device)
    requires NewIds(d) && d'.pending == Kept(d.pending, w) && d'.nextId == d.nextId
    ensures NewIds(d')
  {
    KeptDistinct(d.pending, w);
    KeptMembers(d.pending, w);
    hide Kept, Takes;
    assert forall k :: 0 <= k < |d'.pending| ==> d'.pending[k] in d.pending;
  }

  lemma KeptPlaces(d: Device, w: Sweep, d': Device)
    requires InRange(d.pending, |d.crtcs|, |d.files|) && FilesOpen(d.files, d.pending)
    requires d'.pending == Kept(d.pending, w) && |d'.crtcs| == |d.crtcs| && |d'.files| == |d.files|
    requires forall f :: 0 <= f < |d.files| && w != Discard(f) ==> SameButQueue(d.files[f], d'.files[f])
    ensures InRange(d'.pending, |d'.crtcs|, |d'.files|) && FilesOpen(d'.files, d'.pending)
  {
    KeptMembers(d.pending, w);
    hide Kept;
    forall k | 0 <= k < |d'.pending|
      ensures var e := d'.pending[k]; e.pipe < |d.crtcs| && e.file < |d.files| && d'.files[e.file].open
    {
      assert d'.pending[k] in d.pending;
    }
  }

  lemma SweptLists(d: Device, w: Sweep)
    requires Inv(d) && LegalSweep(d, w)
    ensures var d' := Swept(d, w);
            && |d'.crtcs| == |d.crtcs| && |d'.files| == |d.files|
            && d'.pending == Kept(d.pending, w) && NewIds(d') && CountsFit(d'.crtcs)
            && FilesOpen(d'.files, d'.pending) && WellFormed(d')
            && (d'.off.Some? ==> !d'.crtcs[d'.off.value].enabled)
  {
    hide AllWaiting, SpaceBalance, RefsBalance, Swept, LegalSweep, NewIds, FilesOpen, InRange;
    SweepFile(d, w);
    SweptShape(d, w);
    KeptIds(d, w, Swept(d, w));
    KeptPlaces(d, w, Swept(d, w));
  }

  lemma SweptKeeps(d: Device, w: Sweep)
    requires Inv(d) && LegalSweep(d, w)
    ensures Inv(Swept(d, w))
  {
    hide SpaceBalance, RefsBalance, NewIds, CountsFit, FilesOpen, Waiting, Swept, Takes;
    assert InRange(d.pending, |d.crtcs|, |d.files|);
    SweptLists(d, w);
    SweptBalances(d, w);
    KeptMembers(d.pending, w);
    forall k | 0 <= k < |Swept(d, w).pending|
      ensures Waiting(Swept(d, w), Swept(d, w).pending[k])
    {
      KeptWaits(d, w, Swept(d, w).pending[k]);
    }
  }

  /** The pass that a step makes, if it makes one. */
  function SweepOf(d: Device, a: Action): (w: Option<Sweep>)
    requires WellFormed(d) && Can(d, a)
  {
    match a
    case OffEnd => Some(Deliver(d.off.value, true, d.crtcs[d.off.value].count))
    case DeliverEvents => Some(Deliver(d.handler.value, false, d.crtcs[d.handler.value].count))
    case Close(file) => Some(Discard(file))
    case _ => None
  }

  lemma SweepIs(d: Device, a: Action)
    requires Inv(d) && Can(d, a) && SweepOf(d, a).Some?
    ensures LegalSweep(d, SweepOf(d, a).value) && Step(d, a) == Swept(d, SweepOf(d, a).value)
  {
    hide AllWaiting, SpaceBalance, RefsBalance, Flush, Reached, NewIds, FilesOpen;
  }

  // ---------------------------------------------------------------- every step

  /** Every step keeps all invariants: references and event space are conserved, no count is put
      below zero, and pending events are neither overdue nor out of the window. */
  lemma StepKeepsInv(d: Device, a: Action)
    requires Inv(d) && Can(d, a)
    ensures Inv(Step(d, a))
  {
    hide Inv, Step, Can, CrtcStep, FileStep, LegalSweep, Swept;
    InvForm(d);
    if TouchesOneCrtc(a) {
      var c, crtc := CrtcStepOf(d, a);
      CrtcStepKeeps(d, c, crtc, Step(d, a));
    } else if TouchesOneFile(a) {
      var f, file := FileStepOf(d, a);
      FileStepKeeps(d, f, file, Step(d, a));
    } else if SweepOf(d, a).Some? {
      SweepIs(d, a);
      SweptKeeps(d, SweepOf(d, a).value);
    } else {
      match a {
        case Queue(c, file, request, nextOnMiss) => QueueKeeps(d, c, file, request, nextOnMiss);
        case Open => OpenKeeps(d);
        case IrqUninstall(readings) => UninstallKeeps(d, readings);
      }
    }
  }
}
