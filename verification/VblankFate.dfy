/** What becomes of a pending event: neither lost, nor early, nor late. */
module VblankFate {
  import opened Lists
  import opened VblankModel
  import opened VblankRules
  import opened VblankSteps

  function AheadOf(d: Device, e: Event): nat
    requires e.pipe < |d.crtcs|
  {
    Ahead(d.crtcs[e.pipe].count, e.target)
  }

  /** Still on the list, as far from its target as before or one count nearer. */
  ghost predicate StillPending(d: Device, e: Event, d': Device)
    requires e.pipe < |d.crtcs| == |d'.crtcs|
  {
    e in d'.pending && (AheadOf(d', e) == AheadOf(d, e) || AheadOf(d', e) == AheadOf(d, e) - 1)
  }

  /** Taken off the list by the interrupt that brought the counter to the target, and on its file's
      queue with exactly that sequence. */
  ghost predicate OnTime(d: Device, a: Action, e: Event, d': Device)
    requires e.pipe < |d.crtcs| && e.file < |d'.files|
  {
    && a == DeliverEvents && d.handler == Some(e.pipe) && d.crtcs[e.pipe].count == e.target
    && e !in d'.pending && Sent(e.id, e.target, e.target) in d'.files[e.file].queue
  }

  /** Sent early because its CRTC is switched off. */
  ghost predicate SwitchedOff(d: Device, a: Action, e: Event, d': Device)
    requires e.pipe < |d.crtcs| && e.file < |d'.files|
  {
    && a == OffEnd && d.off == Some(e.pipe)
    && e !in d'.pending && Sent(e.id, e.target, d.crtcs[e.pipe].count) in d'.files[e.file].queue
  }

  ghost predicate Fate(d: Device, a: Action, e: Event, d': Device)
    requires e.pipe < |d.crtcs| == |d'.crtcs| && e.file < |d'.files|
  {
    || StillPending(d, e, d')
    || OnTime(d, a, e, d')
    || SwitchedOff(d, a, e, d')
    || (a == Close(e.file) && e !in d'.pending)
  }

  lemma PlaceOf(d: Device, e: Event)
    requires WellFormed(d) && e in d.pending
    ensures e.pipe < |d.crtcs| && e.file < |d.files|
  {
  }

  lemma SizesKept(d: Device, a: Action)
    requires WellFormed(d) && Can(d, a)
    ensures |Step(d, a).crtcs| == |d.crtcs| && |Step(d, a).files| >= |d.files|
  {
    hide GetRef, QueueEvent, Flush, Reached;
    if a.Queue? {
      QueueSizes(d, a.c, a.file, a.request, a.nextOnMiss);
    }
  }

  lemma QueueSizes(d: Device, c: nat, file: nat, request: nat, nextOnMiss: bool)
    requires c < |d.crtcs| && file < |d.files| && d.crtcs[c].clients > 0
    ensures var d' := QueueEvent(d, c, file, request, nextOnMiss); |d'.crtcs| == |d.crtcs| && |d'.files| == |d.files|
  {
    hide Reached;
  }

  /** A pass over the list decides the fate of every pending event. */
  lemma SweepFate(d: Device, a: Action, e: Event)
    requires Inv(d) && Can(d, a) && SweepOf(d, a).Some? && e in d.pending
    ensures e.pipe < |d.crtcs| == |Step(d, a).crtcs| && e.file < |Step(d, a).files|
    ensures Fate(d, a, e, Step(d, a))
    ensures e in Step(d, a).pending <==> !Takes(SweepOf(d, a).value, e)
  {
    hide AllWaiting, SpaceBalance, RefsBalance, Flush, Reached, NewIds, FilesOpen, Kept, SentTo, Step, Swept;
    PlaceOf(d, e);
    SizesKept(d, a);
    SweepIs(d, a);
    var w := SweepOf(d, a).value;
    SweptShape(d, w);
    KeptMembers(d.pending, w);
    if Takes(w, e) && w.Deliver? {
      DueIsDelivered(d, w, e);
    }
  }

  lemma DueIsDelivered(d: Device, w: Sweep, e: Event)
    requires Inv(d) && LegalSweep(d, w) && w.Deliver? && e in d.pending && Takes(w, e)
    ensures e.file < |Swept(d, w).files| && e.pipe == w.pipe < |d.crtcs|
    ensures Sent(e.id, e.target, d.crtcs[e.pipe].count) in Swept(d, w).files[e.file].queue
    ensures !w.all ==> d.crtcs[e.pipe].count == e.target
  {
    hide SpaceBalance, RefsBalance, Flush, NewIds, FilesOpen, SentTo, Kept;
    PlaceOf(d, e);
    FlushIs(Flushed([], d.crtcs, d.files), d.pending, w);
    SentToMembers(d.pending, e.file, w, e);
    IsWaiting(d, e);
    ReachedExactly(d.crtcs[e.pipe].count, e.target);
  }

  lemma IsWaiting(d: Device, e: Event)
    requires Inv(d) && e in d.pending
    ensures e.pipe < |d.crtcs| && Waiting(d, e)
  {
    hide SpaceBalance, RefsBalance, NewIds, FilesOpen, Waiting;
    var k :| 0 <= k < |d.pending| && d.pending[k] == e;
    assert Waiting(d, d.pending[k]);
  }

  /** Any other step leaves the event pending. */
  lemma OtherStepFate(d: Device, a: Action, e: Event)
    requires Inv(d) && Can(d, a) && SweepOf(d, a).None? && e in d.pending
    ensures e.pipe < |d.crtcs| == |Step(d, a).crtcs| && StillPending(d, e, Step(d, a))
  {
    hide Inv, Step, Can, CrtcStep, FileStep;
    InvForm(d);
    PlaceOf(d, e);
    SizesKept(d, a);
    if TouchesOneCrtc(a) {
      var c, crtc := CrtcStepOf(d, a);
      CrtcStepFate(d, c, crtc, Step(d, a), e);
    } else if TouchesOneFile(a) {
      var f, file := FileStepOf(d, a);
      FileStepFate(d, f, file, Step(d, a), e);
    } else {
      match a {
        case Queue(c, file, request, nextOnMiss) => QueueFate(d, c, file, request, nextOnMiss, e);
        case Open => QuietFate(d, a, e);
        case IrqUninstall(_) => QuietFate(d, a, e);
      }
    }
  }

  lemma QuietFate(d: Device, a: Action, e: Event)
    requires WellFormed(d) && Can(d, a) && (a.Open? || a.IrqUninstall?) && e in d.pending && e.pipe < |d.crtcs|
    ensures |Step(d, a).crtcs| == |d.crtcs| && StillPending(d, e, Step(d, a))
  {
  }

  lemma CrtcStepFate(d: Device, c: nat, crtc: Crtc, d': Device, e: Event)
    requires Inv(d) && c < |d.crtcs| && CrtcStep(d, c, crtc, d') && e in d.pending && e.pipe < |d.crtcs| == |d'.crtcs|
    ensures StillPending(d, e, d')
  {
    var k :| 0 <= k < |d.pending| && d.pending[k] == e;
    hide Inv;
    CrtcStepWaits(d, c, crtc, d', k);
    hide CrtcStep;
    assert d'.pending == d.pending by { SameList(d, c, crtc, d'); }
  }

  lemma SameList(d: Device, c: nat, crtc: Crtc, d': Device)
    requires c < |d.crtcs| && CrtcStep(d, c, crtc, d')
    ensures d'.pending == d.pending
  {
  }

  lemma FileStepFate(d: Device, f: nat, file: File, d': Device, e: Event)
    requires f < |d.files| && FileStep(d, f, file, d') && e in d.pending && e.pipe < |d.crtcs| == |d'.crtcs|
    ensures StillPending(d, e, d')
  {
  }

  lemma EnqueuedFate(d: Device, c: nat, file: nat, target: nat, d': Device, e: Event)
    requires c < |d.crtcs| && file < |d.files| && d.crtcs[c].clients > 0 && Enqueued(d, c, file, target, d')
    requires e in d.pending && e.pipe < |d.crtcs| == |d'.crtcs|
    ensures StillPending(d, e, d')
  {
    hide Reached;
  }

  lemma QueueFate(d: Device, c: nat, file: nat, request: nat, nextOnMiss: bool, e: Event)
    requires Inv(d) && Can(d, Queue(c, file, request, nextOnMiss)) && e in d.pending
    requires e.pipe < |d.crtcs| == |Step(d, Queue(c, file, request, nextOnMiss)).crtcs|
    ensures StillPending(d, e, Step(d, Queue(c, file, request, nextOnMiss)))
  {
    hide Inv, Reached, QueueEvent, CrtcStep, FileStep, Enqueued, StillPending;
    InvForm(d);
    QueueSizes(d, c, file, request, nextOnMiss);
    var target := QueueCases(d, c, file, request, nextOnMiss);
    var d' := Step(d, Queue(c, file, request, nextOnMiss));
    var crtc := PutRef(d.crtcs[c]).(clients := d.crtcs[c].clients - 1);
    if CrtcStep(d, c, crtc, d') {
      CrtcStepFate(d, c, crtc, d', e);
    } else if Enqueued(d, c, file, target, d') {
      EnqueuedFate(d, c, file, target, d', e);
    } else {
      var d1 := d.(crtcs := d.crtcs[c := crtc]);
      SentAtOnceFate(d, c, crtc, d1, file, d', e);
    }
  }

  lemma SentAtOnceFate(d: Device, c: nat, crtc: Crtc, d1: Device, file: nat, d': Device, e: Event)
    requires Inv(d) && c < |d.crtcs| && file < |d.files| && d1 == d.(crtcs := d.crtcs[c := crtc])
    requires CrtcStep(d, c, crtc, d1)
    requires file < |d'.files| && FileStep(d1, file, d'.files[file], d')
    requires e in d.pending && e.pipe < |d.crtcs| == |d'.crtcs|
    ensures StillPending(d, e, d')
  {
    hide Inv, CrtcStep;
    CrtcStepFate(d, c, crtc, d1, e);
  }

  /** One step: a pending event stays, at most one count nearer its target; or it is delivered on
      time; or its CRTC has been switched off; or its file is closed. */
  lemma StepFate(d: Device, a: Action, e: Event)
    requires Inv(d) && Can(d, a) && e in d.pending
    ensures e.pipe < |d.crtcs| == |Step(d, a).crtcs| && e.file < |Step(d, a).files|
    ensures Fate(d, a, e, Step(d, a))
  {
    hide Inv, Step, Can, StillPending, OnTime, SwitchedOff;
    InvForm(d);
    PlaceOf(d, e);
    SizesKept(d, a);
    if SweepOf(d, a).Some? {
      SweepFate(d, a, e);
    } else {
      OtherStepFate(d, a, e);
    }
  }

  /** Nothing is overdue: an event whose target has been reached is being delivered at this moment,
      and the delivery takes it off the list. */
  lemma NeverLate(d: Device, e: Event)
    requires Inv(d) && e in d.pending && e.pipe < |d.crtcs| && d.crtcs[e.pipe].count == e.target
    ensures d.handler == Some(e.pipe) || d.off == Some(e.pipe)
    ensures d.handler == Some(e.pipe) && d.off != Some(e.pipe) ==>
              !(exists c, isNew :: Can(d, Irq(c, isNew)))
              && e.file < |d.files| == |Step(d, DeliverEvents).files|
              && OnTime(d, DeliverEvents, e, Step(d, DeliverEvents))
  {
    hide SpaceBalance, RefsBalance, NewIds, FilesOpen, Flush, Swept;
    PlaceOf(d, e);
    IsWaiting(d, e);
    MinusSelf(e.target);
    if d.handler == Some(e.pipe) {
      SweepFate(d, DeliverEvents, e);
      SweepIs(d, DeliverEvents);
      SweptShape(d, SweepOf(d, DeliverEvents).value);
    }
  }

  /** What a request becomes, for a file with room and a caller with a reference: an event that lies
      0 < n < 2^32 - 2^23 counts ahead waits with its reference; any other counts as missed and is sent at
      once, unless the next count is asked for instead. */
  lemma QueuedExactly(d: Device, c: nat, file: nat, request: nat, nextOnMiss: bool)
    requires Inv(d) && Can(d, Queue(c, file, request, nextOnMiss)) && d.files[file].space >= EVENT_SIZE
    ensures var d' := Step(d, Queue(c, file, request, nextOnMiss));
            var count := d.crtcs[c].count;
            if 0 < Ahead(count, request) < U32 - WINDOW then
              d'.pending == d.pending + [Event(d.nextId, c, request, file)]
            else if nextOnMiss then
              d'.pending == d.pending + [Event(d.nextId, c, (count + 1) % U32, file)]
            else
              d'.pending == d.pending && file < |d'.files|
              && d'.files[file].queue == d.files[file].queue + [Sent(d.nextId, request, count)]
  {
    hide Inv, Reached, Minus;
    var count := d.crtcs[c].count;
    CountFits(d, c);
    ReachedIs(count, request);
    ReachedIs(count, (count + 1) % U32);
    NextIsAhead(count);
  }

  lemma CountFits(d: Device, c: nat)
    requires Inv(d) && c < |d.crtcs|
    ensures d.crtcs[c].count < U32
  {
  }

  lemma ReachedIs(count: nat, target: nat)
    requires count < U32 && target < U32
    ensures !Reached(count, target) <==> 0 < Ahead(count, target) < U32 - WINDOW
  {
    MinusFlip(count, target);
    MinusFlip(target, count);
  }

  lemma NextIsAhead(count: nat)
    requires count < U32
    ensures Ahead(count, (count + 1) % U32) == 1
  {
    MinusFlip((count + 1) % U32, count);
  }

  /** The reference of a pending event keeps the timer from disabling its interrupt, so that its CRTC
      counts one by one. */
  lemma PendingKeepsInterrupt(d: Device, e: Event, bump: bool, cur: nat)
    requires Inv(d) && e in d.pending && e.pipe < |d.crtcs| && Can(d, DisableTimer(e.pipe, bump, cur))
    ensures d.crtcs[e.pipe].refs > 0 && Step(d, DisableTimer(e.pipe, bump, cur)) == d
  {
    hide SpaceBalance, AllWaiting, NewIds, FilesOpen, OnPipe;
    var k :| 0 <= k < |d.pending| && d.pending[k] == e;
    if OnPipe(d.pending, e.pipe) == 0 {
      NoneOnPipe(d.pending, e.pipe, k);
    }
  }

  // ---------------------------------------------------------------- whole runs

  ghost predicate LegalRun(d: Device, run: seq<Action>)
    decreases |run|
  {
    run == [] || (WellFormed(d) && Can(d, run[0]) && LegalRun(Step(d, run[0]), run[1..]))
  }

  function Run(d: Device, run: seq<Action>): Device
    requires LegalRun(d, run)
    decreases |run|
  {
    if run == [] then d else Run(Step(d, run[0]), run[1..])
  }

  /** Somewhere along the run the event is delivered on time. */
  ghost predicate DeliveredOnTime(d: Device, run: seq<Action>, e: Event)
    requires LegalRun(d, run)
    decreases |run|
  {
    && run != []
    && (|| (e.pipe < |d.crtcs| && e.file < |Step(d, run[0]).files| && OnTime(d, run[0], e, Step(d, run[0])))
        || DeliveredOnTime(Step(d, run[0]), run[1..], e))
  }

  /** The run neither closes the event's file nor completes switching its CRTC off. */
  ghost predicate LeavesAlone(d: Device, run: seq<Action>, e: Event)
    requires LegalRun(d, run)
    decreases |run|
  {
    run == [] || (run[0] != Close(e.file) && !(run[0] == OffEnd && d.off == Some(e.pipe))
                  && LeavesAlone(Step(d, run[0]), run[1..], e))
  }

  lemma StillThere(d: Device, a: Action, e: Event, d': Device)
    requires e.pipe < |d.crtcs| == |d'.crtcs| && e.file < |d'.files| && Fate(d, a, e, d') && e in d'.pending
    ensures AheadOf(d', e) <= AheadOf(d, e)
  {
  }

  lemma GoneOnTime(d: Device, a: Action, e: Event, d': Device)
    requires e.pipe < |d.crtcs| == |d'.crtcs| && e.file < |d'.files| && Fate(d, a, e, d') && e !in d'.pending
    requires a != Close(e.file) && !(a == OffEnd && d.off == Some(e.pipe))
    ensures OnTime(d, a, e, d')
  {
  }

  /** In every interleaving: an accepted event is still pending, no farther from its target, or it has
      been delivered by the interrupt that brought the counter exactly to its target. */
  lemma {:induction false} NeitherLostEarlyNorLate(d: Device, run: seq<Action>, e: Event)
    requires Inv(d) && LegalRun(d, run) && e in d.pending && LeavesAlone(d, run, e)
    ensures Inv(Run(d, run))
    ensures e.pipe < |d.crtcs| == |Run(d, run).crtcs|
    ensures || DeliveredOnTime(d, run, e)
            || (e in Run(d, run).pending && AheadOf(Run(d, run), e) <= AheadOf(d, e) && Waiting(Run(d, run), e))
    decreases |run|
  {
    hide Inv, Step, Can, OnTime, SwitchedOff, Waiting, Ahead;
    InvForm(d);
    PlaceOf(d, e);
    if run == [] {
      IsWaiting(d, e);
    } else {
      StepKeepsInv(d, run[0]);
      StepFate(d, run[0], e);
      var d1 := Step(d, run[0]);
      if e in d1.pending {
        StillThere(d, run[0], e, d1);
        NeitherLostEarlyNorLate(d1, run[1..], e);
      } else {
        GoneOnTime(d, run[0], e, d1);
        RunKeepsInv(d1, run[1..]);
      }
    }
  }

  /** References, event space and counters are kept over every run. */
  lemma {:induction false} RunKeepsInv(d: Device, run: seq<Action>)
    requires Inv(d) && LegalRun(d, run)
    ensures Inv(Run(d, run)) && |Run(d, run).crtcs| == |d.crtcs|
    decreases |run|
  {
    hide Inv, Step, Can;
    if run != [] {
      InvForm(d);
      StepKeepsInv(d, run[0]);
      SizesKept(d, run[0]);
      RunKeepsInv(Step(d, run[0]), run[1..]);
    }
  }

  /** The state drm_vblank_init leaves. */
  function InitialDevice(n: nat, maxCount: nat): Device {
    Device(seq(n, _ => Crtc(0, 0, false, 0, 0, 0)), [], [], None, None, false, 0, maxCount)
  }

  lemma InitInv(n: nat, maxCount: nat)
    ensures Inv(InitialDevice(n, maxCount))
  {
    var d := InitialDevice(n, maxCount);
    assert forall c :: 0 <= c < n ==> d.crtcs[c] == Crtc(0, 0, false, 0, 0, 0);
    assert forall c :: OnPipe([], c) == 0;
    assert RefsBalance(d.crtcs, d.pending);
  }

  /** Every put finds a reference to give up, so the BUG_ON in drm_vblank_put never fires. */
  lemma PutsFindReferences(d: Device, a: Action)
    requires Inv(d) && Can(d, a)
    ensures a.Put? || a.QueueNoMemory? || a.Queue? ==> d.crtcs[a.c].refs > 0
    ensures a.PostModeset? && d.crtcs[a.c].inModeset == 3 ==> d.crtcs[a.c].refs > 0
    ensures forall c :: 0 <= c < |Step(d, a).crtcs| ==> Step(d, a).crtcs[c].refs >= 0
  {
    hide Step, SpaceBalance, AllWaiting, NewIds, FilesOpen, OnPipe;
    StepKeepsInv(d, a);
    assert RefsBalance(Step(d, a).crtcs, Step(d, a).pending);
  }
}
