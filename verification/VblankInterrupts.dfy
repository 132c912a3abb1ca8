/** The interrupt is on while anybody needs it, so every interrupt counts for a pending event; and what
    the hardware counted while it was off is made up for. */
module VblankInterrupts {
  import opened Lists
  import opened VblankModel
  import opened VblankRules
  import opened VblankSteps
  import opened VblankFate
  import opened VblankDelivery

  /** Who has a reference has the interrupt. */
  ghost predicate On(d: Device) {
    forall c :: 0 <= c < |d.crtcs| && d.crtcs[c].refs > 0 ==> d.crtcs[c].enabled
  }

  /** The steps that switch an interrupt off under its users: drm_vblank_off and drm_irq_uninstall. */
  predicate Overrides(a: Action) {
    a.OffBegin? || a.IrqUninstall?
  }

  lemma {:induction false} FlushTakesRefs(r: Flushed, es: seq<Event>, w: Sweep, c: nat)
    requires InRange(es, |r.crtcs|, |r.files|) && c < |r.crtcs|
    ensures Flush(r, es, w).crtcs[c].refs <= r.crtcs[c].refs
    decreases |es|
  {
    hide Takes, Send;
    if es != [] {
      RangeTail(es, |r.crtcs|, |r.files|);
      CrtcsStep(r, es[0], w);
      FlushTakesRefs(FlushOne(r, es[0], w), es[1..], w, c);
    }
  }

  lemma SweepKeepsOn(d: Device, w: Sweep)
    requires Inv(d) && LegalSweep(d, w) && On(d)
    ensures On(Swept(d, w))
  {
    hide Inv, Flush, LegalSweep, Kept, SentTo, SameButQueue;
    InvForm(d);
    SweepFile(d, w);
    SweptShape(d, w);
    forall c | 0 <= c < |d.crtcs|
      ensures Swept(d, w).crtcs[c].refs <= d.crtcs[c].refs
    {
      FlushTakesRefs(Flushed([], d.crtcs, d.files), d.pending, w, c);
    }
  }

  lemma OtherKeepsOn(d: Device, a: Action)
    requires WellFormed(d) && Can(d, a) && SweepOf(d, a).None? && On(d) && !Overrides(a)
    requires forall c :: 0 <= c < |d.crtcs| ==> d.crtcs[c].refs >= 0
    ensures On(Step(d, a))
  {
    hide Reached, Flush, Missed, Minus, Send;
  }

  lemma RefsFit(d: Device)
    requires Inv(d)
    ensures forall c :: 0 <= c < |d.crtcs| ==> d.crtcs[c].refs >= 0
  {
    hide SpaceBalance, AllWaiting, NewIds, FilesOpen, OnPipe;
    assert RefsBalance(d.crtcs, d.pending);
  }

  lemma StepKeepsOn(d: Device, a: Action)
    requires Inv(d) && Can(d, a) && On(d) && !Overrides(a)
    ensures On(Step(d, a))
  {
    hide Inv, Step, On, Swept, Can, LegalSweep;
    InvForm(d);
    if SweepOf(d, a).Some? {
      SweepIs(d, a);
      SweepKeepsOn(d, SweepOf(d, a).value);
    } else {
      RefsFit(d);
      OtherKeepsOn(d, a);
    }
  }

  ghost predicate NoneOverrides(run: seq<Action>) {
    forall k :: 0 <= k < |run| ==> !Overrides(run[k])
  }

  lemma TailOverrides(run: seq<Action>)
    requires NoneOverrides(run) && run != []
    ensures !Overrides(run[0]) && NoneOverrides(run[1..])
  {
  }

  lemma {:induction false} RunKeepsOn(d: Device, run: seq<Action>)
    requires Inv(d) && LegalRun(d, run) && On(d) && NoneOverrides(run)
    ensures On(Run(d, run))
    decreases |run|
  {
    hide Inv, Step, Can, On, Overrides, NoneOverrides;
    if run != [] {
      InvForm(d);
      TailOverrides(run);
      StepKeepsInv(d, run[0]);
      StepKeepsOn(d, run[0]);
      RunKeepsOn(Step(d, run[0]), run[1..]);
    }
  }

  /** From a new device on: unless it is overridden, whoever has a reference has the interrupt, and so has
      every pending event. */
  lemma PendingHasInterrupt(n: nat, maxCount: nat, run: seq<Action>)
    requires LegalRun(InitialDevice(n, maxCount), run) && NoneOverrides(run)
    ensures var d := Run(InitialDevice(n, maxCount), run);
            && On(d)
            && forall k :: 0 <= k < |d.pending| ==>
                 d.pending[k].pipe < |d.crtcs| && d.crtcs[d.pending[k].pipe].enabled
  {
    hide Inv, InitialDevice, LegalRun, Run, NoneOverrides, On;
    InitInv(n, maxCount);
    InitOn(n, maxCount);
    RunKeepsOn(InitialDevice(n, maxCount), run);
    RunKeepsInv(InitialDevice(n, maxCount), run);
    var d := Run(InitialDevice(n, maxCount), run);
    forall k | 0 <= k < |d.pending|
      ensures d.pending[k].pipe < |d.crtcs| && d.crtcs[d.pending[k].pipe].enabled
    {
      EventOn(d, d.pending[k]);
    }
  }

  lemma InitOn(n: nat, maxCount: nat)
    ensures On(InitialDevice(n, maxCount))
  {
  }

  lemma EventOn(d: Device, e: Event)
    requires Inv(d) && On(d) && e in d.pending
    ensures e.pipe < |d.crtcs| && d.crtcs[e.pipe].enabled
  {
    hide Inv;
    HasReference(d, e);
  }

  // ---------------------------------------------------------------- every interrupt counts

  /** How often the CRTC's interrupt finds a new interval. */
  function Interrupts(run: seq<Action>, c: nat): nat {
    if run == [] then 0 else (if run[0] == Irq(c, true) then 1 else 0) + Interrupts(run[1..], c)
  }

  lemma InterruptCounts(d: Device, a: Action, e: Event)
    requires Inv(d) && On(d) && Can(d, a) && !Overrides(a) && e in d.pending
    ensures Counts(d, a, e.pipe) <==> a == Irq(e.pipe, true)
  {
    hide Inv, On;
    EventOn(d, e);
  }

  lemma {:induction false} AllCounted(d: Device, run: seq<Action>, e: Event)
    requires Inv(d) && On(d) && LegalRun(d, run) && NoneOverrides(run) && e in d.pending && LeavesAlone(d, run, e)
    ensures DeliveredOnTime(d, run, e) || Counted(d, run, e.pipe) == Interrupts(run, e.pipe)
    decreases |run|
  {
    hide Inv, On, Step, Can, OnTime, SwitchedOff, Overrides, NoneOverrides, Counts, Ahead;
    if run != [] {
      InvForm(d);
      PlaceOf(d, e);
      TailOverrides(run);
      StepKeepsInv(d, run[0]);
      StepKeepsOn(d, run[0]);
      StepFate(d, run[0], e);
      InterruptCounts(d, run[0], e);
      var d1 := Step(d, run[0]);
      if e in d1.pending {
        AllCounted(d1, run[1..], e);
      } else {
        GoneOnTime(d, run[0], e, d1);
      }
    }
  }

  /** So an event is delivered, once, after as many interrupts as it was ahead: nothing has to be assumed
      of the counter. */
  lemma DeliveredByInterrupts(d: Device, run: seq<Action>, e: Event)
    requires Inv(d) && On(d) && LegalRun(d, run) && NoneOverrides(run) && e in d.pending && LeavesAlone(d, run, e)
    requires e.pipe < |d.crtcs| && Interrupts(run, e.pipe) >= AheadOf(d, e)
    requires Run(d, run).handler != Some(e.pipe) && Run(d, run).off != Some(e.pipe)
    ensures e !in Run(d, run).pending && SentExactlyOnce(Log(d, run), e)
  {
    hide Inv, On, Step, Run, Log, LegalRun, NoneOverrides, LeavesAlone, DeliveredOnTime, Counted, SentExactlyOnce,
         Ahead;
    AllCounted(d, run, e);
    if DeliveredOnTime(d, run, e) {
      DeliveredOnce(d, run, e);
    } else {
      DeliveredExactlyOnce(d, run, e);
    }
  }

  // ---------------------------------------------------------------- what passes while it is off

  /** Switched off at one reading of the hardware counter and on again at another: the intervals between
      them are added to the count exactly, if and only if the counter did not wrap or max_vblank_count is its
      period. */
  lemma SleepIsCounted(c: Crtc, bump: bool, hardware: nat, elapsed: nat, period: nat, maxCount: nat)
    requires c.refs == 0 && c.count < U32
    requires hardware < period <= U32 && elapsed < period && maxCount < U32
    ensures var cur := if hardware + elapsed < period then hardware + elapsed else hardware + elapsed - period;
            var (on, ok) := GetRef(Disable(c, bump, hardware), false, cur, maxCount);
            && ok && on.enabled
            && (on.count == (c.count + (if bump then 1 else 0) + elapsed) % U32
                <==> hardware + elapsed < period || maxCount == period % U32)
  {
    hide Missed, Minus;
    MissedExact(hardware, elapsed, period, maxCount);
    var cur := if hardware + elapsed < period then hardware + elapsed else hardware + elapsed - period;
    var b := if bump then 1 else 0;
    MissedFits(cur, hardware, maxCount);
    SameAdvance(c.count + b, Missed(cur, hardware, maxCount), elapsed);
  }

  lemma MissedFits(cur: nat, last: nat, maxCount: nat)
    ensures Missed(cur, last, maxCount) < U32
  {
  }

  lemma SameAdvance(x: nat, a: nat, b: nat)
    requires a < U32 && b < U32
    ensures (x % U32 + a) % U32 == (x + b) % U32 <==> a == b
  {
  }
}
