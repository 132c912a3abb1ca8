/** Over whole runs: no event is ever sent twice, and an event is sent once as many intervals have been
    counted as it was ahead. */
module VblankDelivery {
  import opened Lists
  import opened VblankModel
  import opened VblankRules
  import opened VblankSteps
  import opened VblankFate

  // ---------------------------------------------------------------- what is sent, and to whom

  datatype Delivery = Delivery(file: nat, sent: Sent)

  function AllSent(es: seq<Event>, w: Sweep): seq<Delivery> {
    if es == [] then []
    else (if w.Deliver? && Takes(w, es[0])
          then [Delivery(es[0].file, Sent(es[0].id, es[0].target, w.sequence))] else [])
         + AllSent(es[1..], w)
  }

  /** What a request is after "next on miss". */
  function TargetOf(count: nat, request: nat, nextOnMiss: bool): nat {
    if nextOnMiss && Reached(count, request) then (count + 1) % U32 else request
  }

  /** The events that one step puts on the queues of files, in order. */
  function SentBy(d: Device, a: Action): seq<Delivery>
    requires WellFormed(d) && Can(d, a)
  {
    match a
    case OffEnd => AllSent(d.pending, SweepOf(d, a).value)
    case DeliverEvents => AllSent(d.pending, SweepOf(d, a).value)
    case Queue(c, file, request, nextOnMiss) =>
      var count := d.crtcs[c].count;
      var target := TargetOf(count, request, nextOnMiss);
      if d.files[file].space >= EVENT_SIZE && Reached(count, target) then
        [Delivery(file, Sent(d.nextId, target, count))]
      else []
    case FlipDone(file, sequence) => [Delivery(file, Sent(d.nextId, sequence, sequence))]
    case _ => []
  }

  function ToFile(log: seq<Delivery>, f: nat): seq<Sent> {
    if log == [] then []
    else (if log[0].file == f then [log[0].sent] else []) + ToFile(log[1..], f)
  }

  lemma {:induction false} AllSentToFile(es: seq<Event>, w: Sweep, f: nat)
    ensures ToFile(AllSent(es, w), f) == SentTo(es, f, w)
  {
    hide Takes;
    if es != [] {
      AllSentToFile(es[1..], w, f);
      var rest := AllSent(es[1..], w);
      if w.Deliver? && Takes(w, es[0]) {
        assert ([Delivery(es[0].file, Sent(es[0].id, es[0].target, w.sequence))] + rest)[1..] == rest;
      } else {
        assert [] + rest == rest;
      }
    }
  }

  lemma OneToFile(x: Delivery, f: nat)
    ensures ToFile([x], f) == if x.file == f then [x.sent] else []
  {
  }

  lemma SweepQueues(d: Device, w: Sweep, f: nat)
    requires Inv(d) && LegalSweep(d, w) && f < |d.files| && w != Discard(f)
    ensures f < |Swept(d, w).files| && Swept(d, w).files[f].queue == d.files[f].queue + ToFile(AllSent(d.pending, w), f)
  {
    hide SpaceBalance, RefsBalance, Flush, NewIds, FilesOpen, SentTo, Kept, AllWaiting, AllSent;
    SweptShape(d, w);
    FlushIs(Flushed([], d.crtcs, d.files), d.pending, w);
    AllSentToFile(d.pending, w, f);
  }

  /** The log is true: a file's queue grows by exactly what the step sends to it, and loses no more than
      the one event that is read. */
  lemma SentByIs(d: Device, a: Action, f: nat)
    requires Inv(d) && Can(d, a) && f < |d.files| && a != Close(f)
    ensures f < |Step(d, a).files|
    ensures Step(d, a).files[f].queue
            == (if a == Read(f) && d.files[f].queue != [] then d.files[f].queue[1..] else d.files[f].queue)
               + ToFile(SentBy(d, a), f)
  {
    hide Inv, Swept, Step, Can;
    InvForm(d);
    SizesKept(d, a);
    if SweepOf(d, a).Some? {
      SweepIs(d, a);
      SweepQueues(d, SweepOf(d, a).value, f);
      if a.Close? {
        NothingDiscarded(d.pending, a.file);
      }
    } else if a.Queue? || a.FlipDone? {
      SentAtOnceIs(d, a, f);
    } else {
      NothingSent(d, a, f);
    }
  }

  lemma NothingSent(d: Device, a: Action, f: nat)
    requires WellFormed(d) && Can(d, a) && SweepOf(d, a).None? && !a.Queue? && !a.FlipDone?
    requires f < |d.files| <= |Step(d, a).files|
    ensures SentBy(d, a) == []
    ensures Step(d, a).files[f].queue
            == if a == Read(f) && d.files[f].queue != [] then d.files[f].queue[1..] else d.files[f].queue
  {
    hide GetRef, PutRef, Flush, QueueEvent, Reached;
  }

  lemma {:induction false} NothingDiscarded(es: seq<Event>, file: nat)
    ensures AllSent(es, Discard(file)) == []
  {
    if es != [] {
      NothingDiscarded(es[1..], file);
    }
  }

  lemma SentAtOnceIs(d: Device, a: Action, f: nat)
    requires WellFormed(d) && Can(d, a) && (a.Queue? || a.FlipDone?) && f < |d.files| <= |Step(d, a).files|
    ensures Step(d, a).files[f].queue == d.files[f].queue + ToFile(SentBy(d, a), f)
  {
    hide Reached, PutRef;
    if SentBy(d, a) != [] {
      OneToFile(SentBy(d, a)[0], f);
    }
  }

  // ---------------------------------------------------------------- exactly once

  function Log(d: Device, run: seq<Action>): seq<Delivery>
    requires LegalRun(d, run)
    decreases |run|
  {
    if run == [] then [] else SentBy(d, run[0]) + Log(Step(d, run[0]), run[1..])
  }

  ghost predicate IsPending(d: Device, id: nat) {
    exists k :: 0 <= k < |d.pending| && d.pending[k].id == id
  }

  /** The event has not been sent or dropped yet. */
  ghost predicate CouldSend(d: Device, id: nat) {
    id >= d.nextId || IsPending(d, id)
  }

  ghost predicate NoneTwice(log: seq<Delivery>) {
    forall j, k :: 0 <= j < k < |log| ==> log[j].sent.id != log[k].sent.id
  }

  lemma {:induction false} AllSentMembers(es: seq<Event>, w: Sweep, k: nat) returns (e: Event)
    requires k < |AllSent(es, w)|
    ensures e in es && w.Deliver? && Takes(w, e)
    ensures AllSent(es, w)[k] == Delivery(e.file, Sent(e.id, e.target, w.sequence))
  {
    hide Takes;
    var here := if w.Deliver? && Takes(w, es[0]) then 1 else 0;
    if k < here {
      e := es[0];
    } else {
      e := AllSentMembers(es[1..], w, k - here);
    }
  }

  lemma {:induction false} AllSentHas(es: seq<Event>, w: Sweep, e: Event)
    requires w.Deliver? && e in es && Takes(w, e)
    ensures Delivery(e.file, Sent(e.id, e.target, w.sequence)) in AllSent(es, w)
  {
    hide Takes;
    if es[0] != e {
      AllSentHas(es[1..], w, e);
    }
  }

  lemma {:induction false} AllSentOnce(es: seq<Event>, w: Sweep)
    requires forall j, k :: 0 <= j < k < |es| ==> es[j].id != es[k].id
    ensures NoneTwice(AllSent(es, w))
  {
    hide Takes;
    if es != [] {
      assert forall j :: 0 <= j < |es[1..]| ==> es[1..][j] == es[j + 1];
      AllSentOnce(es[1..], w);
      var rest := AllSent(es[1..], w);
      forall k | 0 <= k < |rest|
        ensures rest[k].sent.id != es[0].id
      {
        var e := AllSentMembers(es[1..], w, k);
      }
    }
  }

  lemma SameId(d: Device, e: Event, f: Event)
    requires NewIds(d) && e in d.pending && f in d.pending && e.id == f.id
    ensures e == f
  {
  }

  lemma KeptPending(d: Device, w: Sweep, d': Device, id: nat)
    requires NewIds(d) && d'.pending == Kept(d.pending, w) && d'.nextId == d.nextId
    ensures CouldSend(d', id) ==> CouldSend(d, id)
  {
    KeptMembers(d.pending, w);
    hide Kept, Takes;
    if IsPending(d', id) {
      var k :| 0 <= k < |d'.pending| && d'.pending[k].id == id;
      assert d'.pending[k] in d.pending;
    }
  }

  lemma SentIsGone(d: Device, w: Sweep, d': Device, e: Event)
    requires NewIds(d) && d'.pending == Kept(d.pending, w) && d'.nextId == d.nextId && e in d.pending && Takes(w, e)
    ensures CouldSend(d, e.id) && !CouldSend(d', e.id)
  {
    KeptMembers(d.pending, w);
    hide Kept, Takes;
    if IsPending(d', e.id) {
      var k :| 0 <= k < |d'.pending| && d'.pending[k].id == e.id;
      SameId(d, e, d'.pending[k]);
      assert false;
    }
  }

  lemma IdsOf(d: Device)
    requires Inv(d)
    ensures NewIds(d) && forall j, k :: 0 <= j < k < |d.pending| ==> d.pending[j].id != d.pending[k].id
  {
  }

  /** One step sends no event twice, none that has been sent before, and none that can be sent again. */
  lemma StepSends(d: Device, a: Action)
    requires Inv(d) && Can(d, a)
    ensures NoneTwice(SentBy(d, a))
    ensures forall k :: 0 <= k < |SentBy(d, a)| ==>
              var id := SentBy(d, a)[k].sent.id; CouldSend(d, id) && !CouldSend(Step(d, a), id)
    ensures forall id: nat :: CouldSend(Step(d, a), id) ==> CouldSend(d, id)
  {
    hide Inv, Step, Can, CouldSend, Swept, Takes, AllSent, NewIds, NoneTwice;
    InvForm(d);
    IdsOf(d);
    if SweepOf(d, a).Some? {
      SweepIs(d, a);
      SweepSends(d, SweepOf(d, a).value);
      if a.Close? {
        NothingDiscarded(d.pending, a.file);
        NothingTwice();
      }
    } else {
      OtherSends(d, a);
    }
  }

  lemma NothingTwice()
    ensures NoneTwice([])
  {
  }

  lemma SweepSends(d: Device, w: Sweep)
    requires Inv(d) && LegalSweep(d, w)
    ensures NoneTwice(AllSent(d.pending, w))
    ensures forall k :: 0 <= k < |AllSent(d.pending, w)| ==>
              var id := AllSent(d.pending, w)[k].sent.id; CouldSend(d, id) && !CouldSend(Swept(d, w), id)
    ensures forall id: nat :: CouldSend(Swept(d, w), id) ==> CouldSend(d, id)
  {
    hide Inv, CouldSend, Swept, Takes, AllSent, NewIds, NoneTwice, LegalSweep;
    InvForm(d);
    SweepFile(d, w);
    IdsOf(d);
    SweptShape(d, w);
    AllSentOnce(d.pending, w);
    forall k | 0 <= k < |AllSent(d.pending, w)|
      ensures var id := AllSent(d.pending, w)[k].sent.id; CouldSend(d, id) && !CouldSend(Swept(d, w), id)
    {
      var e := AllSentMembers(d.pending, w, k);
      SentIsGone(d, w, Swept(d, w), e);
    }
    forall id: nat | CouldSend(Swept(d, w), id)
      ensures CouldSend(d, id)
    {
      KeptPending(d, w, Swept(d, w), id);
    }
  }

  /** Every other step keeps the list, or appends to it an event with a new id; what it sends at once is
      new, too. */
  lemma OtherSends(d: Device, a: Action)
    requires Inv(d) && Can(d, a) && SweepOf(d, a).None?
    ensures NoneTwice(SentBy(d, a))
    ensures forall k :: 0 <= k < |SentBy(d, a)| ==>
              var id := SentBy(d, a)[k].sent.id; CouldSend(d, id) && !CouldSend(Step(d, a), id)
    ensures forall id: nat :: CouldSend(Step(d, a), id) ==> CouldSend(d, id)
  {
    hide Inv, Step, Can, Reached, NewIds;
    InvForm(d);
    IdsOf(d);
    ListGrows(d, a);
    forall id: nat | CouldSend(Step(d, a), id)
      ensures CouldSend(d, id)
    {
      if id < d.nextId {
        var k :| 0 <= k < |Step(d, a).pending| && Step(d, a).pending[k].id == id;
        assert k < |d.pending| && d.pending[k].id == id;
      }
    }
    if SentBy(d, a) != [] {
      assert !IsPending(d, d.nextId) by { NewIsNew(d); }
    }
  }

  lemma NewIsNew(d: Device)
    requires NewIds(d)
    ensures !IsPending(d, d.nextId)
  {
  }

  lemma ListGrows(d: Device, a: Action)
    requires WellFormed(d) && Can(d, a) && SweepOf(d, a).None?
    ensures var d' := Step(d, a);
            && d.nextId <= d'.nextId <= d.nextId + 1 && |d.pending| <= |d'.pending| <= |d.pending| + 1
            && d'.pending[..|d.pending|] == d.pending
            && (|d'.pending| > |d.pending| ==> d'.pending[|d.pending|].id == d.nextId && d'.nextId == d.nextId + 1)
            && (SentBy(d, a) != [] ==>
                  |SentBy(d, a)| == 1 && SentBy(d, a)[0].sent.id == d.nextId < d'.nextId && d'.pending == d.pending)
  {
    hide Reached, GetRef, PutRef, Flush;
  }

  /** Over every run no event is sent twice, and none that was gone at its beginning. */
  lemma {:induction false} SentOnce(d: Device, run: seq<Action>)
    requires Inv(d) && LegalRun(d, run)
    ensures NoneTwice(Log(d, run))
    ensures forall k :: 0 <= k < |Log(d, run)| ==> CouldSend(d, Log(d, run)[k].sent.id)
    decreases |run|
  {
    hide Inv, Step, Can, CouldSend, SentBy;
    if run != [] {
      InvForm(d);
      StepKeepsInv(d, run[0]);
      StepSends(d, run[0]);
      SentOnce(Step(d, run[0]), run[1..]);
    }
  }

  // ---------------------------------------------------------------- after as many intervals

  /** The step counts an interval of CRTC c. */
  predicate Counts(d: Device, a: Action, c: nat) {
    (a == Irq(c, true) && c < |d.crtcs| && d.crtcs[c].enabled) || (a.OffBegin? && a.c == c && a.bump)
  }

  function Counted(d: Device, run: seq<Action>, c: nat): nat
    requires LegalRun(d, run)
    decreases |run|
  {
    if run == [] then 0
    else (if Counts(d, run[0], c) then 1 else 0) + Counted(Step(d, run[0]), run[1..], c)
  }

  /** While it has references a CRTC counts those intervals and no others. */
  lemma CountIs(d: Device, a: Action, c: nat)
    requires Inv(d) && Can(d, a) && c < |d.crtcs| && d.crtcs[c].refs > 0
    ensures c < |Step(d, a).crtcs|
    ensures Step(d, a).crtcs[c].count == (d.crtcs[c].count + if Counts(d, a, c) then 1 else 0) % U32
  {
    hide Inv, Swept, Step, Counts;
    InvForm(d);
    CountFits(d, c);
    if SweepOf(d, a).Some? {
      SweepIs(d, a);
      SweptShape(d, SweepOf(d, a).value);
      SweepCounts(d, a, c);
    } else {
      CountElsewhere(d, a, c);
    }
  }

  lemma SweepCounts(d: Device, a: Action, c: nat)
    requires WellFormed(d) && Can(d, a) && SweepOf(d, a).Some?
    ensures !Counts(d, a, c)
  {
  }

  lemma CountElsewhere(d: Device, a: Action, c: nat)
    requires WellFormed(d) && Can(d, a) && SweepOf(d, a).None?
    requires c < |d.crtcs| && d.crtcs[c].refs > 0 && d.crtcs[c].count < U32
    ensures c < |Step(d, a).crtcs|
    ensures Step(d, a).crtcs[c].count == (d.crtcs[c].count + if Counts(d, a, c) then 1 else 0) % U32
  {
    hide Reached, Flush;
  }

  lemma HasReference(d: Device, e: Event)
    requires Inv(d) && e in d.pending
    ensures e.pipe < |d.crtcs| && d.crtcs[e.pipe].refs > 0
  {
    hide SpaceBalance, AllWaiting, NewIds, FilesOpen, OnPipe;
    var k :| 0 <= k < |d.pending| && d.pending[k] == e;
    if OnPipe(d.pending, e.pipe) == 0 {
      NoneOnPipe(d.pending, e.pipe, k);
    }
    assert RefsBalance(d.crtcs, d.pending);
  }

  /** A pending event comes nearer by exactly the intervals that are counted. */
  lemma AheadIs(d: Device, a: Action, e: Event)
    requires Inv(d) && Can(d, a) && e in d.pending
    ensures e.pipe < |d.crtcs| && e.pipe < |Step(d, a).crtcs|
    ensures AheadOf(d, e) == AheadOf(Step(d, a), e) + if Counts(d, a, e.pipe) then 1 else 0
  {
    hide Inv, Step, Ahead, Minus;
    InvForm(d);
    HasReference(d, e);
    CountIs(d, a, e.pipe);
    CountFits(d, e.pipe);
    IsWaiting(d, e);
    if Counts(d, a, e.pipe) {
      NotThereYet(d, a, e);
      AheadAfterCount(d.crtcs[e.pipe].count, e.target);
    }
  }

  lemma NotThereYet(d: Device, a: Action, e: Event)
    requires Inv(d) && Can(d, a) && e in d.pending && e.pipe < |d.crtcs| && Counts(d, a, e.pipe)
    ensures d.crtcs[e.pipe].count != e.target && e.target < U32
  {
    hide SpaceBalance, RefsBalance, NewIds, FilesOpen, AllWaiting;
    IsWaiting(d, e);
    MinusSelf(e.target);
  }

  lemma {:induction false} CountsDown(d: Device, run: seq<Action>, e: Event)
    requires Inv(d) && LegalRun(d, run) && e in d.pending && LeavesAlone(d, run, e)
    ensures e.pipe < |d.crtcs| == |Run(d, run).crtcs|
    ensures || DeliveredOnTime(d, run, e)
            || (e in Run(d, run).pending && Waiting(Run(d, run), e)
                && Counted(d, run, e.pipe) + AheadOf(Run(d, run), e) == AheadOf(d, e))
    decreases |run|
  {
    hide Inv, Step, Can, OnTime, SwitchedOff, Waiting, Ahead, Counts;
    InvForm(d);
    PlaceOf(d, e);
    if run == [] {
      IsWaiting(d, e);
    } else {
      StepKeepsInv(d, run[0]);
      StepFate(d, run[0], e);
      AheadIs(d, run[0], e);
      var d1 := Step(d, run[0]);
      if e in d1.pending {
        CountsDown(d1, run[1..], e);
      } else {
        GoneOnTime(d, run[0], e, d1);
        RunKeepsInv(d1, run[1..]);
      }
    }
  }

  lemma OnTimeIsLogged(d: Device, a: Action, e: Event)
    requires Inv(d) && Can(d, a) && e in d.pending && e.pipe < |d.crtcs| && e.file < |Step(d, a).files|
    requires OnTime(d, a, e, Step(d, a))
    ensures Delivery(e.file, Sent(e.id, e.target, e.target)) in SentBy(d, a) && !CouldSend(Step(d, a), e.id)
  {
    hide Inv, Step, AllSent, Takes, CouldSend;
    InvForm(d);
    SweepFate(d, a, e);
    AllSentHas(d.pending, SweepOf(d, a).value, e);
    StepSends(d, a);
    var k :| 0 <= k < |SentBy(d, a)| && SentBy(d, a)[k] == Delivery(e.file, Sent(e.id, e.target, e.target));
    assert !CouldSend(Step(d, a), SentBy(d, a)[k].sent.id);
  }

  lemma {:induction false} DeliveryIsLogged(d: Device, run: seq<Action>, e: Event)
    requires Inv(d) && LegalRun(d, run) && e in d.pending && LeavesAlone(d, run, e) && DeliveredOnTime(d, run, e)
    ensures Delivery(e.file, Sent(e.id, e.target, e.target)) in Log(d, run) && !CouldSend(Run(d, run), e.id)
    decreases |run|
  {
    hide Inv, Step, Can, OnTime, SwitchedOff, SentBy, Ahead, CouldSend;
    InvForm(d);
    PlaceOf(d, e);
    StepKeepsInv(d, run[0]);
    StepFate(d, run[0], e);
    var d1 := Step(d, run[0]);
    if e in d1.pending {
      StillNotOnTime(d, run[0], e, d1);
      DeliveryIsLogged(d1, run[1..], e);
    } else {
      GoneOnTime(d, run[0], e, d1);
      OnTimeIsLogged(d, run[0], e);
      GoneForGood(d1, run[1..], e.id);
    }
  }

  lemma {:induction false} GoneForGood(d: Device, run: seq<Action>, id: nat)
    requires Inv(d) && LegalRun(d, run) && !CouldSend(d, id)
    ensures !CouldSend(Run(d, run), id)
    decreases |run|
  {
    hide Inv, Step, Can, CouldSend;
    if run != [] {
      InvForm(d);
      StepKeepsInv(d, run[0]);
      StepSends(d, run[0]);
      GoneForGood(Step(d, run[0]), run[1..], id);
    }
  }

  lemma StillNotOnTime(d: Device, a: Action, e: Event, d': Device)
    requires e.pipe < |d.crtcs| && e.file < |d'.files| && e in d'.pending
    ensures !OnTime(d, a, e, d')
  {
  }

  lemma PendingCouldSend(d: Device, e: Event)
    ensures e in d.pending ==> CouldSend(d, e.id)
  {
  }

  /** The log holds the event once, with its target as its sequence. */
  ghost predicate SentExactlyOnce(log: seq<Delivery>, e: Event) {
    exists k :: 0 <= k < |log| && log[k] == Delivery(e.file, Sent(e.id, e.target, e.target))
                && forall j :: 0 <= j < |log| && log[j].sent.id == e.id ==> j == k
  }

  lemma DeliveredOnce(d: Device, run: seq<Action>, e: Event)
    requires Inv(d) && LegalRun(d, run) && e in d.pending && LeavesAlone(d, run, e) && DeliveredOnTime(d, run, e)
    ensures e !in Run(d, run).pending && SentExactlyOnce(Log(d, run), e)
  {
    hide Inv, Step, Run, Log, LegalRun, LeavesAlone, DeliveredOnTime, CouldSend;
    DeliveryIsLogged(d, run, e);
    PendingCouldSend(Run(d, run), e);
    SentOnce(d, run);
    var log := Log(d, run);
    var k :| 0 <= k < |log| && log[k] == Delivery(e.file, Sent(e.id, e.target, e.target));
    assert forall j :: 0 <= j < |log| && log[j].sent.id == e.id ==> j == k;
  }

  /** The promise of the event interface.  A run that neither closes the file nor switches the CRTC off
      delivers an accepted event if it counts as many intervals as the event was ahead and ends outside
      the CRTC's interrupt; the event is sent once, to its file, with its target as its sequence. */
  lemma DeliveredExactlyOnce(d: Device, run: seq<Action>, e: Event)
    requires Inv(d) && LegalRun(d, run) && e in d.pending && LeavesAlone(d, run, e) && e.pipe < |d.crtcs|
    requires Counted(d, run, e.pipe) >= AheadOf(d, e)
    requires Run(d, run).handler != Some(e.pipe) && Run(d, run).off != Some(e.pipe)
    ensures e !in Run(d, run).pending && SentExactlyOnce(Log(d, run), e)
  {
    hide Inv, Step, Run, Log, LegalRun, LeavesAlone, DeliveredOnTime, Counted, SentExactlyOnce;
    CountsDown(d, run, e);
    assert DeliveredOnTime(d, run, e);
    DeliveredOnce(d, run, e);
  }
}
