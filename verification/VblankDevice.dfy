/** The vertical-blank entry points of drm_irq.c and the event queues of drm_fops.c as they update the
    device in place.  Each method is one or two of the atomic steps of VblankModel. */
module VblankDevice {
  import opened Lists
  import opened VblankModel
  import opened VblankRules
  import opened VblankSteps
  import opened VblankFate

  function SideBySide(refs: seq<int>, counts: seq<nat>, enabled: seq<bool>, inModeset: seq<nat>,
                      clients: seq<nat>, last: seq<nat>): seq<Crtc>
    requires |refs| == |counts| == |enabled| == |inModeset| == |clients| == |last|
  {
    seq(|refs|, c requires 0 <= c < |refs| =>
      Crtc(refs[c], counts[c], enabled[c], inModeset[c], clients[c], last[c]))
  }

  function TimerLeaves(c: Crtc, disableAllowed: bool, bump: bool, cur: nat): Crtc {
    if disableAllowed && c.refs == 0 && c.enabled then Disable(c, bump, cur) else c
  }

  // ---------------------------------------------------------------- a pass, position by position

  /** `k` events of the list have been passed over and the pass will end in `end`. */
  ghost predicate Passing(list: seq<Event>, crtcs: seq<Crtc>, files: seq<File>, k: nat, w: Sweep, end: Flushed) {
    && k <= |list| && InRange(list, |crtcs|, |files|)
    && MidRefs(crtcs, list[..k], list[k..])
    && Flush(Flushed(list[..k], crtcs, files), list[k..], w) == end
  }

  lemma Slice(list: seq<Event>, crtcs: nat, files: nat, k: nat)
    requires k <= |list| && InRange(list, crtcs, files)
    ensures InRange(list[k..], crtcs, files)
    ensures k < |list| ==> list[k..] != [] && list[k..][0] == list[k] && list[k..][1..] == list[k + 1..]
    ensures k < |list| ==> list[k].pipe < crtcs && list[k].file < files
  {
    assert forall j :: 0 <= j < |list[k..]| ==> list[k..][j] == list[k + j];
  }

  lemma PassStarts(d: Device, w: Sweep)
    requires InRange(d.pending, |d.crtcs|, |d.files|) && RefsBalance(d.crtcs, d.pending)
    ensures Passing(d.pending, d.crtcs, d.files, 0, w, Flush(Flushed([], d.crtcs, d.files), d.pending, w))
  {
    hide Flush, MidRefs, RefsBalance, InRange;
    assert d.pending[..0] == [] && d.pending[0..] == d.pending;
    BalancesStart(d.crtcs, d.files, d.pending, w);
  }

  lemma PassEnds(list: seq<Event>, crtcs: seq<Crtc>, files: seq<File>, w: Sweep, end: Flushed)
    requires Passing(list, crtcs, files, |list|, w, end)
    ensures end == Flushed(list, crtcs, files)
  {
    hide MidRefs, InRange;
    assert list[..|list|] == list && list[|list|..] == [];
  }

  lemma PassSkips(list: seq<Event>, crtcs: seq<Crtc>, files: seq<File>, k: nat, w: Sweep, end: Flushed)
    requires Passing(list, crtcs, files, k, w, end) && k < |list| && !Takes(w, list[k])
    ensures Passing(list, crtcs, files, k + 1, w, end)
  {
    hide MidRefs, InRange, Takes;
    Slice(list, |crtcs|, |files|, k);
    Slice(list, |crtcs|, |files|, k + 1);
    FlushOneRefs(Flushed(list[..k], crtcs, files), list[k..], w);
    assert list[..k] + [list[k]] == list[..k + 1];
  }

  /** The event at k leaves the list: its reference is there to be put. */
  lemma PassTakes(list: seq<Event>, crtcs: seq<Crtc>, files: seq<File>, k: nat, w: Sweep, end: Flushed)
    requires Passing(list, crtcs, files, k, w, end) && k < |list| && Takes(w, list[k])
    ensures list[k].pipe < |crtcs| && list[k].file < |files| && crtcs[list[k].pipe].refs > 0
    ensures var r := FlushOne(Flushed(list[..k], crtcs, files), list[k], w);
            Passing(list[..k] + list[k + 1..], r.crtcs, r.files, k, w, end)
  {
    hide MidRefs, InRange, Takes;
    Slice(list, |crtcs|, |files|, k);
    FlushOneRefs(Flushed(list[..k], crtcs, files), list[k..], w);
    var shorter := list[..k] + list[k + 1..];
    Cut(list, |crtcs|, |files|, k);
    assert shorter[..k] == list[..k] && shorter[k..] == list[k + 1..];
  }

  lemma Cut(list: seq<Event>, crtcs: nat, files: nat, k: nat)
    requires k < |list| && InRange(list, crtcs, files)
    ensures InRange(list[..k] + list[k + 1..], crtcs, files) && InRange(list[k + 1..], crtcs, files)
  {
  }

  class VblankState {
    const refcount: array<int>
    const count: array<nat>
    const enabled: array<bool>
    const inModeset: array<nat>
    const last: array<nat>
    const maxCount: nat
    var pending: seq<Event>
    var files: seq<File>
    var disableAllowed: bool
    var nextId: nat
    ghost var clients: seq<nat>

    ghost predicate Shape()
      reads this`clients
    {
      && refcount.Length == count.Length == enabled.Length == inModeset.Length == last.Length == |clients|
      && count != inModeset && count != last && inModeset != last
      && (refcount as object) !in {count as object, inModeset as object, last as object}
    }

    /** The arrays, read side by side. */
    ghost function Crtcs(): (r: seq<Crtc>)
      requires Shape()
      reads this`clients, refcount, count, enabled, inModeset, last
      ensures |r| == |clients| && forall c :: 0 <= c < |r| ==>
                r[c].refs == refcount[c] && r[c].count == count[c] && r[c].clients == clients[c]
                && r[c].enabled == enabled[c] && r[c].last == last[c]
    {
      SideBySide(refcount[..], count[..], enabled[..], inModeset[..], clients, last[..])
    }

    /** The device between two calls, with no lock held. */
    ghost function View(): Device
      requires Shape()
      reads this, refcount, count, enabled, inModeset, last
    {
      Device(Crtcs(), pending, files, None, None, disableAllowed, nextId, maxCount)
    }

    constructor (crtcs: nat, maxCount: nat)
      ensures Shape() && View() == InitialDevice(crtcs, maxCount)
      ensures fresh(refcount) && fresh(count) && fresh(enabled) && fresh(inModeset) && fresh(last)
    {
      refcount := new int[crtcs](_ => 0);
      count := new nat[crtcs](_ => 0);
      enabled := new bool[crtcs](_ => false);
      inModeset := new nat[crtcs](_ => 0);
      last := new nat[crtcs](_ => 0);
      this.maxCount := maxCount;
      pending, files, disableAllowed, nextId := [], [], false, 0;
      clients := seq(crtcs, _ => 0);
      new;
      assert Crtcs() == InitialDevice(crtcs, maxCount).crtcs;
    }

    // ---------------------------------------------------------------- the arrays

    method AddReference(c: nat, delta: int)
      requires Shape() && c < refcount.Length
      modifies refcount
      ensures Crtcs() == old(Crtcs())[c := old(Crtcs()[c]).(refs := old(refcount[c]) + delta)]
    {
      refcount[c] := refcount[c] + delta;
    }

    method AddCount(c: nat, delta: nat)
      requires Shape() && c < count.Length
      modifies count
      ensures Crtcs() == old(Crtcs())[c := old(Crtcs()[c]).(count := (old(count[c]) + delta) % U32)]
    {
      count[c] := (count[c] + delta) % U32;
    }

    method SetEnabled(c: nat, on: bool)
      requires Shape() && c < enabled.Length
      modifies enabled
      ensures Crtcs() == old(Crtcs())[c := old(Crtcs()[c]).(enabled := on)]
    {
      enabled[c] := on;
    }

    method SetLast(c: nat, cur: nat)
      requires Shape() && c < last.Length
      modifies last
      ensures Crtcs() == old(Crtcs())[c := old(Crtcs()[c]).(last := cur)]
    {
      last[c] := cur;
    }

    method SetInModeset(c: nat, value: nat)
      requires Shape() && c < inModeset.Length
      modifies inModeset
      ensures Crtcs() == old(Crtcs())[c := old(Crtcs()[c]).(inModeset := value)]
    {
      inModeset[c] := value;
    }

    ghost method SetClients(c: nat, value: nat)
      requires Shape() && c < |clients|
      modifies this`clients
      ensures clients == old(clients)[c := value]
      ensures Shape() && Crtcs() == old(Crtcs())[c := old(Crtcs()[c]).(clients := value)]
    {
      clients := clients[c := value];
    }

    // ---------------------------------------------------------------- references

    /** drm_vblank_get, when the hardware counter reads `cur`: the interrupt is enabled for the first user
        only.  A success leaves it on; a failure, which needs an interrupt that is off and cannot be or is
        not to be switched on, changes nothing.  Switching it on counts what was missed meanwhile. */
    method VblankGet(c: nat, enableFails: bool, cur: nat) returns (ok: bool)
      requires Shape() && c < refcount.Length && refcount[c] >= 0
      modifies refcount, count, enabled
      ensures ok ==> enabled[c] && refcount[c] == old(refcount[c]) + 1
      ensures !ok <==> !old(enabled[c]) && (enableFails || old(refcount[c]) > 0)
      ensures !ok ==> Crtcs() == old(Crtcs())
      ensures count[c] == if ok && !old(enabled[c]) then (old(count[c]) + Missed(cur, last[c], maxCount)) % U32
                          else old(count[c])
      ensures var (crtc, got) := GetRef(old(Crtcs()[c]), enableFails, cur, maxCount);
              ok == got && Crtcs() == old(Crtcs())[c := crtc]
    {
      AddReference(c, 1);
      ok := true;
      if refcount[c] == 1 {
        if !enabled[c] {
          if enableFails {
            AddReference(c, -1);
            ok := false;
          } else {
            SetEnabled(c, true);
            UpdateCount(c, cur);
          }
        }
      } else if !enabled[c] {
        AddReference(c, -1);
        ok := false;
      }
    }

    /** drm_update_vblank_count */
    method UpdateCount(c: nat, cur: nat)
      requires Shape() && c < count.Length
      modifies count
      ensures Crtcs() == old(Crtcs())[c := old(Crtcs()[c]).(
                           count := (old(count[c]) + Missed(cur, last[c], maxCount)) % U32)]
    {
      var diff := Minus(cur, last[c]);
      if cur < last[c] {
        diff := (diff + maxCount) % U32;
      }
      AddCount(c, diff);
    }

    /** drm_vblank_put, whose BUG_ON demands a reference. */
    method VblankPut(c: nat)
      requires Shape() && c < refcount.Length && refcount[c] != 0
      modifies refcount
      ensures Crtcs() == old(Crtcs())[c := PutRef(old(Crtcs()[c]))]
    {
      AddReference(c, -1);
    }

    /** A driver or a waiting ioctl takes a reference. */
    method Get(c: nat, enableFails: bool, cur: nat) returns (ok: bool)
      requires Shape() && Inv(View()) && c < refcount.Length
      modifies this`clients, refcount, count, enabled
      ensures Shape() && View() == Step(old(View()), Action.Get(c, enableFails, cur))
      ensures ok <==> clients[c] > old(clients[c])
    {
      hide Inv;
      HasReferences(View(), c);
      ok := VblankGet(c, enableFails, cur);
      if ok {
        SetClients(c, clients[c] + 1);
      }
    }

    /** ... and gives it up. */
    method Put(c: nat)
      requires Shape() && Inv(View()) && c < refcount.Length && clients[c] > 0
      modifies this`clients, refcount
      ensures Shape() && View() == Step(old(View()), Action.Put(c))
    {
      hide Inv;
      HasReferences(View(), c);
      GiveUp(c);
    }

    method PreModeset(c: nat, enableFails: bool, cur: nat)
      requires Shape() && Inv(View()) && c < refcount.Length
      modifies refcount, count, enabled, inModeset, last
      ensures View() == Step(old(View()), Action.PreModeset(c, enableFails, cur))
      ensures old(inModeset[c]) != 0 ==> Crtcs() == old(Crtcs())
      ensures old(inModeset[c]) == 0 ==> inModeset[c] == if refcount[c] == old(refcount[c]) then 1 else 3
      ensures old(inModeset[c]) == 0 ==>
                (inModeset[c] == 1 <==> !old(enabled[c]) && (enableFails || old(refcount[c]) > 0))
    {
      hide Inv;
      HasReferences(View(), c);
      if inModeset[c] == 0 {
        SetInModeset(c, 1);
        var ok := VblankGet(c, enableFails, cur);
        if ok {
          SetInModeset(c, 3);
        }
      }
    }

    method PostModeset(c: nat)
      requires Shape() && Inv(View()) && c < refcount.Length
      modifies this`disableAllowed, refcount, inModeset
      ensures View() == Step(old(View()), Action.PostModeset(c))
      ensures inModeset[c] == 0 && (old(inModeset[c]) != 0 ==> disableAllowed)
      ensures refcount[c] == old(refcount[c]) - if old(inModeset[c]) == 3 then 1 else 0
    {
      hide Inv;
      HasReferences(View(), c);
      if inModeset[c] != 0 {
        disableAllowed := true;
        if inModeset[c] == 3 {
          VblankPut(c);
        }
        SetInModeset(c, 0);
      }
    }

    // ---------------------------------------------------------------- interrupts

    /** vblank_disable_and_save; `bump`: a last interval is seen to have begun.  The hardware counter
        reads `cur`. */
    method DisableAndSave(c: nat, bump: bool, cur: nat)
      requires Shape() && c < refcount.Length
      modifies count, enabled, last
      ensures Crtcs() == old(Crtcs())[c := Disable(old(Crtcs()[c]), bump, cur)]
    {
      SetEnabled(c, false);
      SetLast(c, cur);
      AddCount(c, if bump then 1 else 0);
    }

    /** vblank_disable_fn: the timer switches off every interrupt nobody has a reference to, one CRTC
        after the other. */
    method DisableFn(bumps: seq<bool>, readings: seq<nat>)
      requires Shape() && |bumps| == |readings| == refcount.Length
      modifies count, enabled, last
      ensures forall c :: 0 <= c < |Crtcs()| ==>
                Crtcs()[c] == TimerLeaves(old(Crtcs()[c]), disableAllowed, bumps[c], readings[c])
      ensures forall c :: 0 <= c < |Crtcs()| ==>
                enabled[c] == (old(enabled[c]) && !(disableAllowed && refcount[c] == 0))
                && (enabled[c] != old(enabled[c]) ==> last[c] == readings[c])
    {
      if !disableAllowed {
        return;
      }
      var i := 0;
      while i < refcount.Length
        invariant i <= refcount.Length
        invariant forall c :: 0 <= c < i ==> Crtcs()[c] == TimerLeaves(old(Crtcs()[c]), true, bumps[c], readings[c])
        invariant forall c :: i <= c < refcount.Length ==> Crtcs()[c] == old(Crtcs()[c])
      {
        if refcount[i] == 0 && enabled[i] {
          DisableAndSave(i, bumps[i], readings[i]);
        }
        i := i + 1;
      }
    }

    /** The part of drm_irq_uninstall that switches the interrupts off. */
    method IrqUninstall(readings: seq<nat>)
      requires Shape() && WellFormed(View()) && |readings| == refcount.Length
      modifies enabled, last
      ensures View() == Step(old(View()), Action.IrqUninstall(readings))
    {
      hide Crtcs;
      ghost var d := View();
      var i := 0;
      while i < refcount.Length
        invariant i <= refcount.Length
        invariant forall c :: 0 <= c < i ==> Crtcs()[c] == d.crtcs[c].(enabled := false, last := readings[c])
        invariant forall c :: i <= c < refcount.Length ==> Crtcs()[c] == d.crtcs[c]
      {
        SetEnabled(i, false);
        SetLast(i, readings[i]);
        i := i + 1;
      }
      assert Crtcs() == Step(d, Action.IrqUninstall(readings)).crtcs;
    }

    /** send_vblank_event */
    method SendEvent(e: Event, sequence: nat)
      requires e.file < |files|
      modifies this`files
      ensures files == Send(old(files), e, sequence)
    {
      files := files[e.file := files[e.file].(queue := files[e.file].queue + [Sent(e.id, e.target, sequence)])];
    }

    /** The event at position k leaves the list. */
    method Unlink(k: nat)
      requires k < |pending|
      modifies this`pending
      ensures pending == old(pending[..k] + pending[k + 1..])
    {
      pending := pending[..k] + pending[k + 1..];
    }

    /** drm_handle_vblank_events: what is due on CRTC c is sent with the current count. */
    method HandleEvents(c: nat)
      requires Shape() && InRange(pending, |clients|, |files|) && RefsBalance(Crtcs(), pending) && c < |clients|
      modifies this`pending, this`files, refcount
      ensures Flushed(pending, Crtcs(), files)
              == Flush(Flushed([], old(Crtcs()), old(files)), old(pending), Deliver(c, false, old(count[c])))
    {
      hide Passing, Flush, RefsBalance, InRange, Crtcs;
      var sequence := count[c];
      ghost var w := Deliver(c, false, sequence);
      ghost var end := Flush(Flushed([], Crtcs(), files), pending, w);
      PassStarts(View(), w);
      var k := 0;
      while k < |pending|
        invariant k <= |pending| && Passing(pending, Crtcs(), files, k, w, end)
        decreases |pending| - k
      {
        var e := pending[k];
        if e.pipe != c || Minus(sequence, e.target) > WINDOW {
          PassSkips(pending, Crtcs(), files, k, w, end);
          k := k + 1;
        } else {
          PassTakes(pending, Crtcs(), files, k, w, end);
          Unlink(k);
          VblankPut(e.pipe);
          SendEvent(e, sequence);
        }
      }
      PassEnds(pending, Crtcs(), files, w, end);
    }

    /** drm_handle_vblank: `isNew` says that the timestamp differs from the last one stored. */
    method HandleVblank(c: nat, isNew: bool) returns (handled: bool)
      requires Shape() && Inv(View()) && c < refcount.Length
      modifies this`pending, this`files, refcount, count
      ensures handled == old(enabled[c])
      ensures count[c] == if handled && isNew then (old(count[c]) + 1) % U32 else old(count[c])
      ensures Shape() && View() == HandledVblank(old(View()), c, isNew)
    {
      hide Inv, RefsBalance, InRange, Flush, HandledVblank, Step, Crtcs;
      InvParts(View());
      CountFits(View(), c);
      HandledIs(View(), c, isNew);
      if !enabled[c] {
        return false;
      }
      IrqKeeps(View(), c, isNew);
      AddCount(c, if isNew then 1 else 0);
      HandleEvents(c);
      return true;
    }

    /** drm_vblank_off: the interrupt goes off and what is still queued for the CRTC is sent at once. */
    method VblankOff(c: nat, bump: bool, cur: nat)
      requires Shape() && Inv(View()) && c < refcount.Length
      modifies this`pending, this`files, refcount, count, enabled, last
      ensures Shape() && View() == SwitchedOffDevice(old(View()), c, bump, cur)
    {
      hide Inv, RefsBalance, InRange, Flush;
      InvParts(View());
      OffKeeps(View(), c, bump, cur);
      DisableAndSave(c, bump, cur);
      SendAll(c);
    }

    method SendAll(c: nat)
      requires Shape() && InRange(pending, |clients|, |files|) && RefsBalance(Crtcs(), pending) && c < |clients|
      modifies this`pending, this`files, refcount
      ensures Flushed(pending, Crtcs(), files)
              == Flush(Flushed([], old(Crtcs()), old(files)), old(pending), Deliver(c, true, old(count[c])))
    {
      hide Passing, Flush, RefsBalance, InRange, Crtcs;
      var sequence := count[c];
      ghost var w := Deliver(c, true, sequence);
      ghost var end := Flush(Flushed([], Crtcs(), files), pending, w);
      PassStarts(View(), w);
      var k := 0;
      while k < |pending|
        invariant k <= |pending| && Passing(pending, Crtcs(), files, k, w, end)
        decreases |pending| - k
      {
        var e := pending[k];
        if e.pipe != c {
          PassSkips(pending, Crtcs(), files, k, w, end);
          k := k + 1;
        } else {
          PassTakes(pending, Crtcs(), files, k, w, end);
          Unlink(k);
          VblankPut(e.pipe);
          SendEvent(e, sequence);
        }
      }
      PassEnds(pending, Crtcs(), files, w, end);
    }

    // ---------------------------------------------------------------- queueing

    /** The caller's reference is put. */
    method GiveUp(c: nat)
      requires Shape() && c < refcount.Length && refcount[c] != 0 && clients[c] > 0
      modifies this`clients, refcount
      ensures Shape()
      ensures Crtcs() == old(Crtcs())[c := PutRef(old(Crtcs()[c])).(clients := old(clients[c]) - 1)]
    {
      VblankPut(c);
      SetClients(c, clients[c] - 1);
    }

    /** The second half of drm_queue_vblank_event: the event is sent at once or waits for its count. */
    method Accept(c: nat, file: nat, target: nat)
      requires Shape() && c < refcount.Length && refcount[c] != 0 && clients[c] > 0 && file < |files|
      modifies this`pending, this`files, this`nextId, this`clients, refcount
      ensures Shape() && View() == Accepted(old(View()), c, file, target)
    {
      hide Reached, Crtcs;
      var sequence := count[c];
      var e := Event(nextId, c, target, file);
      nextId := nextId + 1;
      if Reached(sequence, target) {
        GiveUp(c);
        SendEvent(e, sequence);
      } else {
        SetClients(c, clients[c] - 1);
        pending := pending + [e];
      }
    }

    /** drm_queue_vblank_event, called with a reference that it gives up or hands to the event. */
    method QueueVblankEvent(c: nat, file: nat, request: nat, nextOnMiss: bool, noMemory: bool) returns (queued: bool)
      requires Shape() && Inv(View()) && Can(View(), Action.Queue(c, file, request, nextOnMiss))
      modifies this`pending, this`files, this`nextId, this`clients, refcount
      ensures queued == (!noMemory && old(files[file]).space >= EVENT_SIZE)
      ensures Shape()
      ensures View() == Step(old(View()),
                             if noMemory then QueueNoMemory(c) else Action.Queue(c, file, request, nextOnMiss))
    {
      hide Inv, Reached, Step, Crtcs, Accepted;
      InvParts(View());
      HasReferences(View(), c);
      QueueSteps(View(), c, file, request, nextOnMiss);
      if noMemory || files[file].space < EVENT_SIZE {
        GiveUp(c);
        return false;
      }
      Charge(file, EVENT_SIZE);
      var sequence := count[c];
      var target := request;
      if nextOnMiss && Reached(sequence, request) {
        target := (sequence + 1) % U32;
      }
      Accept(c, file, target);
      return true;
    }

    /** The file's budget shrinks by `size`, or grows if that is negative. */
    method Charge(file: nat, size: int)
      requires file < |files|
      modifies this`files
      ensures files == old(files)[file := old(files)[file].(space := old(files)[file].space - size)]
    {
      files := files[file := files[file].(space := files[file].space - size)];
    }

    // ---------------------------------------------------------------- files

    /** drm_open_helper */
    method OpenFile() returns (file: nat)
      requires Shape() && Inv(View())
      modifies this`files
      ensures file == |old(files)| && Shape() && View() == Step(old(View()), Action.Open)
    {
      file := |files|;
      files := files + [File(true, EVENT_SPACE, 0, [])];
    }

    /** drm_events_release: the closing file's pending events are dropped with their references, and
        its unread ones with them. */
    method EventsRelease(file: nat)
      requires Shape() && Inv(View()) && Can(View(), Action.Close(file))
      modifies this`pending, this`files, refcount
      ensures Shape() && View() == Step(old(View()), Action.Close(file))
    {
      hide Inv, RefsBalance, InRange, Flush;
      InvParts(View());
      DropAll(file);
      files := files[file := File(false, 0, 0, [])];
    }

    method DropAll(file: nat)
      requires Shape() && InRange(pending, |clients|, |files|) && RefsBalance(Crtcs(), pending)
      modifies this`pending, refcount
      ensures Flushed(pending, Crtcs(), files) == Flush(Flushed([], old(Crtcs()), files), old(pending), Discard(file))
    {
      hide Passing, Flush, RefsBalance, InRange, Crtcs;
      ghost var w := Discard(file);
      ghost var end := Flush(Flushed([], Crtcs(), files), pending, w);
      PassStarts(View(), w);
      var k := 0;
      while k < |pending|
        invariant k <= |pending| && Passing(pending, Crtcs(), files, k, w, end)
        decreases |pending| - k
      {
        var e := pending[k];
        if e.file != file {
          PassSkips(pending, Crtcs(), files, k, w, end);
          k := k + 1;
        } else {
          PassTakes(pending, Crtcs(), files, k, w, end);
          Unlink(k);
          VblankPut(e.pipe);
        }
      }
      PassEnds(pending, Crtcs(), files, w, end);
    }

    /** drm_dequeue_event, for a reader with `room` bytes left. */
    method DequeueEvent(file: nat, room: int) returns (e: Option<Sent>)
      requires Shape() && Inv(View()) && Can(View(), Action.Read(file))
      modifies this`files
      ensures e == if old(files[file]).queue == [] || room < EVENT_SIZE then None else Some(old(files[file]).queue[0])
      ensures Shape() && View() == if e.None? then old(View()) else Step(old(View()), Action.Read(file))
    {
      hide Inv;
      if files[file].queue == [] || EVENT_SIZE > room {
        return None;
      }
      e := Some(files[file].queue[0]);
      Charge(file, -EVENT_SIZE);
      files := files[file := files[file].(queue := files[file].queue[1..])];
    }

    /** The event space of drm_mode_page_flip_ioctl: reserved, and given back when the allocation or
        the driver's flip fails. */
    method PageFlip(file: nat, noMemory: bool, flipFails: bool) returns (ok: bool)
      requires Shape() && Inv(View()) && Can(View(), FlipReserve(file))
      modifies this`files
      ensures ok == (old(files[file]).space >= EVENT_SIZE && !noMemory && !flipFails)
      ensures Shape() && View() == if ok then Step(old(View()), FlipReserve(file)) else old(View())
    {
      hide Inv;
      if files[file].space < EVENT_SIZE {
        return false;
      }
      Charge(file, EVENT_SIZE);
      if noMemory || flipFails {
        Charge(file, -EVENT_SIZE);
        assert files == old(files);
        return false;
      }
      files := files[file := files[file].(flips := files[file].flips + 1)];
      return true;
    }
  }

  /** One interrupt, counted and delivered. */
  ghost function HandledVblank(d: Device, c: nat, isNew: bool): Device
    requires Inv(d) && d.handler.None? && c < |d.crtcs|
  {
    if !d.crtcs[c].enabled then d
    else
      StepKeepsInv(d, Irq(c, isNew));
      Step(Step(d, Irq(c, isNew)), DeliverEvents)
  }

  lemma HandledIs(d: Device, c: nat, isNew: bool)
    requires Inv(d) && d.handler.None? && c < |d.crtcs|
    ensures !d.crtcs[c].enabled ==> HandledVblank(d, c, isNew) == d
    ensures d.crtcs[c].enabled ==>
              var count := (d.crtcs[c].count + if isNew then 1 else 0) % U32;
              var crtcs := d.crtcs[c := d.crtcs[c].(count := count)];
              && InRange(d.pending, |crtcs|, |d.files|)
              && var r := Flush(Flushed([], crtcs, d.files), d.pending, Deliver(c, false, count));
                 HandledVblank(d, c, isNew) == d.(pending := r.kept, crtcs := r.crtcs, files := r.files)
  {
    hide Inv, Flush;
    InvForm(d);
  }

  ghost function SwitchedOffDevice(d: Device, c: nat, bump: bool, cur: nat): Device
    requires Inv(d) && d.handler.None? && d.off.None? && c < |d.crtcs|
  {
    StepKeepsInv(d, OffBegin(c, bump, cur));
    Step(Step(d, OffBegin(c, bump, cur)), OffEnd)
  }

  lemma IrqKeeps(d: Device, c: nat, isNew: bool)
    requires Inv(d) && d.handler.None? && c < |d.crtcs| && d.crtcs[c].enabled
    ensures var count := (d.crtcs[c].count + if isNew then 1 else 0) % U32;
            InRange(d.pending, |d.crtcs|, |d.files|)
            && RefsBalance(d.crtcs[c := d.crtcs[c].(count := count)], d.pending)
  {
    hide SpaceBalance, AllWaiting, NewIds, FilesOpen, OnPipe;
    assert RefsBalance(d.crtcs, d.pending);
  }

  lemma OffKeeps(d: Device, c: nat, bump: bool, cur: nat)
    requires Inv(d) && d.handler.None? && d.off.None? && c < |d.crtcs|
    ensures var d' := Step(d, OffBegin(c, bump, cur));
            InRange(d'.pending, |d'.crtcs|, |d'.files|) && RefsBalance(d'.crtcs, d'.pending)
  {
    hide SpaceBalance, AllWaiting, NewIds, FilesOpen, Step;
    StepKeepsInv(d, OffBegin(c, bump, cur));
  }

  lemma InvParts(d: Device)
    requires Inv(d)
    ensures WellFormed(d) && RefsBalance(d.crtcs, d.pending)
  {
  }

  /** The event goes to the file's queue or to the pending list. */
  function Accepted(d: Device, c: nat, file: nat, target: nat): Device
    requires c < |d.crtcs| && file < |d.files| && d.crtcs[c].clients > 0
  {
    var crtc := d.crtcs[c];
    var e := Event(d.nextId, c, target, file);
    if Reached(crtc.count, target) then
      d.(crtcs := d.crtcs[c := PutRef(crtc).(clients := crtc.clients - 1)],
         files := Send(d.files, e, crtc.count), nextId := d.nextId + 1)
    else
      d.(crtcs := d.crtcs[c := crtc.(clients := crtc.clients - 1)],
         pending := d.pending + [e], nextId := d.nextId + 1)
  }

  lemma QueueSteps(d: Device, c: nat, file: nat, request: nat, nextOnMiss: bool)
    requires WellFormed(d) && Can(d, Queue(c, file, request, nextOnMiss))
    ensures Step(d, Queue(c, file, request, nextOnMiss)) ==
              var crtc, f := d.crtcs[c], d.files[file];
              if f.space < EVENT_SIZE then d.(crtcs := d.crtcs[c := PutRef(crtc).(clients := crtc.clients - 1)])
              else Accepted(d.(files := d.files[file := f.(space := f.space - EVENT_SIZE)]), c, file,
                            if nextOnMiss && Reached(crtc.count, request) then (crtc.count + 1) % U32 else request)
    ensures Step(d, QueueNoMemory(c))
            == d.(crtcs := d.crtcs[c := PutRef(d.crtcs[c]).(clients := d.crtcs[c].clients - 1)])
  {
    hide Reached;
  }

  /** Who holds a reference finds the count above zero. */
  lemma HasReferences(d: Device, c: nat)
    requires Inv(d) && c < |d.crtcs|
    ensures d.crtcs[c].refs >= d.crtcs[c].clients + ModesetRef(d.crtcs[c]) && d.crtcs[c].inModeset in {0, 1, 3}
  {
    hide SpaceBalance, AllWaiting, NewIds, FilesOpen, OnPipe;
    assert RefsBalance(d.crtcs, d.pending);
  }
}
