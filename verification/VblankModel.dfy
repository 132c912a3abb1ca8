/** The vertical-blank machinery of one device as a value, and its atomic steps: one step for each
    section under vbl_lock, vblank_time_lock or event_lock. */
module VblankModel {
  import opened Lists

  const U32 := 0x1_0000_0000
  const WINDOW := 0x80_0000
  const EVENT_SIZE := 32
  const EVENT_SPACE := 4096

  /** a - b in unsigned 32-bit arithmetic */
  function Minus(a: nat, b: nat): (d: nat)
    ensures d < U32
  {
    (a - b) % U32
  }

  /** The target counts as reached. */
  predicate Reached(count: nat, target: nat) {
    Minus(count, target) <= WINDOW
  }

  /** `refs` is vblank_refcount; `clients` says how many of them belong to sleeping ioctls and to the
      driver.  inModeset: 0 outside, 1 inside without a reference, 3 inside with one.  `last` is the
      reading of the hardware counter when the interrupt was last switched off. */
  datatype Crtc = Crtc(refs: int, count: nat, enabled: bool, inModeset: nat, clients: nat, last: nat)

  /** A queued event; `id` names its allocation. */
  datatype Event = Event(id: nat, pipe: nat, target: nat, file: nat)

  /** An event on a file's list, waiting to be read. */
  datatype Sent = Sent(id: nat, target: nat, sequence: nat)

  /** `flips` counts page-flip events that have been reserved and are still in flight. */
  datatype File = File(open: bool, space: int, flips: nat, queue: seq<Sent>)

  /** `handler`: the CRTC whose interrupt has counted and still has to deliver (vblank_time_lock is
      held); `off`: the CRTC that is disabled and whose events still have to be sent (vbl_lock is
      held). */
  datatype Device = Device(crtcs: seq<Crtc>, pending: seq<Event>, files: seq<File>, handler: Option<nat>,
                           off: Option<nat>, disableAllowed: bool, nextId: nat, maxCount: nat)

  // ---------------------------------------------------------------- references

  /** The intervals drm_update_vblank_count takes to be missed between two readings of the hardware
      counter, in unsigned 32-bit arithmetic. */
  function Missed(cur: nat, last: nat, maxCount: nat): nat {
    if cur < last then (Minus(cur, last) + maxCount) % U32 else Minus(cur, last)
  }

  /** drm_vblank_get, when the hardware counter reads `cur` */
  function GetRef(c: Crtc, enableFails: bool, cur: nat, maxCount: nat): (Crtc, bool) {
    if c.refs + 1 == 1 then
      if c.enabled then (c.(refs := 1), true)
      else if enableFails then (c, false)
      else (c.(refs := 1, enabled := true, count := (c.count + Missed(cur, c.last, maxCount)) % U32), true)
    else if !c.enabled then (c, false)
    else (c.(refs := c.refs + 1), true)
  }

  /** drm_vblank_put, on a CRTC whose count must not be 0 */
  function PutRef(c: Crtc): Crtc {
    c.(refs := c.refs - 1)
  }

  /** vblank_disable_and_save: the last interval may be accounted for here. */
  function Disable(c: Crtc, bump: bool, cur: nat): Crtc {
    c.(enabled := false, last := cur, count := (c.count + if bump then 1 else 0) % U32)
  }

  // ---------------------------------------------------------------- delivering

  /** A pass over vblank_event_list: what stays on it, and what sending the others does. */
  datatype Flushed = Flushed(kept: seq<Event>, crtcs: seq<Crtc>, files: seq<File>)

  function Send(files: seq<File>, e: Event, sequence: nat): seq<File>
    requires e.file < |files|
  {
    files[e.file := files[e.file].(queue := files[e.file].queue + [Sent(e.id, e.target, sequence)])]
  }

  /** Who is taken off the list: the events of one CRTC that are due (or all of them), which are sent,
      or those of a closing file, which are dropped. */
  datatype Sweep = Deliver(pipe: nat, all: bool, sequence: nat) | Discard(file: nat)

  predicate Takes(w: Sweep, e: Event) {
    match w
    case Deliver(pipe, all, sequence) => e.pipe == pipe && (all || Reached(sequence, e.target))
    case Discard(file) => e.file == file
  }

  function FlushOne(r: Flushed, e: Event, w: Sweep): Flushed
    requires e.pipe < |r.crtcs| && e.file < |r.files|
  {
    if Takes(w, e) then
      Flushed(r.kept, r.crtcs[e.pipe := PutRef(r.crtcs[e.pipe])],
              if w.Deliver? then Send(r.files, e, w.sequence) else r.files)
    else
      r.(kept := r.kept + [e])
  }

  ghost predicate InRange(es: seq<Event>, crtcs: nat, files: nat) {
    forall k :: 0 <= k < |es| ==> es[k].pipe < crtcs && es[k].file < files
  }

  /** The events of es in list order: drm_handle_vblank_events, drm_vblank_off, drm_events_release. */
  function Flush(r: Flushed, es: seq<Event>, w: Sweep): (r': Flushed)
    requires InRange(es, |r.crtcs|, |r.files|)
    ensures |r'.crtcs| == |r.crtcs| && |r'.files| == |r.files|
    decreases |es|
  {
    if es == [] then r
    else
      assert forall k :: 0 <= k < |es[1..]| ==> es[1..][k] == es[k + 1];
      Flush(FlushOne(r, es[0], w), es[1..], w)
  }

  function FlushDevice(d: Device, w: Sweep): Device
    requires InRange(d.pending, |d.crtcs|, |d.files|)
  {
    var r := Flush(Flushed([], d.crtcs, d.files), d.pending, w);
    d.(pending := r.kept, crtcs := r.crtcs, files := r.files)
  }

  // ---------------------------------------------------------------- queueing

  /** The decisive section of drm_queue_vblank_event, for a caller that holds a reference. */
  function QueueEvent(d: Device, c: nat, file: nat, request: nat, nextOnMiss: bool): Device
    requires c < |d.crtcs| && file < |d.files| && d.crtcs[c].clients > 0
  {
    var crtc, f := d.crtcs[c], d.files[file];
    if f.space < EVENT_SIZE then
      d.(crtcs := d.crtcs[c := PutRef(crtc).(clients := crtc.clients - 1)])
    else
      var target := if nextOnMiss && Reached(crtc.count, request) then (crtc.count + 1) % U32 else request;
      var e := Event(d.nextId, c, target, file);
      var files := d.files[file := f.(space := f.space - EVENT_SIZE)];
      if Reached(crtc.count, target) then
        d.(crtcs := d.crtcs[c := PutRef(crtc).(clients := crtc.clients - 1)],
           files := Send(files, e, crtc.count), nextId := d.nextId + 1)
      else
        d.(crtcs := d.crtcs[c := crtc.(clients := crtc.clients - 1)],
           files := files, pending := d.pending + [e], nextId := d.nextId + 1)
  }

  // ---------------------------------------------------------------- steps

  datatype Action =
    | Get(c: nat, enableFails: bool, cur: nat)
    | Put(c: nat)
    | PreModeset(c: nat, enableFails: bool, cur: nat)
    | PostModeset(c: nat)
    | DisableTimer(c: nat, bump: bool, cur: nat)
    | OffBegin(c: nat, bump: bool, cur: nat)
    | OffEnd
    | IrqUninstall(readings: seq<nat>)
    | Irq(c: nat, isNew: bool)
    | DeliverEvents
    | Queue(c: nat, file: nat, request: nat, nextOnMiss: bool)
    | QueueNoMemory(c: nat)
    | FlipReserve(file: nat)
    | FlipAbort(file: nat)
    | FlipDone(file: nat, sequence: nat)
    | Open
    | Close(file: nat)
    | Read(file: nat)

  predicate IsOpen(d: Device, file: nat) {
    file < |d.files| && d.files[file].open
  }

  /** The locks are free, and the caller owns what it gives up. */
  predicate Can(d: Device, a: Action) {
    match a
    case Get(c, _, _) => c < |d.crtcs| && d.off.None? && (d.crtcs[c].refs == 0 ==> d.handler.None?)
    case Put(c) => c < |d.crtcs| && d.crtcs[c].clients > 0
    case PreModeset(c, _, _) => c < |d.crtcs| && d.off.None? && (d.crtcs[c].refs == 0 ==> d.handler.None?)
    case PostModeset(c) => c < |d.crtcs| && d.off.None?
    case DisableTimer(c, _, _) => c < |d.crtcs| && d.off.None? && d.handler.None?
    case OffBegin(c, _, _) => c < |d.crtcs| && d.off.None? && d.handler.None?
    case OffEnd => d.off.Some?
    case IrqUninstall(readings) => d.off.None? && |readings| == |d.crtcs|
    case Irq(c, _) => c < |d.crtcs| && d.handler.None?
    case DeliverEvents => d.handler.Some?
    case Queue(c, file, request, _) =>
      c < |d.crtcs| && d.crtcs[c].clients > 0 && IsOpen(d, file) && request < U32
    case QueueNoMemory(c) => c < |d.crtcs| && d.crtcs[c].clients > 0
    case FlipReserve(file) => IsOpen(d, file)
    case FlipAbort(file) => IsOpen(d, file) && d.files[file].flips > 0
    case FlipDone(file, _) => IsOpen(d, file) && d.files[file].flips > 0
    case Open => true
    case Close(file) => IsOpen(d, file)
    case Read(file) => IsOpen(d, file)
  }

  ghost predicate WellFormed(d: Device) {
    && InRange(d.pending, |d.crtcs|, |d.files|)
    && (d.handler.Some? ==> d.handler.value < |d.crtcs|)
    && (d.off.Some? ==> d.off.value < |d.crtcs|)
  }

  function Step(d: Device, a: Action): Device
    requires WellFormed(d) && Can(d, a)
  {
    match a
    case Get(c, fails, cur) =>
      var (crtc, ok) := GetRef(d.crtcs[c], fails, cur, d.maxCount);
      d.(crtcs := d.crtcs[c := if ok then crtc.(clients := crtc.clients + 1) else crtc])
    case Put(c) => d.(crtcs := d.crtcs[c := PutRef(d.crtcs[c]).(clients := d.crtcs[c].clients - 1)])
    case PreModeset(c, fails, cur) =>
      if d.crtcs[c].inModeset != 0 then d
      else
        var (crtc, ok) := GetRef(d.crtcs[c], fails, cur, d.maxCount);
        d.(crtcs := d.crtcs[c := crtc.(inModeset := if ok then 3 else 1)])
    case PostModeset(c) =>
      if d.crtcs[c].inModeset == 0 then d
      else
        var crtc := if d.crtcs[c].inModeset == 3 then PutRef(d.crtcs[c]) else d.crtcs[c];
        d.(crtcs := d.crtcs[c := crtc.(inModeset := 0)], disableAllowed := true)
    case DisableTimer(c, bump, cur) =>
      if d.disableAllowed && d.crtcs[c].refs == 0 && d.crtcs[c].enabled then
        d.(crtcs := d.crtcs[c := Disable(d.crtcs[c], bump, cur)])
      else d
    case OffBegin(c, bump, cur) => d.(crtcs := d.crtcs[c := Disable(d.crtcs[c], bump, cur)], off := Some(c))
    case OffEnd => FlushDevice(d, Deliver(d.off.value, true, d.crtcs[d.off.value].count)).(off := None)
    case IrqUninstall(readings) =>
      d.(crtcs := seq(|d.crtcs|, k requires 0 <= k < |d.crtcs| == |readings| =>
                                   d.crtcs[k].(enabled := false, last := readings[k])))
    case Irq(c, isNew) =>
      if !d.crtcs[c].enabled then d
      else d.(crtcs := d.crtcs[c := d.crtcs[c].(count := (d.crtcs[c].count + if isNew then 1 else 0) % U32)],
              handler := Some(c))
    case DeliverEvents =>
      FlushDevice(d, Deliver(d.handler.value, false, d.crtcs[d.handler.value].count)).(handler := None)
    case Queue(c, file, request, nextOnMiss) => QueueEvent(d, c, file, request, nextOnMiss)
    case QueueNoMemory(c) => d.(crtcs := d.crtcs[c := PutRef(d.crtcs[c]).(clients := d.crtcs[c].clients - 1)])
    case FlipReserve(file) =>
      var f := d.files[file];
      if f.space < EVENT_SIZE then d
      else d.(files := d.files[file := f.(space := f.space - EVENT_SIZE, flips := f.flips + 1)])
    case FlipAbort(file) =>
      var f := d.files[file];
      d.(files := d.files[file := f.(space := f.space + EVENT_SIZE, flips := f.flips - 1)])
    case FlipDone(file, sequence) =>
      var f := d.files[file];
      d.(files := d.files[file := f.(flips := f.flips - 1, queue := f.queue + [Sent(d.nextId, sequence, sequence)])],
         nextId := d.nextId + 1)
    case Open => d.(files := d.files + [File(true, EVENT_SPACE, 0, [])])
    case Close(file) =>
      var d' := FlushDevice(d, Discard(file));
      d'.(files := d'.files[file := File(false, 0, 0, [])])
    case Read(file) =>
      var f := d.files[file];
      if f.queue == [] then d
      else d.(files := d.files[file := f.(space := f.space + EVENT_SIZE, queue := f.queue[1..])])
  }
}
