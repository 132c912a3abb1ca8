/** The vblank timestamp ring of drm_irq.c: a writer that fills a slot word by word and then commits it
    by counting, and a reader that takes no lock.  All memory is sequentially consistent. */
module TimestampRing {
  import opened Arithmetic

  const COUNTS := 0x1_0000_0000

  datatype Stamp = Stamp(sec: int, usec: int)

  /** drm_handle_vblank between its stores; the stamp is the one being stored. */
  datatype Writer = Resting | WroteSec(stamp: Stamp) | WroteBoth(stamp: Stamp)

  /** drm_vblank_count_and_time between its loads; `start` is the true count when `cur` was read. */
  datatype Reader =
    | Begin
    | ReadCount(start: nat)
    | ReadSec(start: nat, sec: int)
    | ReadBoth(start: nat, sec: int, usec: int)
    | Returned(start: nat, count: nat, stamp: Stamp)

  /** `count` is the number of commits, of which the 32-bit counter shows the remainder; `history[k]`
      is the stamp stored for count k. */
  datatype Ring = Ring(slots: seq<Stamp>, count: nat, history: seq<Stamp>, writer: Writer, reader: Reader)

  datatype Action = StoreSec(stamp: Stamp) | StoreUsec | Commit | LoadCount | LoadSec | LoadUsec | LoadAgain | Forget

  function Counter(count: nat): nat {
    count % COUNTS
  }

  /** vblanktimestamp(dev, crtc, count) */
  function Slot(count: nat, size: nat): (s: nat)
    requires size > 0
    ensures s < size
  {
    Counter(count) % size
  }

  /** A read must not be delayed by a whole period of the 32-bit counter. */
  predicate Can(r: Ring, a: Action) {
    match a
    case StoreSec(_) => r.writer.Resting?
    case StoreUsec => r.writer.WroteSec?
    case Commit => r.writer.WroteBoth?
    case LoadCount => r.reader.Begin?
    case LoadSec => r.reader.ReadCount?
    case LoadUsec => r.reader.ReadSec?
    case LoadAgain => r.reader.ReadBoth? && r.count < r.reader.start + COUNTS
    case Forget => r.reader.Returned?
  }

  function Step(r: Ring, a: Action): Ring
    requires r.slots != [] && Can(r, a)
  {
    var size := |r.slots|;
    match a
    case StoreSec(stamp) =>
      var s := Slot(r.count + 1, size);
      r.(slots := r.slots[s := Stamp(stamp.sec, r.slots[s].usec)], writer := WroteSec(stamp))
    case StoreUsec =>
      var s := Slot(r.count + 1, size);
      r.(slots := r.slots[s := Stamp(r.slots[s].sec, r.writer.stamp.usec)], writer := WroteBoth(r.writer.stamp))
    case Commit => r.(count := r.count + 1, history := r.history + [r.writer.stamp], writer := Resting)
    case LoadCount => r.(reader := ReadCount(r.count))
    case LoadSec => r.(reader := ReadSec(r.reader.start, r.slots[Slot(r.reader.start, size)].sec))
    case LoadUsec => r.(reader := ReadBoth(r.reader.start, r.reader.sec, r.slots[Slot(r.reader.start, size)].usec))
    case LoadAgain =>
      if Counter(r.count) == Counter(r.reader.start) then
        r.(reader := Returned(r.reader.start, Counter(r.reader.start), Stamp(r.reader.sec, r.reader.usec)))
      else
        r.(reader := Begin)
    case Forget => r.(reader := Begin)
  }

  ghost predicate Legal(r: Ring, run: seq<Action>)
    decreases |run|
  {
    run == [] || (r.slots != [] && Can(r, run[0]) && Legal(Step(r, run[0]), run[1..]))
  }

  function Run(r: Ring, run: seq<Action>): Ring
    requires Legal(r, run)
    decreases |run|
  {
    if run == [] then r else Run(Step(r, run[0]), run[1..])
  }

  /** A ring with all slots holding the stamp of count 0. */
  function Init(size: nat, stamp: Stamp): Ring {
    Ring(seq(size, _ => stamp), 0, [stamp], Resting, Begin)
  }

  /** What the reader returns is the stamp stored for exactly the count it returns, and that count was
      current while it read. */
  ghost predicate Matching(r: Ring) {
    r.reader.Returned? ==>
      && r.reader.start < |r.history| && r.reader.count == Counter(r.reader.start)
      && r.reader.stamp == r.history[r.reader.start]
  }

  // ---------------------------------------------------------------- two slots or more

  /** The writer never touches the slot of the current count. */
  lemma NextSlotDiffers(count: nat, size: nat)
    requires size >= 2 && COUNTS % size == 0
    ensures Slot(count + 1, size) != Slot(count, size)
  {
    var c := Counter(count);
    if c + 1 < COUNTS {
      assert Counter(count + 1) == c + 1;
      SuccessorMod(c, size);
    } else {
      assert c == COUNTS - 1 && Counter(count + 1) == 0;
      SuccessorMod(c, size);
    }
  }

  lemma SuccessorMod(c: nat, size: nat)
    requires size >= 2
    ensures (c + 1) % size != c % size
  {
    var q, m := c / size, c % size;
    if m + 1 < size {
      RemainderIs(c + 1, size, q, m + 1);
    } else {
      assert size * (q + 1) == size * q + size;
      RemainderIs(c + 1, size, q + 1, 0);
    }
  }

  ghost predicate Inv(r: Ring) {
    && |r.slots| >= 2 && COUNTS % |r.slots| == 0
    && |r.history| == r.count + 1
    && r.slots[Slot(r.count, |r.slots|)] == r.history[r.count]
    && (r.writer.WroteSec? ==> r.slots[Slot(r.count + 1, |r.slots|)].sec == r.writer.stamp.sec)
    && (r.writer.WroteBoth? ==> r.slots[Slot(r.count + 1, |r.slots|)] == r.writer.stamp)
    && ReaderInv(r)
  }

  /** Whatever was loaded while the count stood still belongs to it. */
  ghost predicate ReaderInv(r: Ring)
    requires |r.history| == r.count + 1
  {
    && Matching(r)
    && (!r.reader.Begin? ==> r.reader.start <= r.count)
    && (r.reader.ReadSec? && r.reader.start == r.count ==> r.reader.sec == r.history[r.count].sec)
    && (r.reader.ReadBoth? && r.reader.start == r.count ==> Stamp(r.reader.sec, r.reader.usec) == r.history[r.count])
  }

  lemma StepKeepsInv(r: Ring, a: Action)
    requires Inv(r) && Can(r, a)
    ensures Inv(Step(r, a))
  {
    hide Slot;
    NextSlotDiffers(r.count, |r.slots|);
    if a.LoadAgain? && Counter(r.reader.start) == Counter(r.count) {
      SameCounter(r.reader.start, r.count);
    }
  }

  lemma SameCounter(a: nat, b: nat)
    requires a <= b < a + COUNTS && Counter(a) == Counter(b)
    ensures a == b
  {
  }

  /** The lock-free reader returns matching pairs: over every interleaving with any number of
      interrupts. */
  lemma {:induction false} ReaderMatches(r: Ring, run: seq<Action>)
    requires Inv(r) && Legal(r, run)
    ensures Inv(Run(r, run)) && Matching(Run(r, run))
    decreases |run|
  {
    hide Step, Can, Slot;
    if run != [] {
      StepKeepsInv(r, run[0]);
      ReaderMatches(Step(r, run[0]), run[1..]);
    }
  }

  // ---------------------------------------------------------------- one slot

  /** With one slot the reader can return half of the next stamp under the old count. */
  lemma OneSlotTears(before: Stamp, after: Stamp)
    requires before.sec != after.sec
    ensures var run := [LoadCount, StoreSec(after), LoadSec, LoadUsec, LoadAgain];
            Legal(Init(1, before), run) && !Matching(Run(Init(1, before), run))
  {
    var r0 := Init(1, before);
    var r1 := Step(r0, LoadCount);
    var r2 := Step(r1, StoreSec(after));
    var r3 := Step(r2, LoadSec);
    var r4 := Step(r3, LoadUsec);
    var r5 := Step(r4, LoadAgain);
    var run := [LoadCount, StoreSec(after), LoadSec, LoadUsec, LoadAgain];
    Unfold(r0, run);
    Unfold(r1, run[1..]);
    Unfold(r2, run[2..]);
    Unfold(r3, run[3..]);
    Unfold(r4, run[4..]);
  }

  lemma Unfold(r: Ring, run: seq<Action>)
    requires run != [] && r.slots != [] && Can(r, run[0])
    ensures Legal(r, run) <==> Legal(Step(r, run[0]), run[1..])
    ensures Legal(r, run) ==> Run(r, run) == Run(Step(r, run[0]), run[1..])
  {
  }

  ghost predicate AlwaysMatches(size: nat) {
    forall stamp, run :: Legal(Init(size, stamp), run) ==> Matching(Run(Init(size, stamp), run))
  }

  /** DRM_VBLANKTIME_RBSIZE must be at least two, and any such divisor of 2^32 will do. */
  lemma TwoSlotsNeeded(size: nat)
    requires size > 0 && COUNTS % size == 0
    ensures AlwaysMatches(size) <==> size >= 2
  {
    if size >= 2 {
      forall stamp, run | Legal(Init(size, stamp), run)
        ensures Matching(Run(Init(size, stamp), run))
      {
        ReaderMatches(Init(size, stamp), run);
      }
    } else {
      OneSlotTears(Stamp(0, 0), Stamp(1, 0));
    }
  }
}
