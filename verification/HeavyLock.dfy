/** The heavyweight lock of drm_lock.c: a compare-and-swap word shared by user contexts and the
    kernel's idle lock.  One step per access to the word and per section under the spinlock. */
module HeavyLock {
  import opened Lists

  /** The lock word: 30 bits of context, the held bit and the contention bit. */
  datatype Word = Word(context: nat, held: bool, contended: bool)

  const KERNEL: nat := 0
  const ZERO := Word(0, false, false)

  /** What drm_lock_take wants to store. */
  function TakeWord(seen: Word, context: nat, crowded: bool): Word {
    if seen.held then seen.(contended := true) else Word(context, true, crowded)
  }

  /** ... and what it returns once it has stored it. */
  function TakeResult(seen: Word, stored: Word, context: nat): nat {
    if seen.context == context && seen.held then 0
    else if stored.context == context && stored.held then 1
    else 0
  }

  /** The local cmpxchg: the new word, and a result that is 0 on failure. */
  function CmpXchg(word: Word, seen: Word, store: Word): (Word, Word) {
    if word == seen then (store, seen) else (word, ZERO)
  }

  /** Where a thread is.  The spinlock is held in the Take, Transfer and Release states. */
  datatype Pc =
    | Out                      // not in the lock's code, and owing nothing
    | Waiting                  // wants the lock: drm_lock's loop, or drm_idlelock_take before its try
    | TakeLocked | TakeRead(seen: Word)
    | Won                      // a user: drm_lock_take has returned 1, still counted as waiting
    | Took                     // the kernel: drm_lock_take has returned 1, idle_has_lock not yet set
    | In                       // a user: owns the lock; the kernel: drm_idlelock_take has returned
    | FreeLoop | FreeRead(seen: Word)
    | TransferLocked | TransferRead(seen: Word)
    | ReleaseLocked | ReleaseRead(seen: Word)

  /** A thread acts for one context; context 0 is the kernel's. */
  datatype Thread = Thread(context: nat, pc: Pc)

  datatype Shared = Shared(word: Word, spin: Option<nat>, kernelWaiters: int, userWaiters: int, idleHasLock: bool)

  datatype Lock = Lock(shared: Shared, threads: seq<Thread>)

  predicate NeedsSpin(pc: Pc) {
    pc.Out? || pc.Waiting? || pc.Won? || pc.Took? || pc.In?
  }

  predicate HoldsSpin(pc: Pc) {
    pc.TakeLocked? || pc.TakeRead? || pc.TransferLocked? || pc.TransferRead? || pc.ReleaseLocked? || pc.ReleaseRead?
  }

  /** One step of thread t, whose state is `me`; `signal` ends a user's wait. */
  function Move(g: Shared, me: Thread, t: nat, signal: bool): (Shared, Pc) {
    var kernel := me.context == KERNEL;
    match me.pc
    case Out =>
      if kernel then (g.(kernelWaiters := g.kernelWaiters + 1), if g.idleHasLock then In else Waiting)
      else (g.(userWaiters := g.userWaiters + 1), Waiting)
    case Waiting =>
      if !kernel && signal then (g.(userWaiters := g.userWaiters - 1), Out) else (g.(spin := Some(t)), TakeLocked)
    case TakeLocked => (g, TakeRead(g.word))
    case TakeRead(seen) =>
      var store := TakeWord(seen, me.context, g.userWaiters + g.kernelWaiters > 1);
      var (word, prev) := CmpXchg(g.word, seen, store);
      if prev != seen then (g.(word := word), TakeLocked)
      else (g.(word := word, spin := None),
            if TakeResult(seen, store, me.context) == 1 then (if kernel then Took else Won)
            else (if kernel then In else Waiting))
    case Won => (g.(userWaiters := g.userWaiters - 1), In)
    case Took => (g.(idleHasLock := true), In)
    case In =>
      if kernel then
        var g' := g.(kernelWaiters := g.kernelWaiters - 1);
        if g'.kernelWaiters == 0 && g.idleHasLock then (g'.(spin := Some(t)), ReleaseLocked) else (g', Out)
      else if g.kernelWaiters != 0 then (g.(spin := Some(t)), TransferLocked)
      else (g, FreeLoop)
    case FreeLoop => (g, FreeRead(g.word))
    case FreeRead(seen) =>
      var (word, prev) := CmpXchg(g.word, seen, Word(seen.context, false, false));
      (g.(word := word), if prev != seen then FreeLoop else Out)
    case TransferLocked => (g, TransferRead(g.word))
    case TransferRead(seen) =>
      var (word, prev) := CmpXchg(g.word, seen, Word(KERNEL, true, false));
      if prev != seen then (g.(word := word), TransferLocked)
      else (g.(word := word, idleHasLock := true, spin := None), Out)
    case ReleaseLocked => (g, ReleaseRead(g.word))
    case ReleaseRead(seen) =>
      var (word, prev) := CmpXchg(g.word, seen, Word(KERNEL, false, false));
      if prev != seen then (g.(word := word), ReleaseLocked)
      else (g.(word := word, idleHasLock := false, spin := None), Out)
  }

  /** Thread t can move. */
  predicate Can(s: Lock, t: nat) {
    t < |s.threads| && (NeedsSpin(s.threads[t].pc) ==> s.shared.spin.None?)
  }

  function Step(s: Lock, t: nat, signal: bool): Lock
    requires Can(s, t)
  {
    var (g, pc) := Move(s.shared, s.threads[t], t, signal);
    Lock(g, s.threads[t := s.threads[t].(pc := pc)])
  }

  // ---------------------------------------------------------------- the bits of the word

  const HELD: bv32 := 0x8000_0000
  const CONT: bv32 := 0x4000_0000

  function Bits(context: bv32, held: bool, contended: bool): bv32 {
    context | (if held then HELD else 0) | (if contended then CONT else 0)
  }

  /** _DRM_LOCK_IS_HELD and _DRM_LOCKING_CONTEXT read the fields back. */
  lemma BitsRead(context: bv32, held: bool, contended: bool)
    requires context & (HELD | CONT) == 0
    ensures Bits(context, held, contended) & HELD != 0 <==> held
    ensures Bits(context, held, contended) & !(HELD | CONT) == context
  {
  }

  /** The two ways to store a word in drm_lock_take are the two in TakeWord, and only ZERO is 0. */
  lemma BitsStore(context: bv32, held: bool, contended: bool)
    requires context & (HELD | CONT) == 0
    ensures Bits(context, held, contended) | CONT == Bits(context, held, true)
    ensures context | HELD | (if contended then CONT else 0) == Bits(context, true, contended)
  {
  }

  lemma BitsZero(context: bv32, held: bool, contended: bool)
    requires context & (HELD | CONT) == 0
    ensures Bits(context, held, contended) == 0 <==> context == 0 && !held && !contended
  {
    if Bits(context, held, contended) == 0 {
      BitsDiffer(context, held, contended, 0, false, false);
    }
  }

  /** Different words have different bits. */
  lemma BitsDiffer(c1: bv32, h1: bool, w1: bool, c2: bv32, h2: bool, w2: bool)
    requires c1 & (HELD | CONT) == 0 && c2 & (HELD | CONT) == 0
    ensures Bits(c1, h1, w1) == Bits(c2, h2, w2) <==> c1 == c2 && h1 == h2 && w1 == w2
  {
  }

  /** drm_lock_take returns 1 exactly when the word it replaced was not held, and then the word is held
      by its context; otherwise the holder stays the same. */
  lemma TakeReturns(seen: Word, context: nat, crowded: bool)
    ensures var store := TakeWord(seen, context, crowded);
            && (TakeResult(seen, store, context) == 1 <==> !seen.held)
            && store.held && store.context == if seen.held then seen.context else context
  {
  }

  // ---------------------------------------------------------------- the invariant

  /** A user that owns the lock, or the kernel thread that has just taken it. */
  predicate Owns(t: Thread) {
    if t.context == KERNEL then t.pc.Took?
    else t.pc.Won? || t.pc.In? || t.pc.FreeLoop? || t.pc.FreeRead? || t.pc.TransferLocked? || t.pc.TransferRead?
  }

  /** Which states belong to which kind of thread. */
  predicate RightPlace(t: Thread) {
    && (t.context == KERNEL ==>
          !t.pc.Won? && !t.pc.FreeLoop? && !t.pc.FreeRead? && !t.pc.TransferLocked? && !t.pc.TransferRead?)
    && (t.context != KERNEL ==> !t.pc.Took? && !t.pc.ReleaseLocked? && !t.pc.ReleaseRead?)
  }

  /** What the word and the flag say about an owner, and about the idle lock. */
  predicate OwnerFits(g: Shared, t: Thread) {
    Owns(t) ==> g.word.held && g.word.context == t.context && !g.idleHasLock
  }

  predicate IdleFits(g: Shared) {
    g.idleHasLock ==> g.word.held && g.word.context == KERNEL
  }

  /** The lock is owned by at most one user or by the kernel, and the word says by whom. */
  ghost predicate Exclusive(s: Lock) {
    && (forall t :: 0 <= t < |s.threads| ==> OwnerFits(s.shared, s.threads[t]))
    && (forall t, u :: 0 <= t < u < |s.threads| && Owns(s.threads[t]) ==> !Owns(s.threads[u]))
    && IdleFits(s.shared)
  }

  /** A held lock is held by somebody. */
  ghost predicate Somebody(s: Lock) {
    s.shared.word.held ==> s.shared.idleHasLock || exists t :: 0 <= t < |s.threads| && Owns(s.threads[t])
  }

  ghost predicate SpinExact(s: Lock) {
    && (forall t :: 0 <= t < |s.threads| ==> (HoldsSpin(s.threads[t].pc) <==> s.shared.spin == Some(t)))
    && (s.shared.spin.Some? ==> s.shared.spin.value < |s.threads|)
  }

  /** Where a failing cmpxchg would be mistaken for a success, it cannot fail. */
  predicate SeenFits(g: Shared, t: Thread) {
    match t.pc
    case TakeRead(seen) => seen == ZERO ==> g.word == ZERO
    case FreeRead(seen) => seen != ZERO
    case TransferRead(seen) => seen != ZERO
    case ReleaseLocked => g.idleHasLock
    case ReleaseRead(seen) => seen != ZERO && g.idleHasLock
    case _ => true
  }

  ghost predicate ThreadsFit(s: Lock) {
    forall t :: 0 <= t < |s.threads| ==> RightPlace(s.threads[t]) && SeenFits(s.shared, s.threads[t])
  }

  ghost predicate Inv(s: Lock) {
    Exclusive(s) && Somebody(s) && SpinExact(s) && ThreadsFit(s)
  }

  // ---------------------------------------------------------------- one move

  /** A thread about to swap that saw 0 will find 0: the loop that mistakes a failed cmpxchg for a
      success does not exit falsely. */
  predicate Swaps(pc: Pc) {
    pc.TakeRead? || pc.FreeRead? || pc.TransferRead? || pc.ReleaseRead?
  }

  lemma NeverExitsFalsely(s: Lock, t: nat, store: Word)
    requires Inv(s) && t < |s.threads| && Swaps(s.threads[t].pc)
    ensures var seen := s.threads[t].pc.seen; CmpXchg(s.shared.word, seen, store).1 == seen <==> s.shared.word == seen
  {
    hide Exclusive, Somebody, SpinExact;
    assert SeenFits(s.shared, s.threads[t]);
  }

  /** What a move does to the ownership of the lock. */
  predicate KeepsOwner(g: Shared, me: Thread, g': Shared, me': Thread) {
    && Owns(me') == Owns(me) && g'.idleHasLock == g.idleHasLock
    && g'.word.held == g.word.held && g'.word.context == g.word.context
  }

  predicate Gains(g: Shared, me: Thread, g': Shared, me': Thread) {
    !g.word.held && Owns(me') && g'.word.held && g'.word.context == me.context && !g'.idleHasLock
  }

  predicate Loses(g: Shared, me: Thread, g': Shared, me': Thread) {
    Owns(me) && !Owns(me') && g'.word.held == g'.idleHasLock && (g'.idleHasLock ==> g'.word.context == KERNEL)
  }

  predicate Releases(g: Shared, me: Thread, g': Shared, me': Thread) {
    g.idleHasLock && !g'.idleHasLock && !Owns(me') && !g'.word.held
  }

  lemma MoveOwner(g: Shared, me: Thread, t: nat, signal: bool)
    requires RightPlace(me) && SeenFits(g, me) && OwnerFits(g, me) && IdleFits(g)
    ensures var (g', pc) := Move(g, me, t, signal);
            var me' := me.(pc := pc);
            KeepsOwner(g, me, g', me') || Gains(g, me, g', me') || Loses(g, me, g', me') || Releases(g, me, g', me')
  {
  }

  lemma MoveFits(g: Shared, me: Thread, t: nat, signal: bool)
    requires RightPlace(me) && SeenFits(g, me) && OwnerFits(g, me) && IdleFits(g)
    ensures var (g', pc) := Move(g, me, t, signal); RightPlace(me.(pc := pc)) && SeenFits(g', me.(pc := pc))
  {
  }

  /** The word and the flag change only in the hands of the owner or of whoever holds the spinlock. */
  lemma MoveDisturbs(g: Shared, me: Thread, t: nat, signal: bool, other: Thread)
    requires RightPlace(me) && SeenFits(g, me) && OwnerFits(g, me) && IdleFits(g)
    requires HoldsSpin(me.pc) ==> !HoldsSpin(other.pc)
    requires SeenFits(g, other)
    ensures SeenFits(Move(g, me, t, signal).0, other)
  {
  }

  lemma MoveSpin(g: Shared, me: Thread, t: nat, signal: bool)
    requires NeedsSpin(me.pc) ==> g.spin.None?
    requires HoldsSpin(me.pc) <==> g.spin == Some(t)
    ensures var (g', pc) := Move(g, me, t, signal);
            && (HoldsSpin(pc) <==> g'.spin == Some(t))
            && (g'.spin == g.spin || g'.spin == None || g'.spin == Some(t))
            && (g'.spin != g.spin ==> g.spin == None || g.spin == Some(t))
  {
  }

  // ---------------------------------------------------------------- every step keeps the invariant

  /** Only thread t's place changes. */
  ghost predicate Moved(s: Lock, t: nat, pc: Pc, s': Lock) {
    && t < |s.threads|
    && s'.threads == s.threads[t := s.threads[t].(pc := pc)]
  }

  lemma KeptOwner(s: Lock, t: nat, pc: Pc, s': Lock)
    requires Exclusive(s) && Somebody(s) && Moved(s, t, pc, s')
    requires KeepsOwner(s.shared, s.threads[t], s'.shared, s'.threads[t])
    ensures Exclusive(s') && Somebody(s')
  {
    assert forall u :: 0 <= u < |s.threads| ==> Owns(s'.threads[u]) == Owns(s.threads[u]);
    forall u | 0 <= u < |s'.threads|
      ensures OwnerFits(s'.shared, s'.threads[u])
    {
      assert OwnerFits(s.shared, s.threads[u]);
    }
  }

  /** A free lock has no owner, so whoever takes it is alone. */
  lemma Gained(s: Lock, t: nat, pc: Pc, s': Lock)
    requires Exclusive(s) && Moved(s, t, pc, s') && Gains(s.shared, s.threads[t], s'.shared, s'.threads[t])
    ensures Exclusive(s') && Somebody(s')
  {
    assert forall u :: 0 <= u < |s.threads| ==> OwnerFits(s.shared, s.threads[u]);
  }

  lemma Lost(s: Lock, t: nat, pc: Pc, s': Lock)
    requires Exclusive(s) && Moved(s, t, pc, s') && Loses(s.shared, s.threads[t], s'.shared, s'.threads[t])
    ensures Exclusive(s') && Somebody(s')
  {
    assert forall u :: 0 <= u < |s.threads| && u != t ==> !Owns(s.threads[u]);
  }

  lemma Released(s: Lock, t: nat, pc: Pc, s': Lock)
    requires Exclusive(s) && Moved(s, t, pc, s') && Releases(s.shared, s.threads[t], s'.shared, s'.threads[t])
    ensures Exclusive(s') && Somebody(s')
  {
    assert forall u :: 0 <= u < |s.threads| ==> OwnerFits(s.shared, s.threads[u]);
  }

  lemma MineFits(s: Lock, t: nat)
    requires Inv(s) && t < |s.threads|
    ensures RightPlace(s.threads[t]) && SeenFits(s.shared, s.threads[t])
    ensures OwnerFits(s.shared, s.threads[t]) && IdleFits(s.shared)
    ensures HoldsSpin(s.threads[t].pc) <==> s.shared.spin == Some(t)
  {
    hide RightPlace, SeenFits, Somebody, OwnerFits, IdleFits;
  }

  lemma StepKeepsOwner(s: Lock, t: nat, signal: bool)
    requires Inv(s) && Can(s, t)
    ensures Exclusive(Step(s, t, signal)) && Somebody(Step(s, t, signal))
  {
    hide Exclusive, Somebody, SpinExact, ThreadsFit, Move, KeepsOwner, Gains, Loses, Releases, RightPlace, SeenFits;
    MineFits(s, t);
    var g, me, s' := s.shared, s.threads[t], Step(s, t, signal);
    var (g', pc) := Move(g, me, t, signal);
    MoveOwner(g, me, t, signal);
    if KeepsOwner(g, me, g', me.(pc := pc)) {
      KeptOwner(s, t, pc, s');
    } else if Gains(g, me, g', me.(pc := pc)) {
      Gained(s, t, pc, s');
    } else if Loses(g, me, g', me.(pc := pc)) {
      Lost(s, t, pc, s');
    } else {
      Released(s, t, pc, s');
    }
  }

  lemma StepKeepsSpin(s: Lock, t: nat, signal: bool)
    requires SpinExact(s) && Can(s, t)
    ensures SpinExact(Step(s, t, signal))
  {
    hide Move;
    MoveSpin(s.shared, s.threads[t], t, signal);
  }

  lemma StepKeepsThreads(s: Lock, t: nat, signal: bool)
    requires Inv(s) && Can(s, t)
    ensures ThreadsFit(Step(s, t, signal))
  {
    hide Inv, Move, RightPlace, SeenFits, OwnerFits, IdleFits, HoldsSpin;
    MineFits(s, t);
    var g, me, s' := s.shared, s.threads[t], Step(s, t, signal);
    forall u | 0 <= u < |s'.threads|
      ensures RightPlace(s'.threads[u]) && SeenFits(s'.shared, s'.threads[u])
    {
      if u == t {
        MoveFits(g, me, t, signal);
      } else {
        MineFits(s, u);
        MoveDisturbs(g, me, t, signal, s.threads[u]);
      }
    }
  }

  lemma StepKeepsInv(s: Lock, t: nat, signal: bool)
    requires Inv(s) && Can(s, t)
    ensures Inv(Step(s, t, signal)) && |Step(s, t, signal).threads| == |s.threads|
  {
    hide Exclusive, Somebody, SpinExact, ThreadsFit, Move;
    StepKeepsOwner(s, t, signal);
    StepKeepsSpin(s, t, signal);
    StepKeepsThreads(s, t, signal);
  }

  // ---------------------------------------------------------------- the kernel's waiters

  /** Between drm_idlelock_take and the count-down of drm_idlelock_release. */
  predicate Counted(t: Thread) {
    t.context == KERNEL && !t.pc.Out? && !t.pc.ReleaseLocked? && !t.pc.ReleaseRead?
  }

  /** Between the two updates of user_waiters in drm_lock. */
  predicate Queued(t: Thread) {
    t.context != KERNEL && (t.pc.Waiting? || t.pc.TakeLocked? || t.pc.TakeRead? || t.pc.Won?)
  }

  function Count(p: Thread -> bool, threads: seq<Thread>): nat {
    if threads == [] then 0 else (if p(threads[0]) then 1 else 0) + Count(p, threads[1..])
  }

  lemma {:induction false} CountUpdate(p: Thread -> bool, threads: seq<Thread>, t: nat, me: Thread)
    requires t < |threads|
    ensures Count(p, threads[t := me])
            == Count(p, threads) + (if p(me) then 1 else 0) - (if p(threads[t]) then 1 else 0)
  {
    if t == 0 {
      assert threads[t := me][1..] == threads[1..];
    } else {
      assert threads[t := me][1..] == threads[1..][t - 1 := me];
      CountUpdate(p, threads[1..], t - 1, me);
    }
  }

  lemma {:induction false} CountPositive(p: Thread -> bool, threads: seq<Thread>, t: nat)
    requires t < |threads| && p(threads[t])
    ensures Count(p, threads) > 0
  {
    if t > 0 {
      CountPositive(p, threads[1..], t - 1);
    }
  }

  /** Both counters are exact. */
  ghost predicate Waiters(s: Lock) {
    s.shared.kernelWaiters == Count(Counted, s.threads) && s.shared.userWaiters == Count(Queued, s.threads)
  }

  function Bit(b: bool): int {
    if b then 1 else 0
  }

  lemma MoveCounts(g: Shared, me: Thread, t: nat, signal: bool)
    requires RightPlace(me)
    ensures var (g', pc) := Move(g, me, t, signal); var me' := me.(pc := pc);
            && g'.kernelWaiters - g.kernelWaiters == Bit(Counted(me')) - Bit(Counted(me))
            && g'.userWaiters - g.userWaiters == Bit(Queued(me')) - Bit(Queued(me))
  {
  }

  lemma StepKeepsWaiters(s: Lock, t: nat, signal: bool)
    requires Inv(s) && Can(s, t) && Waiters(s)
    ensures Waiters(Step(s, t, signal))
  {
    hide Inv, SeenFits, OwnerFits, IdleFits, Move, RightPlace, Counted, Queued;
    MineFits(s, t);
    var me' := s.threads[t].(pc := Move(s.shared, s.threads[t], t, signal).1);
    MoveCounts(s.shared, s.threads[t], t, signal);
    CountUpdate(Counted, s.threads, t, me');
    CountUpdate(Queued, s.threads, t, me');
    assert Step(s, t, signal).threads == s.threads[t := me'];
  }

  // ---------------------------------------------------------------- the contention bit

  /** In drm_lock or with the idle lock: one of those the two counters count. */
  predicate Inside(t: Thread) {
    Queued(t) || Counted(t)
  }

  ghost predicate AnotherInside(s: Lock, t: nat) {
    exists u :: 0 <= u < |s.threads| && u != t && Inside(s.threads[u])
  }

  lemma {:induction false} CountInside(threads: seq<Thread>)
    ensures Count(Queued, threads) + Count(Counted, threads) == Count(Inside, threads)
  {
    if threads != [] {
      CountInside(threads[1..]);
    }
  }

  lemma CountOthers(s: Lock, t: nat)
    requires t < |s.threads| && Inside(s.threads[t])
    ensures Count(Inside, s.threads) > 1 <==> AnotherInside(s, t)
  {
    hide Inside;
    var outside := Thread(KERNEL, Out);
    var others := s.threads[t := outside];
    assert !Inside(outside) by { OutIsOutside(); }
    CountUpdate(Inside, s.threads, t, outside);
    if AnotherInside(s, t) {
      var u :| 0 <= u < |s.threads| && u != t && Inside(s.threads[u]);
      CountPositive(Inside, others, u);
    } else {
      NobodyCounted(Inside, others);
    }
  }

  lemma OutIsOutside()
    ensures !Inside(Thread(KERNEL, Out))
  {
  }

  /** What drm_lock_take leaves in the word, if the word is still what was seen.  A thread that gets the
      lock marks it contended exactly when another one is inside at that moment; one that does not get it
      marks it for the owner to see. */
  lemma TakeMarks(s: Lock, t: nat, signal: bool)
    requires Inv(s) && Waiters(s) && Can(s, t) && s.threads[t].pc.TakeRead?
    ensures var me, word, s' := s.threads[t], s.shared.word, Step(s, t, signal);
            && (s'.threads[t].pc.TakeLocked? <==> word != me.pc.seen)
            && match s'.threads[t].pc
            case TakeLocked => s'.shared.word == word
            case Won => me.context != KERNEL && !word.held
                        && s'.shared.word == Word(me.context, true, AnotherInside(s, t))
            case Took => me.context == KERNEL && !word.held
                         && s'.shared.word == Word(KERNEL, true, AnotherInside(s, t))
            case In => me.context == KERNEL && word.held && s'.shared.word == word.(contended := true)
            case Waiting => me.context != KERNEL && word.held && s'.shared.word == word.(contended := true)
            case _ => false
  {
    hide Exclusive, Somebody, SpinExact, ThreadsFit, Counted, Queued, Count, AnotherInside;
    MineFits(s, t);
    assert Inside(s.threads[t]) by { TakingIsInside(s.threads[t]); }
    CountInside(s.threads);
    CountOthers(s, t);
  }

  lemma TakingIsInside(t: Thread)
    requires t.pc.TakeRead?
    ensures Inside(t)
  {
  }

  /** What the other three swaps leave, if the word is still what was seen: a lock given up is free, one
      handed over is the kernel's, and both are unmarked. */
  lemma GiveUpClears(s: Lock, t: nat, signal: bool)
    requires Inv(s) && Can(s, t) && Swaps(s.threads[t].pc) && !s.threads[t].pc.TakeRead?
    ensures var me, word, s' := s.threads[t], s.shared.word, Step(s, t, signal);
            if word == me.pc.seen then
              && s'.threads[t].pc.Out?
              && s'.shared.word == Word(if Freeing(me) then me.context else KERNEL, me.pc.TransferRead?, false)
            else s'.shared.word == word && Loops(s'.threads[t].pc)
  {
    hide Exclusive, Somebody, SpinExact, ThreadsFit;
    MineFits(s, t);
  }

  /** About to read the word again. */
  predicate Loops(pc: Pc) {
    pc.TakeLocked? || pc.FreeLoop? || pc.TransferLocked? || pc.ReleaseLocked?
  }

  // ---------------------------------------------------------------- the idle lock is not kept

  predicate Transferring(t: Thread) {
    t.pc.TransferLocked? || t.pc.TransferRead?
  }

  /** The kernel holds the lock only while one of its threads wants it or gives it up, and is handed it only
      then. */
  ghost predicate Needed(s: Lock) {
    && (s.shared.idleHasLock ==>
          s.shared.kernelWaiters > 0 || exists t :: 0 <= t < |s.threads| && Releasing(s.threads[t]))
    && forall t :: 0 <= t < |s.threads| && Transferring(s.threads[t]) ==> s.shared.kernelWaiters > 0
  }

  lemma MoveNeeds(g: Shared, me: Thread, t: nat, signal: bool)
    requires RightPlace(me) && g.kernelWaiters >= Bit(Counted(me))
    requires Transferring(me) ==> g.kernelWaiters > 0
    requires NeedsSpin(me.pc) ==> g.spin.None?
    ensures var (g', pc) := Move(g, me, t, signal); var me' := me.(pc := pc);
            && (g'.idleHasLock && g'.kernelWaiters == 0 ==>
                  Releasing(me') || (g.idleHasLock && g.kernelWaiters == 0 && !Releasing(me)))
            && (Transferring(me') ==> g'.kernelWaiters > 0)
            && (g'.kernelWaiters < g.kernelWaiters ==> g.spin.None?)
  {
  }

  lemma StepKeepsNeeded(s: Lock, t: nat, signal: bool)
    requires Inv(s) && Waiters(s) && Needed(s) && Can(s, t)
    ensures Needed(Step(s, t, signal))
  {
    hide Exclusive, Somebody, ThreadsFit, Move, RightPlace, SeenFits, OwnerFits, IdleFits, NeedsSpin, HoldsSpin;
    MineFits(s, t);
    StepKeepsWaiters(s, t, signal);
    var g, me, s' := s.shared, s.threads[t], Step(s, t, signal);
    if Counted(me) {
      CountPositive(Counted, s.threads, t);
    }
    MoveNeeds(g, me, t, signal);
    assert s'.threads == s.threads[t := me.(pc := Move(g, me, t, signal).1)];
    if s'.shared.idleHasLock && s'.shared.kernelWaiters == 0 {
      if !Releasing(s'.threads[t]) {
        var u :| 0 <= u < |s.threads| && Releasing(s.threads[u]);
        assert Releasing(s'.threads[u]);
      }
    }
    forall u | 0 <= u < |s'.threads| && Transferring(s'.threads[u])
      ensures s'.shared.kernelWaiters > 0
    {
      if u != t {
        assert s'.threads[u] == s.threads[u];
        TransferringHolds(s, u);
      }
    }
  }

  lemma TransferringHolds(s: Lock, u: nat)
    requires SpinExact(s) && u < |s.threads| && Transferring(s.threads[u])
    ensures s.shared.spin == Some(u)
  {
  }

  // ---------------------------------------------------------------- whole runs

  datatype Turn = Turn(thread: nat, signal: bool)

  ghost predicate Legal(s: Lock, run: seq<Turn>)
    decreases |run|
  {
    run == [] || (Can(s, run[0].thread) && Legal(Step(s, run[0].thread, run[0].signal), run[1..]))
  }

  function Run(s: Lock, run: seq<Turn>): Lock
    requires Legal(s, run)
    decreases |run|
  {
    if run == [] then s else Run(Step(s, run[0].thread, run[0].signal), run[1..])
  }

  function Init(contexts: seq<nat>): Lock {
    Lock(Shared(ZERO, None, 0, 0, false), seq(|contexts|, t requires 0 <= t < |contexts| => Thread(contexts[t], Out)))
  }

  lemma {:induction false} NobodyCounted(p: Thread -> bool, threads: seq<Thread>)
    requires forall t :: 0 <= t < |threads| ==> !p(threads[t])
    ensures Count(p, threads) == 0
  {
    if threads != [] {
      assert forall t :: 0 <= t < |threads[1..]| ==> threads[1..][t] == threads[t + 1];
      NobodyCounted(p, threads[1..]);
    }
  }

  lemma InitInv(contexts: seq<nat>)
    ensures Inv(Init(contexts)) && Waiters(Init(contexts))
  {
    var s := Init(contexts);
    assert forall t :: 0 <= t < |s.threads| ==> s.threads[t].pc == Out;
    NobodyCounted(Counted, s.threads);
    NobodyCounted(Queued, s.threads);
  }

  lemma {:induction false} RunKeepsInv(s: Lock, run: seq<Turn>)
    requires Inv(s) && Waiters(s) && Legal(s, run)
    ensures Inv(Run(s, run)) && Waiters(Run(s, run))
    decreases |run|
  {
    hide Inv, Waiters, Can, Step;
    if run != [] {
      StepKeepsInv(s, run[0].thread, run[0].signal);
      StepKeepsWaiters(s, run[0].thread, run[0].signal);
      RunKeepsInv(Step(s, run[0].thread, run[0].signal), run[1..]);
    }
  }

  /** Over every interleaving from a fresh lock: two users never own it together, no user owns it while
      the idle lock does, and the flag says truly that the kernel holds the word. */
  lemma MutualExclusion(contexts: seq<nat>, run: seq<Turn>, t: nat, u: nat)
    requires Legal(Init(contexts), run)
    ensures var s := Run(Init(contexts), run);
            && (t < |s.threads| && u < |s.threads| && Owns(s.threads[t]) && Owns(s.threads[u]) ==> t == u)
            && (t < |s.threads| && Owns(s.threads[t]) ==> !s.shared.idleHasLock)
            && (s.shared.idleHasLock ==> s.shared.word.held && s.shared.word.context == KERNEL)
  {
    hide Owns, Init, RightPlace, SeenFits, Somebody, SpinExact, ThreadsFit;
    InitInv(contexts);
    RunKeepsInv(Init(contexts), run);
    var s := Run(Init(contexts), run);
    assert Exclusive(s);
    if t < |s.threads| {
      assert OwnerFits(s.shared, s.threads[t]);
    }
  }

  lemma {:induction false} RunKeepsNeeded(s: Lock, run: seq<Turn>)
    requires Inv(s) && Waiters(s) && Needed(s) && Legal(s, run)
    ensures Needed(Run(s, run))
    decreases |run|
  {
    hide Inv, Waiters, Needed, Can, Step;
    if run != [] {
      StepKeepsInv(s, run[0].thread, run[0].signal);
      StepKeepsWaiters(s, run[0].thread, run[0].signal);
      StepKeepsNeeded(s, run[0].thread, run[0].signal);
      RunKeepsNeeded(Step(s, run[0].thread, run[0].signal), run[1..]);
    }
  }

  /** Over every interleaving from a fresh lock the kernel keeps the lock only for a thread of its own: one
      between drm_idlelock_take and the end of drm_idlelock_release. */
  lemma KernelNeedsIt(contexts: seq<nat>, run: seq<Turn>)
    requires Legal(Init(contexts), run)
    ensures var s := Run(Init(contexts), run);
            s.shared.idleHasLock ==>
              exists t :: 0 <= t < |s.threads| && (Counted(s.threads[t]) || Releasing(s.threads[t]))
  {
    hide Init, Inv, Counted, Releasing;
    InitInv(contexts);
    InitNeeded(contexts);
    RunKeepsInv(Init(contexts), run);
    RunKeepsNeeded(Init(contexts), run);
    var s := Run(Init(contexts), run);
    if forall t :: 0 <= t < |s.threads| ==> !Counted(s.threads[t]) {
      NobodyCounted(Counted, s.threads);
    }
  }

  lemma InitNeeded(contexts: seq<nat>)
    ensures Needed(Init(contexts))
  {
    assert forall t :: 0 <= t < |contexts| ==> Init(contexts).threads[t].pc == Out;
  }

  // ---------------------------------------------------------------- the promise of drm_idlelock_take

  /** drm_lock_free, past its look at kernel_waiters. */
  predicate Freeing(t: Thread) {
    t.pc.FreeLoop? || t.pc.FreeRead?
  }

  predicate Releasing(t: Thread) {
    t.pc.ReleaseLocked? || t.pc.ReleaseRead?
  }

  /** drm_idlelock_take has returned and drm_idlelock_release has not been called. */
  predicate KernelIn(t: Thread) {
    t.context == KERNEL && t.pc.In?
  }

  /** While the kernel waits the lock is not free: it is the kernel's, or its owner will hand it over. */
  predicate PromiseTo(g: Shared, t: Thread) {
    && (Freeing(t) || Releasing(t) ==> g.kernelWaiters == 0)
    && (KernelIn(t) ==> g.word.held)
  }

  ghost predicate Promise(s: Lock) {
    forall t :: 0 <= t < |s.threads| ==> PromiseTo(s.shared, s.threads[t])
  }

  /** Thread t begins drm_idlelock_take while an unlock has passed its look at kernel_waiters. */
  ghost predicate Race(s: Lock, t: nat)
    requires t < |s.threads|
  {
    s.threads[t].context == KERNEL && s.threads[t].pc.Out? && exists u :: 0 <= u < |s.threads| && Freeing(s.threads[u])
  }

  lemma MoveKeepsOwnPromise(g: Shared, me: Thread, t: nat, signal: bool)
    requires RightPlace(me) && SeenFits(g, me) && OwnerFits(g, me) && IdleFits(g) && PromiseTo(g, me)
    ensures var (g', pc) := Move(g, me, t, signal); PromiseTo(g', me.(pc := pc))
  {
  }

  lemma MoveKeepsPromise(g: Shared, me: Thread, t: nat, signal: bool, other: Thread)
    requires RightPlace(me) && SeenFits(g, me) && OwnerFits(g, me) && IdleFits(g) && PromiseTo(g, me)
    requires PromiseTo(g, other) && (NeedsSpin(me.pc) ==> !HoldsSpin(other.pc))
    requires (Counted(me) || Counted(other)) ==> g.kernelWaiters > 0
    requires !(me.context == KERNEL && me.pc.Out? && Freeing(other))
    ensures PromiseTo(Move(g, me, t, signal).0, other)
  {
  }

  lemma CountedWaits(s: Lock, t: nat)
    requires Waiters(s) && t < |s.threads| && Counted(s.threads[t])
    ensures s.shared.kernelWaiters > 0
  {
    CountPositive(Counted, s.threads, t);
  }

  lemma StepKeepsPromise(s: Lock, t: nat, signal: bool)
    requires Inv(s) && Waiters(s) && Promise(s) && Can(s, t) && !Race(s, t)
    ensures Promise(Step(s, t, signal))
  {
    hide Inv, Waiters, Move, RightPlace, SeenFits, OwnerFits, IdleFits, PromiseTo, Counted, Freeing, HoldsSpin;
    MineFits(s, t);
    var g, me, s' := s.shared, s.threads[t], Step(s, t, signal);
    if Counted(me) {
      CountedWaits(s, t);
    }
    forall u | 0 <= u < |s'.threads|
      ensures PromiseTo(s'.shared, s'.threads[u])
    {
      if u == t {
        MoveKeepsOwnPromise(g, me, t, signal);
      } else {
        MineFits(s, u);
        if Counted(s.threads[u]) {
          CountedWaits(s, u);
        }
        MoveKeepsPromise(g, me, t, signal, s.threads[u]);
      }
    }
  }

  ghost predicate RaceFree(s: Lock, run: seq<Turn>)
    requires Legal(s, run)
    decreases |run|
  {
    run == [] || (!Race(s, run[0].thread) && RaceFree(Step(s, run[0].thread, run[0].signal), run[1..]))
  }

  /** Without the race the kernel is never left waiting for a lock that nobody holds. */
  lemma {:induction false} RaceFreeKeepsPromise(s: Lock, run: seq<Turn>)
    requires Inv(s) && Waiters(s) && Promise(s) && Legal(s, run) && RaceFree(s, run)
    ensures Promise(Run(s, run))
    decreases |run|
  {
    hide Inv, Waiters, Promise, Can, Step, Race;
    if run != [] {
      StepKeepsInv(s, run[0].thread, run[0].signal);
      StepKeepsWaiters(s, run[0].thread, run[0].signal);
      StepKeepsPromise(s, run[0].thread, run[0].signal);
      RaceFreeKeepsPromise(Step(s, run[0].thread, run[0].signal), run[1..]);
    }
  }

  lemma Unfold(s: Lock, run: seq<Turn>)
    requires run != [] && Can(s, run[0].thread)
    ensures Legal(s, run) <==> Legal(Step(s, run[0].thread, run[0].signal), run[1..])
    ensures Legal(s, run) ==> Run(s, run) == Run(Step(s, run[0].thread, run[0].signal), run[1..])
  {
  }

  /** The idle-take of u finds the lock held by t's context and returns without it. */
  lemma TakeInVain(s: Lock, u: nat) returns (s': Lock)
    requires s.shared.spin == None && !s.shared.idleHasLock && s.shared.word.held && s.shared.word.context != KERNEL
    requires u < |s.threads| && s.threads[u] == Thread(KERNEL, Out)
    ensures Legal(s, [Turn(u, false), Turn(u, false), Turn(u, false), Turn(u, false)])
    ensures Run(s, [Turn(u, false), Turn(u, false), Turn(u, false), Turn(u, false)]) == s'
    ensures s'.threads == s.threads[u := Thread(KERNEL, In)]
    ensures s'.shared == s.shared.(kernelWaiters := s.shared.kernelWaiters + 1,
                                  word := s.shared.word.(contended := true))
  {
    var turn := Turn(u, false);
    var s1 := Step(s, u, false);
    var s2 := Step(s1, u, false);
    var s3 := Step(s2, u, false);
    s' := Step(s3, u, false);
    Unfold(s3, [turn]);
    assert [turn, turn][1..] == [turn] && [turn, turn, turn][1..] == [turn, turn];
    assert [turn, turn, turn, turn][1..] == [turn, turn, turn];
    Unfold(s2, [turn, turn]);
    Unfold(s1, [turn, turn, turn]);
    Unfold(s, [turn, turn, turn, turn]);
    assert s'.threads == s.threads[u := Thread(KERNEL, In)];
  }

  /** The unlock of t frees the word. */
  lemma FreeForAll(s: Lock, t: nat) returns (s': Lock)
    requires t < |s.threads| && s.threads[t].pc.FreeLoop? && s.shared.word.held
    ensures Legal(s, [Turn(t, false), Turn(t, false)]) && Run(s, [Turn(t, false), Turn(t, false)]) == s'
    ensures s'.threads == s.threads[t := s.threads[t].(pc := Out)]
    ensures s'.shared == s.shared.(word := Word(s.shared.word.context, false, false))
  {
    var turn := Turn(t, false);
    var s1 := Step(s, t, false);
    s' := Step(s1, t, false);
    Unfold(s1, [turn]);
    assert [turn, turn][1..] == [turn];
    Unfold(s, [turn, turn]);
    assert s'.threads == s.threads[t := s.threads[t].(pc := Out)];
  }

  lemma {:induction false} Append(s: Lock, a: seq<Turn>, b: seq<Turn>)
    requires Legal(s, a) && Legal(Run(s, a), b)
    ensures Legal(s, a + b) && Run(s, a + b) == Run(Run(s, a), b)
    decreases |a|
  {
    hide Can, Step;
    if a == [] {
      assert a + b == b;
    } else {
      assert (a + b)[1..] == a[1..] + b;
      Append(Step(s, a[0].thread, a[0].signal), a[1..], b);
    }
  }

  /** An unlock past its look at kernel_waiters frees the word, if need be at its second try. */
  lemma FreeAnyhow(s: Lock, t: nat) returns (run: seq<Turn>, s': Lock)
    requires t < |s.threads| && Freeing(s.threads[t]) && SeenFits(s.shared, s.threads[t]) && s.shared.word.held
    ensures Legal(s, run) && Run(s, run) == s'
    ensures s'.threads == s.threads[t := s.threads[t].(pc := Out)]
    ensures s'.shared == s.shared.(word := Word(s.shared.word.context, false, false))
  {
    hide Legal, Run;
    var turn := Turn(t, false);
    if s.threads[t].pc.FreeLoop? {
      s' := FreeForAll(s, t);
      run := [turn, turn];
    } else {
      var s1 := Step(s, t, false);
      OneTurn(s, turn);
      if s1.threads[t].pc.Out? {
        run, s' := [turn], s1;
        assert s'.threads == s.threads[t := s.threads[t].(pc := Out)];
      } else {
        s' := FreeForAll(s1, t);
        Append(s, [turn], [turn, turn]);
        run := [turn] + [turn, turn];
        assert s'.threads == s.threads[t := s.threads[t].(pc := Out)];
      }
    }
  }

  lemma OneTurn(s: Lock, turn: Turn)
    requires Can(s, turn.thread)
    ensures Legal(s, [turn]) && Run(s, [turn]) == Step(s, turn.thread, turn.signal)
  {
    hide Can, Step;
    var s1 := Step(s, turn.thread, turn.signal);
    assert Legal(s1, []) && Run(s1, []) == s1;
    Unfold(s, [turn]);
  }

  /** Every such race can break it: the idle-take of u finds the lock held and leaves it to the owner,
      whose unlock has already decided to free it for everybody. */
  lemma RaceBreaksPromise(s: Lock, u: nat)
    requires Inv(s) && Can(s, u) && Race(s, u)
    ensures exists run :: Legal(s, run) && !Promise(Run(s, run)) && !Run(s, run).shared.idleHasLock
                          && u < |Run(s, run).threads| && KernelIn(Run(s, run).threads[u])
                           && !Run(s, run).shared.word.held
  {
    hide Inv, Legal, Run;
    var t: nat :| t < |s.threads| && Freeing(s.threads[t]);
    MineFits(s, t);
    var s4 := TakeInVain(s, u);
    var b, s6 := FreeAnyhow(s4, t);
    var a := [Turn(u, false), Turn(u, false), Turn(u, false), Turn(u, false)];
    Append(s, a, b);
    assert KernelIn(s6.threads[u]) && !PromiseTo(s6.shared, s6.threads[u]);
    assert Legal(s, a + b) && Run(s, a + b) == s6;
  }

  // ---------------------------------------------------------------- from a fresh lock

  lemma InitPromise(contexts: seq<nat>)
    ensures Promise(Init(contexts))
  {
    var s := Init(contexts);
    assert forall t :: 0 <= t < |s.threads| ==> s.threads[t].pc == Out;
  }

  /** Over every race-free interleaving from a fresh lock: while an idle-take that has returned is not
      released, the lock is held, and no unlock is about to free it. */
  lemma FreshPromise(contexts: seq<nat>, run: seq<Turn>, t: nat)
    requires Legal(Init(contexts), run) && RaceFree(Init(contexts), run)
    ensures var s := Run(Init(contexts), run);
            t < |s.threads| && KernelIn(s.threads[t]) ==>
              s.shared.word.held && forall u :: 0 <= u < |s.threads| ==> !Freeing(s.threads[u])
  {
    hide Inv, Legal, Run, RaceFree, Init;
    InitInv(contexts);
    InitPromise(contexts);
    RunKeepsInv(Init(contexts), run);
    RaceFreeKeepsPromise(Init(contexts), run);
    var s := Run(Init(contexts), run);
    if t < |s.threads| && KernelIn(s.threads[t]) {
      CountedWaits(s, t);
      assert PromiseTo(s.shared, s.threads[t]);
      assert forall u :: 0 <= u < |s.threads| ==> PromiseTo(s.shared, s.threads[u]);
    }
  }

  /** A user alone takes the lock and begins to unlock it. */
  lemma UserBeginsUnlock() returns (run: seq<Turn>)
    ensures Legal(Init([1, 0]), run)
    ensures Run(Init([1, 0]), run)
            == Lock(Shared(Word(1, true, false), None, 0, 0, false), [Thread(1, FreeLoop), Thread(KERNEL, Out)])
  {
    hide Legal, Run;
    var turn := Turn(0, false);
    var s0 := Lock(Shared(ZERO, None, 0, 0, false), [Thread(1, Out), Thread(KERNEL, Out)]);
    assert Init([1, 0]) == s0;
    var s1 := Lock(Shared(ZERO, None, 0, 1, false), [Thread(1, Waiting), Thread(KERNEL, Out)]);
    var s2 := Lock(Shared(ZERO, Some(0), 0, 1, false), [Thread(1, TakeLocked), Thread(KERNEL, Out)]);
    var s3 := Lock(Shared(ZERO, Some(0), 0, 1, false), [Thread(1, TakeRead(ZERO)), Thread(KERNEL, Out)]);
    var s4 := Lock(Shared(Word(1, true, false), None, 0, 1, false), [Thread(1, Won), Thread(KERNEL, Out)]);
    var s5 := Lock(Shared(Word(1, true, false), None, 0, 0, false), [Thread(1, In), Thread(KERNEL, Out)]);
    var s6 := Lock(Shared(Word(1, true, false), None, 0, 0, false), [Thread(1, FreeLoop), Thread(KERNEL, Out)]);
    run := [];
    StartRun(s0);
    run := OneMore(s0, run, s0, turn, s1);
    run := OneMore(s0, run, s1, turn, s2);
    run := OneMore(s0, run, s2, turn, s3);
    run := OneMore(s0, run, s3, turn, s4);
    run := OneMore(s0, run, s4, turn, s5);
    run := OneMore(s0, run, s5, turn, s6);
  }

  lemma StartRun(s: Lock)
    ensures Legal(s, []) && Run(s, []) == s
  {
  }

  lemma OneMore(s: Lock, run: seq<Turn>, mid: Lock, turn: Turn, end: Lock) returns (longer: seq<Turn>)
    requires Legal(s, run) && Run(s, run) == mid
    requires Can(mid, turn.thread) && Step(mid, turn.thread, turn.signal) == end
    ensures longer == run + [turn] && Legal(s, longer) && Run(s, longer) == end
  {
    hide Legal, Run, Can, Step;
    OneTurn(mid, turn);
    Append(s, run, [turn]);
    longer := run + [turn];
  }

  /** The race is reached from a fresh lock with one user and one kernel thread, and so is a state in
      which the kernel waits for a lock that nobody holds. */
  lemma PromiseIsBroken()
    ensures exists run :: Legal(Init([1, 0]), run) && !Promise(Run(Init([1, 0]), run))
                          && !Run(Init([1, 0]), run).shared.word.held
  {
    hide Inv, Legal, Run, Promise;
    var a := UserBeginsUnlock();
    var s := Run(Init([1, 0]), a);
    InitInv([1, 0]);
    RunKeepsInv(Init([1, 0]), a);
    assert Freeing(s.threads[0]) && Race(s, 1);
    RaceBreaksPromise(s, 1);
    var b :| Legal(s, b) && !Promise(Run(s, b)) && !Run(s, b).shared.word.held;
    Append(Init([1, 0]), a, b);
    assert Legal(Init([1, 0]), a + b);
  }
}
