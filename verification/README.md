# Verified models of the DRM core

The project models the parts of the DRM code whose behaviour is hard to see from one function, and
proves what their callers rely on.  Each part is a specification on values (functions and atomic
steps), lemmas about it, and, where the code works in place, classes and methods that are proved to
compute that specification.

- **Range allocator and eviction** (`MmModel`, `MmAllocation`, `MmBestFit`, `MmColour`, `MmScan`, `MmScanOrder`,
  `MmEviction`, `MmManager`, `GemEvict`): the address-ordered node list with its hole flags and hole stack, the scan
  that unlinks nodes to ask what would become free, and the eviction loop built on it.  Main results:
  allocation fails exactly when there is no placement, with the colour callback or without; i915's colours
  never touch; the scan is an exact undo; eviction is sound and complete, and binding fails only when
  nothing fits even with everything evicted or when an object in the way cannot be unbound.
- **Vertical blanking** (`VblankModel`, `VblankRules`, `VblankSteps`, `VblankFate`, `VblankDelivery`,
  `VblankInterrupts`, `VblankDevice`, `TimestampRing`): one atomic step per section under vbl_lock,
  vblank_time_lock or event_lock.  Main results: references and event space are conserved; no event is lost, early or late, none is sent twice,
  and each is sent once as many intervals have been counted as it was ahead; whoever holds a reference has the
  interrupt, so none of these intervals goes uncounted; the lock-free reader returns matching pairs.
- **Heavyweight lock** (`HeavyLock`): one step per access to the lock word and per section under the
  spinlock.  Main results: mutual exclusion over every interleaving, and exactly which race defeats
  the promise made to the kernel's idle lock.
- **Mode setting** (`ModeEqual`, `PickCrtcs`, `ModeConfig`, `SetConfig`): the exhaustive CRTC search is
  optimal; a configuration succeeds exactly under the stated conditions, and rolls back otherwise.
- **Smaller parts**: the hash table refines a finite map (`HashTable`), DMA buffer layout
  (`DmaBuffers`), EDID fetch (`Edid`, VESA E-EDID 1.4 section 3.11), CVT timings (`CvtMode`, VESA CVT
  sections 5.3 and 5.4), and the mode option parser with the exact language it accepts (`ModeOption`).  `Lists`
  and `Arithmetic` serve all of them.

`dafny verify dfyconfig.toml` checks everything.

## Where the code differs from what is said of it

- The comment at drm/drm_mm.c:604 wants scanned nodes removed in the order in which they were added.
  That restores the list if and only if no two of them were neighbours: `MmScanOrder.SameOrderExact`.  The
  reverse order, which the eviction code uses, is always right.
- The search with `best_match` does not look for the tightest hole: `MmBestFit.BestIsNotTightest`; and in
  a manager of one byte it finds nothing: `MmBestFit.BestFailsExactly`.
- The comment at drm/drm_lock.c:348-359 says that an idle-take gets the lock when it is released.
  `HeavyLock.PromiseIsBroken` reaches a state in which it waits for a lock that nobody holds,
  `HeavyLock.RaceBreaksPromise` gets there from every race, and `HeavyLock.RaceFreeKeepsPromise` shows
  that there is no other way.
- `hash_64` shifts a 32-bit hash right by 64 - bits: `HashTable.Hash64IsZero`.  The table stays
  correct, with all items in one bucket.
- Lines longer than 100003 ns wrap the blanking percentage of drm_cvt_mode: `CvtMode.PercentageWraps`;
  and widths below 128 as well as 184 can leave the sync pulse outside the blanking:
  `CvtMode.OrderedWidths`.  From a total width of 4295 pixels on the product for the clock wraps:
  `CvtMode.Generate`, `CvtMode.WideClockWraps`.  From a field rate of 1819 Hz on, or 2174 Hz with reduced
  blanking, no time is left for lines and the negative numerator is divided as a large unsigned one:
  `CvtMode.PeriodIsTrue`, `CvtMode.FalsePeriod`.
- The byte counters of the addbufs calls are ints: a request of 2^31 bytes or more breaks the layout
  (`DmaBuffers.BufferSet.AddLinear`).  After AGP, SG or FB buffers the PCI call copies more of the page
  list than there is: `DmaBuffers.MixedKinds`, `DmaBuffers.CopyInBounds`.
- The mode option parser accepts more than the documented form, for example a size without a width:
  `ModeOption.AcceptedExactly`, `ModeOption.WidthMayBeMissing`.
- A hardware frame counter must run modulo max_vblank_count, not max_vblank_count + 1:
  `VblankRules.MissedExact`.

## Model

| member | source | states |
|---|---|---|
| MmAllocation.CheckFreeHoleExact | drm/drm_mm.c:372-385 | the hole test says yes exactly when the hole holds an aligned piece of the wanted size, and rounding the start up is then such a piece |
| MmAllocation.CheckFreeHoleWraps | drm/drm_mm.c:372-385 | 64-bit unsigned arithmetic gives the same answer, even for a reversed interval, as long as rounding and adding do not overflow |
| MmAllocation.SearchExact | drm/drm_mm.c:387-473 | the first-fit search fails exactly when no hole has an aligned placement between the bounds the colour callback gives for it, clamped to the range asked for |
| MmAllocation.GapExact | drm/drm_mm.c:401-423 | the test of one gap says yes exactly if there is such a placement, and its rounded-up start is the lowest |
| MmAllocation.SearchExactByAddress | drm/drm_mm.c:387-473 | without colouring: it fails exactly when no such placement exists anywhere in free address space |
| MmColour.SearchExactByColour | drm/i915/i915_gem_gtt.c:601-617 | with the callback of i915: it fails exactly when no hole has an aligned in-range piece that keeps a page away from each neighbour of another colour |
| MmBestFit.BestFailsExactly | drm/drm_mm.c:387-473 | with best_match the search fails exactly when no hole fits or a single byte is managed |
| MmBestFit.BestIsNotTightest | drm/drm_mm.c:419-422 | the hole it returns need not be the tightest that fits: 100 bytes are taken for a request of 10 although a hole of 10 is there |
| MmAllocation.InsertValid | drm/drm_mm.c:121-164 | after a successful search the node lands on free, aligned, in-range space inside the hole found, at the lowest placement the callback allows, and list order, hole flags and hole stack stay exact |
| MmAllocation.RemoveValid | drm/drm_mm.c:320-347 | removing any node keeps list, flags and stack exact; the predecessor's hole reaches over the freed space and is on top of the stack, and neither BUG_ON fires |
| MmAllocation.RemoveUndoesInsert | drm/drm_mm.c:121-164 | removing the node just inserted restores node list and flags |
| MmAllocation.RestIsNext | drm/drm_mm.c:121-164 | the newest hole comes first: if what an insertion left of its hole fits the next request, the next search returns it |
| MmAllocation.HoleIsNext | drm/drm_mm.c:320-347 | and so for the hole a removal opened |
| MmAllocation.UsedPlusFree | drm/drm_mm.c:691-726 | used and free bytes add up to the managed size |
| MmAllocation.InitValid | drm/drm_mm.c:644-667 | a fresh manager satisfies the invariants if and only if its range is not empty |
| MmAllocation.RunKeepsValid | drm/drm_mm.c:121-347 | over every run of insertions and removals: nodes ordered, disjoint, in range; flags and stack exact; used plus free constant |
| MmColour.InsertKeepsApart | drm/i915/i915_gem.c:3412-3440 | with the callback of i915 an inserted node passes i915_gem_valid_gtt_space, and no two allocated neighbours of different colours come to touch |
| MmColour.RunKeepsApart | drm/i915/i915_gem.c:3412-3795 | over every run of insertions, removals and changes of cache level no two such neighbours touch, so the check holds for every node |
| MmColour.InitApart | drm/drm_mm.c:644-667 | and a fresh manager starts so |
| MmScan.ScanIsExactUndo | drm/drm_mm.c:554-633 | any last-in first-out run of scan adds and removes can be unwound, and once nothing is scanned list, flags and stack are as before |
| MmScan.EvictTestExact | drm/drm_mm.c:630-632 | the eviction test picks exactly the nodes strictly between the two neighbours of the hole that was hit |
| MmScan.RemoveAnswers | drm/drm_mm.c:615-633 | after a hit, removing a node from the scan answers whether it lies in that hole, and the hole's neighbours stay linked |
| MmScan.NoHitNoEviction | drm/drm_mm.c:615-633 | without a hit every answer is 0 |
| MmScan.HitEdges | drm/drm_mm.c:554-600 | at a hit the two neighbours of the gap are side by side and the gap between them fits the request |
| MmScan.HitExact | drm/drm_mm.c:554-600 | a scanned node hits exactly when the gap between its neighbours has a placement by the standard of the search, colour callback included |
| MmScanOrder.SameOrderExact | drm/drm_mm.c:601-633 | nodes scanned in any sequence and removed in that same order, which the comment asks for, restore the list if and only if no two of them were neighbours |
| MmScanOrder.OrderMatters | drm/drm_mm.c:601-633 | for two nodes: same order restores the list if and only if they were not neighbours, reverse order always |
| MmEviction.RemoveAllValid | drm/drm_mm.c:320-347 | releasing any set of linked nodes in any order leaves exactly the others, in a valid manager |
| MmEviction.EvictAll | drm/drm_mm.c:320-347 | releasing the nodes between two linked neighbours in any order leaves one hole between these, on top of the stack |
| MmEviction.EvictionOpensHole | drm/drm_mm.c:554-633 | releasing the nodes named for eviction in any order opens the hole the scan hit, on top of the stack |
| MmEviction.EvictionSound | drm/drm_mm.c:554-633 | ... so the next search with the same parameters returns it, and the insertion lands inside it with a valid result |
| MmEviction.EvictionComplete | drm/i915/i915_gem_evict.c:79-119 | if the search failed and no offered node hits, the search still fails with all offered nodes released; without colouring no placement exists at all |
| MmManager.Manager.SearchFree | drm/drm_mm.c:387-473 | the loop over the hole stack returns the first fit, or with best_match, of the holes that fit, the first that lies behind a smallest node |
| MmManager.Manager.InsertHelper | drm/drm_mm.c:121-164 | the field updates of an insertion: node list, hole flags and stack afterwards |
| MmManager.Manager.InsertNode | drm/drm_mm.c:189-203 | 0 or -ENOSPC as the search decides; the new state is the specified one and valid, and a failure changes nothing |
| MmManager.Manager.RemoveNode | drm/drm_mm.c:320-347 | the new state is the specified one and valid |
| MmManager.Manager.InitScanning | drm/drm_mm.c:503-547 | the scan starts empty with no hit |
| MmManager.Manager.ScanAddBlock | drm/drm_mm.c:554-600 | unlinks the node in place as specified and reports the hit |
| MmManager.Manager.ScanRemoveBlock | drm/drm_mm.c:615-633 | relinks any scanned node whose remembered predecessor is linked, in place as specified, and reports whether it goes |
| MmManager.Manager.Totals | drm/drm_mm.c:691-726 | the totals that are printed cover the managed range |
| GemEvict.MarkFree | drm/i915/i915_gem_evict.c:34-42 | a pinned object is skipped; any other is put at the head of the unwind list and its node scanned |
| GemEvict.OfferAll | drm/i915/i915_gem_evict.c:88-101 | objects are offered in list order up to the first hit |
| GemEvict.CandidatesAre | drm/i915/i915_gem_evict.c:79-101 | the nodes offered are exactly those of unpinned objects on the inactive list and, unless the call must not block, on the active list |
| GemEvict.UnwindNone | drm/i915/i915_gem_evict.c:103-119 | without a hit the unwinding restores the manager exactly, and the BUG_ON never fires |
| GemEvict.UnwindFound | drm/i915/i915_gem_evict.c:121-136 | after a hit the unwinding restores the manager and collects exactly the objects whose nodes lie in the hole |
| GemEvict.UnbindAll | drm/i915/i915_gem_evict.c:138-150 | the answer is the first failure in list order, or 0; exactly the objects before it have given back their nodes |
| GemEvict.EvictSomething | drm/i915/i915_gem_evict.c:44-151 | without a hit: -ENOSPC, nothing changed, and after a failed search nothing could be found; with one: a non-empty list of unpinned candidates is unbound in turn, the answer is the first failure or 0, and with 0 the retried search succeeds |
| GemEvict.BindToGtt | drm/i915/i915_gem.c:3545-3564 | the retry loop ends after at most one eviction; it fails only with -ENOSPC, unchanged, when no placement exists even with all candidates evicted, or with the first failure to unbind; so it succeeds if something would fit and every candidate can be unbound |
| GemEvict.BoundPasses | drm/i915/i915_gem.c:3565 | the warning that follows never fires: the node bound passes i915_gem_valid_gtt_space |
| VblankRules.ReachedExactly | drm/drm_irq.c:1422 | for a target less than 2^32 - 2^23 counts ahead, the window test says "reached" exactly when the counter equals the target |
| VblankRules.AheadAfterCount | drm/drm_irq.c:1477-1502 | each count brings a waiting target exactly one nearer, across the 32-bit wrap |
| VblankRules.MissedExact | drm/drm_irq.c:970-992 | the missed-interval count of a hardware counter that has gone round less than once is exact if and only if it did not wrap or max_vblank_count is its period |
| VblankRules.FlushBalances | drm/drm_irq.c:1408-1440 | a pass over the pending list keeps reference counts and event space balanced |
| VblankRules.FlushIs | drm/drm_irq.c:1408-1440 | a pass sends exactly the events that are due, in list order, with the current count, and keeps the others in order |
| VblankSteps.StepKeepsInv | drm/drm_irq.c:1007-1513 | every atomic step keeps: each CRTC's count is its pending events, its mode-setting reference and its clients; each open file's space plus its events is 4096 and never negative; pending events wait for a target within the window |
| VblankFate.RunKeepsInv | drm/drm_irq.c:1007-1513 | ... hence every run of steps does |
| VblankFate.InitInv | drm/drm_irq.c:220-268 | and a new device starts with it |
| VblankFate.PutsFindReferences | drm/drm_irq.c:1054-1063 | every put finds a reference, so its BUG_ON never fires, over error paths, CRTC-off, file close and repeated pre and post modeset calls |
| VblankFate.QueuedExactly | drm/drm_irq.c:1224-1262 | a request waits for its count exactly if it lies 0 < n < 2^32 - 2^23 counts ahead; otherwise it is sent at once, or moved to the next count if the caller asked for that |
| VblankFate.StepFate | drm/drm_irq.c:1408-1440 | after any step a pending event is still pending and at most one count nearer, or delivered on time with its own sequence, or sent because its CRTC went off, or dropped with its file |
| VblankFate.NeverLate | drm/drm_irq.c:1477-1513 | an event whose count has come is being delivered at that moment |
| VblankFate.PendingKeepsInterrupt | drm/drm_irq.c:174-192 | the reference of a pending event keeps the timer from disabling its interrupt |
| VblankFate.NeitherLostEarlyNorLate | drm/drm_irq.c:1224-1513 | over every run that neither closes the file nor switches the CRTC off: the event is still pending, or has been delivered by the interrupt that brought the counter exactly to its target |
| VblankDelivery.SentByIs | drm/drm_irq.c:1224-1440 | what a step is said to send is what it appends to each file's queue, and a read takes the oldest event and nothing else |
| VblankDelivery.SentOnce | drm/drm_irq.c:1224-1440 | over every run no event is sent twice, and none that had already been sent or dropped |
| VblankDelivery.AheadIs | drm/drm_irq.c:1477-1502 | a pending event comes nearer by exactly the intervals counted on its CRTC |
| VblankDelivery.DeliveredExactlyOnce | drm/drm_irq.c:1224-1513 | a run that neither closes the file nor switches the CRTC off, counts as many intervals as the event was ahead and ends outside the interrupt has sent the event exactly once, to its file, with its target as sequence |
| VblankInterrupts.PendingHasInterrupt | drm/drm_irq.c:1007-1044 | over every run from a new device in which neither a CRTC is switched off nor the interrupt uninstalled: a CRTC with a reference has its interrupt enabled, hence every pending event has |
| VblankInterrupts.DeliveredByInterrupts | drm/drm_irq.c:1007-1513 | in such a run every interrupt of the event's CRTC that finds a new interval counts, so after as many of them as it was ahead the event has been sent exactly once |
| VblankInterrupts.SleepIsCounted | drm/drm_irq.c:949-992 | the intervals between switching the interrupt off and on again are added exactly if and only if the hardware counter did not wrap or max_vblank_count is its period |
| VblankDevice.VblankState.VblankGet | drm/drm_irq.c:1007-1044 | a success leaves the interrupt on and one reference more; it fails exactly if the interrupt was off and could not be enabled or somebody had a reference already, and then changes nothing; the count advances, by the intervals the hardware counter tells, exactly if the interrupt comes on |
| VblankDevice.VblankState.VblankPut | drm/drm_irq.c:1054-1063 | one reference less; requires one |
| VblankDevice.VblankState.PreModeset | drm/drm_irq.c:1116-1134 | one reference per mode set, however often it is called; what it gets, it gets like any other client |
| VblankDevice.VblankState.PostModeset | drm/drm_irq.c:1136-1153 | gives back exactly what the matching call got |
| VblankDevice.VblankState.DisableFn | drm/drm_irq.c:174-192 | the timer disables exactly the enabled interrupts nobody refers to, and stores their hardware counter |
| VblankDevice.VblankState.IrqUninstall | drm/drm_irq.c:448-460 | every interrupt is off and every hardware counter stored; references and events stay |
| VblankDevice.VblankState.HandleEvents | drm/drm_irq.c:1408-1440 | the loop that unlinks while it walks is the specified pass |
| VblankDevice.VblankState.HandleVblank | drm/drm_irq.c:1450-1517 | false and no change if the interrupt is off; otherwise the counting step followed by the delivering step |
| VblankDevice.VblankState.VblankOff | drm/drm_irq.c:1073-1105 | switches the interrupt off and sends every pending event of the CRTC |
| VblankDevice.VblankState.QueueVblankEvent | drm/drm_irq.c:1199-1272 | is the specified step on each path, including no memory and no event space |
| VblankDevice.VblankState.OpenFile | drm/drm_fops.c:354 | a new file has 4096 bytes of event space |
| VblankDevice.VblankState.EventsRelease | drm/drm_fops.c:497-519 | pending events of a closing file go with their references, whatever flips are in flight |
| VblankDevice.VblankState.DequeueEvent | drm/drm_fops.c:690-722 | the oldest event is returned with its space if the reader has room for it; otherwise nothing changes |
| VblankDevice.VblankState.PageFlip | drm/drm_crtc.c:3617-3652 | event space is reserved, and given back when the allocation or the flip fails |
| TimestampRing.ReaderMatches | drm/drm_irq.c:865-882 | over every interleaving with interrupts whose slot is written word by word, a read that is not delayed by a whole counter period returns the stamp stored for exactly the count it returns |
| TimestampRing.OneSlotTears | drm/drm_irq.c:865-882 | with one slot an interleaving returns half of the next stamp |
| TimestampRing.TwoSlotsNeeded | drm/drm_irq.c:1477-1502 | so the ring works if and only if it has at least two slots |
| HeavyLock.BitsRead | drm/drm_lock.c:210-250 | the bit masks of the lock word read back context, held bit and contention bit |
| HeavyLock.BitsDiffer | drm/drm_lock.c:210-250 | different words have different bits, so comparing words is comparing records |
| HeavyLock.BitsStore | drm/drm_lock.c:219-226 | the two words drm_lock_take stores are the held word with the contention bit, and the context holding it |
| HeavyLock.BitsZero | drm/drm_lock.c:42-43 | 0, which a failed compare-and-swap returns, is the bits of the free kernel word without contention and of no other |
| HeavyLock.TakeReturns | drm/drm_lock.c:210-250 | drm_lock_take returns 1 exactly when the word it replaced was not held, and never changes the owner of a held word |
| HeavyLock.TakeMarks | drm/drm_lock.c:210-250 | in every reachable state the swap succeeds exactly if the word is still what was seen; then who gets the lock marks it contended exactly when another thread is inside, and who finds it held marks it contended |
| HeavyLock.GiveUpClears | drm/drm_lock.c:252-397 | so do the other swaps: an unlock leaves the word free with its context, a transfer leaves it held by the kernel, an idle-release leaves it free, and none leaves the contention bit |
| HeavyLock.NeverExitsFalsely | drm/drm_lock.c:42-43 | a compare-and-swap whose failure would look like success cannot fail, in any reachable state |
| HeavyLock.StepKeepsInv | drm/drm_lock.c:210-397 | every step of every thread keeps: at most one owner, a truthful word and flag, a held lock owned by somebody |
| HeavyLock.StepKeepsWaiters | drm/drm_lock.c:361-397 | kernel_waiters and user_waiters count exactly the threads inside |
| HeavyLock.MutualExclusion | drm/drm_lock.c:210-397 | over every interleaving from a fresh lock: two users never own it, nor a user and the idle lock, and idle_has_lock implies that the kernel context holds the word |
| HeavyLock.RaceFreeKeepsPromise | drm/drm_lock.c:348-377 | while no idle-take begins between an unlock's look at kernel_waiters and its compare-and-swap, the lock is never free while the kernel waits |
| HeavyLock.RaceBreaksPromise | drm/drm_lock.c:286-313 | every such race, whether or not the unlock has read the word yet, can end with the kernel waiting for a lock that is free, against the comment's guarantee |
| HeavyLock.FreshPromise | drm/drm_lock.c:348-377 | over every race-free interleaving from a fresh lock: while the kernel waits the lock is held and no unlock is about to free it |
| HeavyLock.PromiseIsBroken | drm/drm_lock.c:286-377 | from a fresh lock with one user, a state is reached in which the kernel waits and nobody holds the lock |
| HeavyLock.KernelNeedsIt | drm/drm_lock.c:361-397 | over every interleaving from a fresh lock the idle lock is held only while some kernel thread is between drm_idlelock_take and the end of drm_idlelock_release |
| ModeEqual.SameIsEquivalence | drm/drm_modes.c:773-797 | mode equality is an equivalence although clocks are compared after a lossy conversion |
| ModeEqual.SameIsFieldwise | drm/drm_modes.c:773-797 | equal modes agree in each of the eleven compared fields, and in the picoseconds of their clocks |
| PickCrtcs.FirstUserDecides | drm/drm_fb_helper.c:1295-1306 | looking at the first user of a CRTC only settles sharing with all its users |
| PickCrtcs.WeightGains | drm/drm_fb_helper.c:1270-1276 | a connector with a CRTC weighs one, and one more each for being connected, on the command line and having a preferred mode |
| PickCrtcs.SkipCrtc | drm/drm_fb_helper.c:1289-1306 | a CRTC the code skips cannot be part of any valid completion |
| PickCrtcs.IsEligible | drm/drm_fb_helper.c:1289-1306 | the code's test admits exactly the CRTCs the encoder can drive and the earlier choices allow |
| PickCrtcs.Pick | drm/drm_fb_helper.c:1242-1323 | for every prefix of choices: the prefix stays, the completion left in the array is valid and has the weight returned, and with memory no valid completion has more |
| PickCrtcs.PickAll | drm/drm_fb_helper.c:1363 | called from the start: the best weight of all valid assignments |
| ModeConfig.Device.EncoderInUse | drm/drm_crtc_helper.c:219-227 | true exactly when a connector uses the encoder |
| ModeConfig.Device.CrtcInUse | drm/drm_crtc_helper.c:242-251 | true exactly when an encoder in use is driven by the CRTC |
| ModeConfig.Device.EncoderCrtcOk | drm/drm_crtc_helper.c:316-337 | true exactly when the CRTC's position is among those the encoder allows |
| ModeConfig.Device.DisableUnused | drm/drm_crtc_helper.c:275-307 | disconnected connectors lose their encoder, then unused encoders their CRTC, then unused CRTCs their framebuffer; all else stays |
| ModeConfig.Device.Disable | drm/drm_crtc_helper.c:510-532 | afterwards nothing is driven by the CRTC and it shows nothing |
| SetConfig.SetMode | drm/drm_crtc_helper.c:385-506 | succeeds exactly if the CRTC is not in use or memory, both fixups and the mode_set callback allow it; a failure leaves mode, position and hardware mode as they were; a success on a used CRTC programs the new ones |
| SetConfig.ChooseEncoders | drm/drm_crtc_helper.c:667-700 | listed connectors get their best encoder, others keep theirs; exactly the encoders left behind lose their CRTC; fails exactly when a listed connector has no encoder |
| SetConfig.RouteCrtcs | drm/drm_crtc_helper.c:702-736 | also when encoders are shared: every encoder ends with the CRTC the connectors give it in turn, and the step fails exactly when one of these turns asks for a CRTC its encoder cannot be driven by |
| SetConfig.UnsharedFails | drm/drm_crtc_helper.c:702-736 | when no encoder is shared, a connector fails exactly if its encoder cannot be driven by the CRTC it should get |
| SetConfig.RoutedFrom | drm/drm_crtc_helper.c:702-736 | and when none fails, every listed connector's encoder can be driven by the CRTC and, if no encoder is shared, is |
| SetConfig.RollBack | drm/drm_crtc_helper.c:787-808 | links and scan-out are as saved even after the old mode has been programmed again |
| SetConfig.Apply | drm/drm_crtc_helper.c:550-814 | the answer, as a function of the request, memory and the outcomes of the callbacks: a request without mode or framebuffer on a CRTC with helpers always succeeds; others exactly if there is memory, every listed connector has an encoder, the routing works and the mode set or flip that is needed is accepted; on every failing path each connector's encoder, each encoder's CRTC and each CRTC's framebuffer, mode and position are as at entry; on success listed connected connectors are routed and, unless an encoder is shared, the CRTC shows the new configuration |
| HashTable.EarlyExitIsExact | drm/drm_hashtab.c:73-89 | stopping at the first larger key misses nothing |
| HashTable.InsertRepresents | drm/drm_hashtab.c:111-135 | linking a new key where the walk stops keeps chains ascending, in their buckets and equal to the map |
| HashTable.RemoveRepresents | drm/drm_hashtab.c:181-198 | unlinking any item keeps them so |
| HashTable.Table.Find | drm/drm_hashtab.c:73-89 | finds what the map has under the key, or nothing |
| HashTable.Table.Insert | drm/drm_hashtab.c:111-135 | refused exactly when the key is there; otherwise the map gains it |
| HashTable.Table.RemoveKey | drm/drm_hashtab.c:181-191 | fails exactly when the key is not there; the map loses it, and its item may be inserted again |
| HashTable.Table.RemoveItem | drm/drm_hashtab.c:193-198 | the map loses the item's key, and the item may be inserted again |
| HashTable.Table.JustInsert | drm/drm_hashtab.c:142-164 | takes the first free key in cyclic order from the seed's hash; refused exactly when all 2^bits keys are used |
| HashTable.Hash32Fits | include/linux/hash.h:40-48 | the 32-bit hash stays below the number of buckets |
| HashTable.Hash64IsZero | include/linux/hash.h:31-38 | on 64-bit machines the shifted 32-bit hash is 0 for every key of a table of at most 2^32 buckets |
| DmaBuffers.Order | drm/drm_bufs.c:1755-1766 | the least order whose power of two holds the size |
| DmaBuffers.UnitCovers | drm/drm_bufs.c:738-745 | a buffer, page-aligned or not, fits the bytes set aside for it |
| DmaBuffers.BufferSet.FillLinear | drm/drm_bufs.c:806-841 | the loop numbers the buffers on, one alignment apart from the bytes counted before, and within the bytes counted after |
| DmaBuffers.BufferSet.FillPci | drm/drm_bufs.c:977-1038 | so do the nested loops over as few segments as hold the buffers, with one page entry per page, if and only if the last segment starts below 2^31 |
| DmaBuffers.PageAt | drm/drm_bufs.c:996-1003 | page i of segment s has the entry with its address |
| DmaBuffers.BufferSet.AddLinear | drm/drm_bufs.c:717-876 | each error in its case, and none of them if memory suffices; a failure leaves list and counters as they were; a success appends the buffers, once per order and one alignment apart, and numbering, disjointness and byte and page counts stay right if and only if the bytes fit an int |
| DmaBuffers.BufferSet.AddPci | drm/drm_bufs.c:880-1081 | the same for PCI segments after any mix of calls, over as few segments as hold the buffers, with the addresses of their pages behind the old page list; that list is copied in bounds if and only if it is complete, and is complete afterwards |
| DmaBuffers.CopyInBounds | drm/drm_bufs.c:961-972 | over every mix of calls the next copy is in bounds if and only if no linear call has added pages since the last PCI call |
| DmaBuffers.MixedKinds | drm/drm_bufs.c:961-972 | a linear call followed by a PCI call, both successful, copies beyond the end of the page list |
| DmaBuffers.BufferSet.Use | drm/drm_bufs.c:1468-1474 | refused exactly while buffers are being added; otherwise the layout is in use |
| DmaBuffers.LayoutIsFrozen | drm/drm_bufs.c:1468-1474 | buf_use and buf_alloc are never both nonzero, and once the layout is in use no call changes the buffer list until the device is set up again, over every interleaving |
| Edid.GoodStays | drm/drm_edid.c:169-217 | an accepted block is accepted again unchanged; an accepted base block has a right header, major version 1 and sum 0; an accepted extension sums to 0 unless its tag is 2 |
| Edid.FetchExact | drm/drm_edid.c:342-376 | a block is fetched exactly if one of the attempts that are made, four at most, brings a good one, and a transfer fails exactly if one of them does |
| Edid.PatchedIsGood | drm/drm_edid.c:387-391 | lowering the extension count and raising the checksum keeps the base block valid |
| Edid.FetchedIsValid | drm/drm_edid.c:248-261 | a fetched record passes drm_edid_is_valid as a whole and announces as many extensions as follow |
| Edid.BlockValid | drm/drm_edid.c:169-217 | accepts exactly the good blocks and repairs a nearly right header in place, touching nothing outside the block |
| Edid.FetchInto | drm/drm_edid.c:342-376 | up to four attempts in place, ending at the first good one, a failed transfer or a blank base block |
| Edid.FetchExtensions | drm/drm_edid.c:365-384 | the good extensions stand one after the other behind the base block, in order |
| Edid.GetEdid | drm/drm_edid.c:332-407 | for every behaviour of the wire: with memory it succeeds exactly when the base block is good and no transfer fails, and what it returns is one valid record |
| CvtMode.PercentageWraps | drm/drm_modes.c:209-214 | the blanked share is between 20 and 30 per cent if and only if a line takes at most 100003 ns; beyond, the unsigned subtraction wraps |
| CvtMode.BlankBounds | drm/drm_modes.c:209-217 | bounds of the blanking after it is rounded to character cells |
| CvtMode.WideIsOrdered | drm/drm_modes.c:218-224 | from 192 pixels on the sync pulse lies inside the blanking at every line period |
| CvtMode.OrderedWidths | drm/drm_modes.c:218-224 | the widths for which that holds at every period are exactly those from 192 on and those from 128 to 176 |
| CvtMode.PeriodIsZero | drm/drm_modes.c:179-187 | the line period, by which later steps divide, is 0 exactly when the unsigned time left has no nanosecond for each line |
| CvtMode.PeriodIsTrue | drm/drm_modes.c:179-187 | it is the true period if and only if time is left for lines |
| CvtMode.TimeIsLeft | drm/drm_modes.c:179-187 | which is so exactly up to a field rate of 1818 Hz, or 2173 Hz with reduced blanking |
| CvtMode.Borders | drm/drm_modes.c:124-148 | the picture is as wide as was asked for to within a character cell, and each border takes up to 1.8 per cent of it |
| CvtMode.VSyncByRatio | drm/drm_modes.c:154-166 | the width of the vertical sync pulse is 4, 5, 6 or 7 lines exactly for the aspect ratios 4:3, 16:9, 16:10, and 5:4 or 15:9, and 10 for any other |
| CvtMode.FalsePeriod | drm/drm_modes.c:179-187 | 640x480 at 1900 Hz: no time is left, and the period computed is 2291 ns |
| CvtMode.NotReduced | drm/drm_edid.c:538-545 | a full-blanking mode never looks like reduced blanking |
| CvtMode.Generate | drm/drm_modes.c:87-269 | the vertical blanking lasts the required minimum, a frame lasts as long as the refresh rate asks, to within the rounding of its lines, sync pulses lie inside the blanking, the clock is the largest step below the exact one if and only if the total width is below 4295, and mode_is_rb recognises the result exactly when reduced blanking was asked for |
| CvtMode.Clock | drm/drm_modes.c:262-263 | the clock is a multiple of 250 kHz, and the largest below the exact one if and only if the product does not wrap |
| CvtMode.WideClockWraps | drm/drm_modes.c:262-263 | 5120x2160 at 60 Hz wraps |
| ModeOption.NumberOf | drm/drm_modes.c:1038-1060 | a number ends where the next part of the option begins, and is held modulo 2^32 |
| ModeOption.ScanItem | drm/drm_modes.c:1037-1113 | one more part in front is read if and only if it may precede every part behind it |
| ModeOption.ParseText | drm/drm_modes.c:1011-1158 | an option put together from parts in such an order means what was written |
| ModeOption.AcceptedExactly | drm/drm_modes.c:1011-1158 | the parser accepts exactly these options |
| ModeOption.ParseDocumented | drm/drm_modes.c:1006-1009 | every option of the documented form with in-range numbers is accepted and means exactly what was written |
| ModeOption.WidthMayBeMissing | drm/drm_modes.c:1116-1122 | beyond that form, a size without a width is a mode 0 pixels wide |
| ModeOption.ParseCommandLine | drm/drm_modes.c:1011-1158 | the backward loop with its flags computes that meaning function on every string |

## Left out

- GemEvict.BindToGtt: pages, the allocation of the node, and the GTT binding after the retry loop are not modelled.
- GemEvict.UnbindAll: what unbinding does before it gives the node back is an arbitrary outcome per object; other objects stay bound meanwhile.
- MmManager.Manager.InsertNode: 64-bit overflow of addresses is not modelled, and the colour callback may only shrink the hole; i915's does, if `*end -= 4096` does not wrap.
- MmColour.RunKeepsApart: pinned objects, flushes and fences around a change of cache level; failures before the change, which leave everything as it was.
- MmManager.Manager.ScanRemoveBlock: a node whose remembered predecessor is itself still scanned would be linked outside the list; `MmScanOrder` covers that case on values.
- MmModel: the kernel's linked lists are sequences of node objects; only the predecessor link a scanned node keeps is a pointer.
- drm_mm_replace_node, drm_mm_clean, drm_mm_takedown, the cache of unused nodes and the allocation of nodes.
- VblankModel: the driver's callbacks, readings of the hardware counter, timestamps and the decision whether an interrupt is new are arbitrary inputs; wake-ups and waiting ioctls appear only as references held.
- VblankInterrupts.PendingHasInterrupt: drm_vblank_off and drm_irq_uninstall switch the interrupt off under its references, so runs with them are left out.
- VblankDevice.VblankState.DequeueEvent: waiting for an event and the copy to user space.
- VblankDevice.VblankState.EventsRelease: a page flip that completes after its file has been closed is not modelled.
- VblankDevice.VblankState.QueueVblankEvent: the reply to the ioctl and the user data of the event.
- VblankDevice.VblankState: the files of a device are a sequence of records that the methods reassign.
- VblankRules.MissedExact: a counter that goes round more than once between two readings.
- TimestampRing.ReaderMatches: memory is sequentially consistent; enabling and disabling clear the ring and are not interleaved with a read.
- HeavyLock.MutualExclusion: the lock word is also taken and freed by a compare-and-swap in user space, which is not part of this repository; unlocking by a non-holder is excluded.
- PickCrtcs.Pick: best_encoder is asked once per connector; CRTC masks are sets of positions.
- SetConfig.Apply: callbacks leave the core fields alone, and their outcomes are inputs; `enabled` and the hardware mode of the CRTC that was tried are not restored; that every requested connector ends on the CRTC is not provided by the code when encoders are shared.
- SetConfig.Apply: dpms calls, logging, reference counts of framebuffers and the mode_config lock.
- HashTable.Table: bucket chains are sequences of items; hash32_buf of the operating system is not part of this model and appears as its 32-bit result; the RCU variants are the same code.
- HashTable.Table.RemoveItem: the item's place is an argument, where the code has the item's own links.
- DmaBuffers.BufferSet.AddPci: after a call whose bytes do not fit an int nothing is claimed of later calls.
- DmaBuffers.BufferSet.AddLinear: which allocation fails when memory does not suffice; bus addresses, mappings, permissions and the AGP zone check beyond its outcome.
- Edid.GetEdid: counters of bad records, messages and the I2C transfers themselves.
- CvtMode.Generate: requests whose arithmetic overflows an int, the GTF variants and the mode's name.
- ModeOption.ParseCommandLine: the position of a parse error; numbers of 2^63 and more.
- GEM handles, ioctl dispatch, memory mapping, register access, mode tables and quirks: plumbing or finite data.
