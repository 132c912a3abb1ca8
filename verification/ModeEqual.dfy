/** drm_mode_equal: when two display modes count as the same. */
module ModeEqual {
  /** The fields drm_mode_equal compares; `clock` is in kHz. */
  datatype Mode = Mode(clock: nat, hdisplay: int, hsyncStart: int, hsyncEnd: int, htotal: int, hskew: int,
                       vdisplay: int, vsyncStart: int, vsyncEnd: int, vtotal: int, vscan: int, flags: int)

  /** KHZ2PICOS */
  function Picos(clock: nat): nat
    requires clock > 0
  {
    1_000_000_000 / clock
  }

  predicate Same(a: Mode, b: Mode) {
    && (if a.clock != 0 && b.clock != 0 then Picos(a.clock) == Picos(b.clock) else a.clock == b.clock)
    && a.(clock := 0) == b.(clock := 0)
  }

  /** Modes that count as the same agree in every field but the clock, whose picoseconds agree. */
  lemma SameIsFieldwise(a: Mode, b: Mode)
    ensures Same(a, b) <==>
              && a.hdisplay == b.hdisplay && a.hsyncStart == b.hsyncStart && a.hsyncEnd == b.hsyncEnd
              && a.htotal == b.htotal && a.hskew == b.hskew
              && a.vdisplay == b.vdisplay && a.vsyncStart == b.vsyncStart && a.vsyncEnd == b.vsyncEnd
              && a.vtotal == b.vtotal && a.vscan == b.vscan && a.flags == b.flags
              && (a.clock == 0 <==> b.clock == 0)
              && (a.clock != 0 && b.clock != 0 ==> 1_000_000_000 / a.clock == 1_000_000_000 / b.clock)
  {
  }

  /** It is an equivalence although clocks are compared after a lossy conversion. */
  lemma SameIsEquivalence(a: Mode, b: Mode, c: Mode)
    ensures Same(a, a)
    ensures Same(a, b) <==> Same(b, a)
    ensures Same(a, b) && Same(b, c) ==> Same(a, c)
  {
  }
}
