/** drm_crtc_helper_set_config: a configuration is routed and programmed step by step, and everything
    is put back when a step fails. */
module SetConfig {
  import opened Lists
  import opened ModeEqual
  import opened ModeConfig

  /** struct drm_mode_set; `hasHelper` says that the CRTC has helper functions, `hasSetBase` that
      mode_set_base is among them. */
  datatype ModeSet = ModeSet(crtc: Crtc?, hasHelper: bool, hasSetBase: bool, mode: Option<Mode>, x: int, y: int,
                             fb: Option<Fb>,
                             connectors: seq<Connector>)

  datatype Result = Done | InvalidArgument | OutOfMemory | DriverError(code: int)

  /** A copy of one CRTC's fields. */
  datatype Saved = Saved(fb: Option<Fb>, mode: Mode, x: int, y: int, enabled: bool, hwmode: Mode)

  function Save(c: Crtc): Saved
    reads c
  {
    Saved(c.fb, c.mode, c.x, c.y, c.enabled, c.hwmode)
  }

  // ---------------------------------------------------------------- one mode set

  /** What the allocation and the callbacks answer during one mode set; `fixed` is the mode as they have
      adjusted it. */
  datatype Answers = Answers(memory: bool, encoderFixup: Encoder -> bool, crtcFixup: bool, modeSet: bool, fixed: Mode)

  /** Nobody refuses. */
  ghost predicate Accepts(dev: Device, crtc: Crtc, a: Answers)
    reads dev.encoders
  {
    && a.memory && a.crtcFixup && a.modeSet
    && forall j :: 0 <= j < |dev.encoders| && dev.encoders[j].crtc == crtc ==> a.encoderFixup(dev.encoders[j])
  }

  /** drm_crtc_helper_set_mode: on a CRTC in use it succeeds exactly if nobody refuses, and then programs
      the mode; on any other there is nothing to do.  A failure puts the timings back; the links are not
      touched at all. */
  method SetMode(dev: Device, crtc: Crtc, mode: Mode, x: int, y: int, a: Answers) returns (ok: bool)
    modifies crtc
    ensures crtc.fb == old(crtc.fb) && crtc.enabled == dev.UsesCrtc(crtc)
    ensures ok <==> dev.UsesCrtc(crtc) ==> Accepts(dev, crtc, a)
    ensures crtc.Timings() == if ok && crtc.enabled then Timing(mode, x, y, a.fixed) else old(crtc.Timings())
  {
    hide dev.UsesCrtc;
    var used := dev.CrtcInUse(crtc);
    crtc.enabled := used;
    if !used {
      return true;
    }
    if !a.memory {
      return false;
    }
    var saved := crtc.Timings();
    crtc.SetTimings(Timing(mode, x, y, saved.hwmode));
    ok := Program(dev, crtc, a);
    crtc.SetTimings(if ok then Timing(mode, x, y, a.fixed) else saved);
  }

  /** The callbacks in order: each encoder's fix-up, the CRTC's, and its mode_set may refuse. */
  method Program(dev: Device, crtc: Crtc, a: Answers) returns (ok: bool)
    requires a.memory
    ensures ok <==> Accepts(dev, crtc, a)
  {
    for j := 0 to |dev.encoders|
      invariant forall k :: 0 <= k < j && dev.encoders[k].crtc == crtc ==> a.encoderFixup(dev.encoders[k])
    {
      if dev.encoders[j].crtc == crtc {
        ok := a.encoderFixup(dev.encoders[j]);
        if !ok {
          return;
        }
      }
    }
    ok := a.crtcFixup;
    if ok {
      ok := a.modeSet;
    }
  }

  // ---------------------------------------------------------------- routing

  /** What best_encoder answers for each connector of the device. */
  ghost predicate BestFits(dev: Device, best: seq<Encoder?>) {
    |best| == |dev.connectors| && forall i :: 0 <= i < |best| ==> best[i] == null || best[i] in dev.encoders
  }

  function Choice(listed: seq<Connector>, c: Connector, best: Encoder?, current: Encoder?): Encoder? {
    if c in listed then best else current
  }

  /** The encoders that step a leaves with the connectors. */
  ghost function Choices(dev: Device, listed: seq<Connector>, best: seq<Encoder?>): (r: seq<Encoder?>)
    requires |best| == |dev.connectors|
    reads dev.connectors
    ensures |r| == |best|
    ensures forall i :: 0 <= i < |r| ==> r[i] == Choice(listed, dev.connectors[i], best[i], dev.connectors[i].encoder)
  {
    seq(|best|, i requires 0 <= i < |best| && |best| == |dev.connectors| reads dev.connectors =>
      Choice(listed, dev.connectors[i], best[i], dev.connectors[i].encoder))
  }

  ghost predicate ConnectorsAre(dev: Device, saved: seq<Encoder?>)
    reads dev.connectors
  {
    |saved| == |dev.connectors| && forall i :: 0 <= i < |saved| ==> dev.connectors[i].encoder == saved[i]
  }

  ghost function Links(dev: Device): (r: seq<Encoder?>)
    reads dev.connectors
    ensures ConnectorsAre(dev, r)
  {
    seq(|dev.connectors|, i requires 0 <= i < |dev.connectors| reads dev.connectors => dev.connectors[i].encoder)
  }

  /** One of the first n connectors gives up encoder e. */
  ghost predicate LeftBehind(was: seq<Encoder?>, choices: seq<Encoder?>, n: nat, e: Encoder?)
    requires n <= |was| == |choices|
  {
    exists i :: 0 <= i < n && was[i] == e && choices[i] != e
  }

  /** Step a: listed connectors get their best encoder, the others keep theirs; an encoder that is left
      behind loses its CRTC. */
  method ChooseEncoders(dev: Device, listed: seq<Connector>, best: seq<Encoder?>) returns (failed: bool, changed: bool)
    requires dev.Valid() && BestFits(dev, best)
    modifies dev.connectors, dev.encoders
    ensures dev.Valid()
    ensures failed <==> exists i :: 0 <= i < |best| && dev.connectors[i] in listed && best[i] == null
    ensures ConnectorsAre(dev, old(Choices(dev, listed, best)))
    ensures changed <==> old(Links(dev)) != old(Choices(dev, listed, best))
    ensures forall j :: 0 <= j < |dev.encoders| ==>
              dev.encoders[j].crtc
              == if LeftBehind(old(Links(dev)), old(Choices(dev, listed, best)), |best|, dev.encoders[j])
                                      then null else old(dev.encoders[j].crtc)
  {
    hide LeftBehind, Choices, Links, Distinct;
    ghost var was, choices := Links(dev), Choices(dev, listed, best);
    LinksFit(dev, was, choices, listed, best);
    failed, changed := false, false;
    forall e {
      NoneLeft(was, choices, e);
    }
    for i := 0 to |dev.connectors|
      invariant failed <==> exists k :: 0 <= k < i && dev.connectors[k] in listed && best[k] == null
      invariant forall k :: 0 <= k < i ==> dev.connectors[k].encoder == choices[k]
      invariant forall k :: i <= k < |best| ==> dev.connectors[k].encoder == was[k]
      invariant changed <==> exists k :: 0 <= k < i && was[k] != choices[k]
      invariant forall j :: 0 <= j < |dev.encoders| ==>
                  dev.encoders[j].crtc
                  == if LeftBehind(was, choices, i, dev.encoders[j]) then null else old(dev.encoders[j].crtc)
    {
      forall j | 0 <= j < |dev.encoders| {
        OneMoreLeft(was, choices, i, dev.encoders[j]);
      }
      Alone(dev.connectors, i);
      var missing, moved := ChooseOne(dev, dev.connectors[i], dev.connectors[i] in listed, best[i]);
      failed := failed || missing;
      changed := changed || moved;
    }
    StillValid(dev, choices);
  }

  lemma Alone<T>(s: seq<T>, i: nat)
    requires Distinct(s) && i < |s|
    ensures forall k :: 0 <= k < |s| && k != i ==> s[k] != s[i]
  {
  }

  lemma StillValid(dev: Device, choices: seq<Encoder?>)
    requires Distinct(dev.crtcs) && Distinct(dev.encoders) && Distinct(dev.connectors) && ConnectorsAre(dev, choices)
    requires forall i :: 0 <= i < |choices| ==> choices[i] == null || choices[i] in dev.encoders
    requires forall j :: 0 <= j < |dev.encoders| ==> dev.encoders[j].crtc == null || dev.encoders[j].crtc in dev.crtcs
    ensures dev.Valid()
  {
  }

  /** One turn of step a. */
  method ChooseOne(dev: Device, c: Connector, isListed: bool, best: Encoder?) returns (missing: bool, moved: bool)
    requires c.encoder == null || c.encoder in dev.encoders
    modifies c, dev.encoders
    ensures missing == (isListed && best == null)
    ensures c.encoder == (if isListed then best else old(c.encoder)) && moved == (c.encoder != old(c.encoder))
    ensures forall j :: 0 <= j < |dev.encoders| ==>
              dev.encoders[j].crtc
              == if moved && dev.encoders[j] == old(c.encoder) then null else old(dev.encoders[j].crtc)
  {
    missing, moved := false, false;
    var chosen := c.encoder;
    if isListed {
      chosen := best;
      missing := chosen == null;
    }
    if chosen != c.encoder {
      moved := true;
      if c.encoder != null {
        c.encoder.crtc := null;
      }
      c.encoder := chosen;
    }
  }

  lemma LinksFit(dev: Device, was: seq<Encoder?>, choices: seq<Encoder?>, listed: seq<Connector>, best: seq<Encoder?>)
    requires dev.Valid() && BestFits(dev, best) && was == Links(dev) && choices == Choices(dev, listed, best)
    ensures |was| == |choices| == |best| == |dev.connectors|
    ensures Distinct(dev.crtcs) && Distinct(dev.encoders) && Distinct(dev.connectors)
    ensures forall j :: 0 <= j < |dev.encoders| ==> dev.encoders[j].crtc == null || dev.encoders[j].crtc in dev.crtcs
    ensures forall i :: 0 <= i < |was| ==>
              (was[i] == null || was[i] in dev.encoders) && (choices[i] == null || choices[i] in dev.encoders)
  {
  }

  lemma NoneLeft(was: seq<Encoder?>, choices: seq<Encoder?>, e: Encoder?)
    requires |was| == |choices|
    ensures !LeftBehind(was, choices, 0, e)
  {
  }

  lemma OneMoreLeft(was: seq<Encoder?>, choices: seq<Encoder?>, n: nat, e: Encoder?)
    requires n < |was| == |choices|
    ensures LeftBehind(was, choices, n + 1, e) <==> LeftBehind(was, choices, n, e) || (was[n] == e && choices[n] != e)
  {
  }

  /** The CRTC step b wants for a connector whose encoder has `current`. */
  function Wanted(crtc: Crtc, isListed: bool, current: Crtc?): Crtc? {
    if isListed then crtc else if current == crtc then null else current
  }

  /** One turn of step b. */
  method RouteOne(dev: Device, e: Encoder, isListed: bool, crtc: Crtc) returns (failed: bool, changed: bool)
    requires Distinct(dev.crtcs) && crtc in dev.crtcs && (e.crtc == null || e.crtc in dev.crtcs)
    modifies e
    ensures e.crtc == if failed then old(e.crtc) else Wanted(crtc, isListed, old(e.crtc))
    ensures changed <==> e.crtc != old(e.crtc)
    ensures failed <==>
            Wanted(crtc, isListed, old(e.crtc)) != null && !dev.CanDrive(e, Wanted(crtc, isListed, old(e.crtc)))
  {
    failed, changed := false, false;
    var chosen := if e.crtc == crtc then null else e.crtc;
    if isListed {
      chosen := crtc;
    }
    if chosen != null {
      var ok := dev.EncoderCrtcOk(e, chosen);
      if !ok {
        return true, false;
      }
    }
    if chosen != e.crtc {
      changed := true;
      e.crtc := chosen;
    }
  }

  /** Step b on values: connector after connector, the encoder it has (choices) gets the CRTC that is
      wanted, starting from the CRTCs in `start`.  An encoder that serves two connectors has two turns. */
  datatype Routing = Routing(dev: Device, listed: seq<Connector>, start: map<Encoder, Crtc?>, choices: seq<Encoder?>,
                             crtc: Crtc)
  {
    ghost predicate Fits() {
      && |choices| == |dev.connectors|
      && (forall j :: 0 <= j < |dev.encoders| ==> dev.encoders[j] in start)
      && forall i :: 0 <= i < |choices| && choices[i] != null ==> choices[i] in dev.encoders
    }

    /** The CRTC of e after the first n turns. */
    ghost function After(n: nat, e: Encoder): Crtc?
      requires Fits() && n <= |choices| && e in dev.encoders
    {
      if n == 0 then start[e]
      else
        var c := After(n - 1, e);
        if choices[n - 1] == e then Wanted(crtc, dev.connectors[n - 1] in listed, c) else c
    }

    /** What the i-th turn wants for its encoder. */
    ghost function Wish(i: nat): Crtc?
      requires Fits() && i < |choices| && choices[i] != null
    {
      Wanted(crtc, dev.connectors[i] in listed, After(i, choices[i]))
    }

    ghost predicate Fails(i: nat)
      requires Fits() && i < |choices|
    {
      choices[i] != null && Wish(i) != null && !dev.CanDrive(choices[i], Wish(i))
    }

    ghost predicate Moves(i: nat)
      requires Fits() && i < |choices|
    {
      choices[i] != null && Wish(i) != After(i, choices[i])
    }

    ghost predicate Works()
      requires Fits()
    {
      && (forall i :: 0 <= i < |choices| && dev.connectors[i] in listed ==> choices[i] != null)
      && forall i :: 0 <= i < |choices| ==> !Fails(i)
    }

    ghost predicate Changes()
      requires Fits()
    {
      exists i :: 0 <= i < |choices| && Moves(i)
    }

    /** The CRTC ends up in use. */
    ghost predicate Uses()
      requires Fits()
    {
      exists i :: 0 <= i < |choices| && choices[i] != null && After(|choices|, choices[i]) == crtc
    }

    lemma {:induction false} Untouched(n: nat, e: Encoder)
      requires Fits() && n <= |choices| && e in dev.encoders
      requires forall i :: 0 <= i < n ==> choices[i] != e || !Moves(i)
      ensures After(n, e) == start[e]
    {
      if n > 0 {
        Untouched(n - 1, e);
      }
    }

    /** An encoder that serves one connector only has one turn: a listed connector's gets the CRTC, any
        other one's loses it. */
    lemma {:induction false} Alone(n: nat, i: nat)
      requires Fits() && DistinctChoices(choices) && i < n <= |choices| && choices[i] != null
      ensures After(i, choices[i]) == start[choices[i]]
      ensures After(n, choices[i]) == if dev.connectors[i] in listed then crtc
                                      else if start[choices[i]] == crtc then null else start[choices[i]]
      decreases n
    {
      if n == i + 1 {
        Untouched(i, choices[i]);
      } else {
        Alone(n - 1, i);
      }
    }
  }

  ghost predicate DistinctChoices(choices: seq<Encoder?>) {
    forall i, k :: 0 <= i < k < |choices| && choices[i] != null ==> choices[i] != choices[k]
  }

  /** The device is where the routing stands after n turns. */
  ghost predicate Stands(p: Routing, n: nat)
    requires p.Fits() && n <= |p.choices|
    reads p.dev.connectors, p.dev.encoders
  {
    && ConnectorsAre(p.dev, p.choices)
    && forall j :: 0 <= j < |p.dev.encoders| ==> p.dev.encoders[j].crtc == p.After(n, p.dev.encoders[j])
  }

  /** One turn, on the device and on values. */
  lemma Turn(p: Routing, i: nat)
    requires p.Fits() && i < |p.choices| && Stands(p, i)
    ensures p.choices[i] == p.dev.connectors[i].encoder
    ensures p.choices[i] == null ==> !p.Fails(i) && !p.Moves(i)
    ensures p.choices[i] != null ==>
              var e := p.choices[i]; var w := Wanted(p.crtc, p.dev.connectors[i] in p.listed, e.crtc);
              && (p.Fails(i) <==> w != null && !p.dev.CanDrive(e, w)) && (p.Moves(i) <==> w != e.crtc)
              && e in p.dev.encoders && p.After(i + 1, e) == w
    ensures forall j :: 0 <= j < |p.dev.encoders| && p.dev.encoders[j] != p.choices[i] ==>
              p.After(i + 1, p.dev.encoders[j]) == p.dev.encoders[j].crtc
  {
  }

  /** With an encoder for each connector, a routing fails for the obvious reason only. */
  lemma UnsharedFails(p: Routing, i: nat)
    requires p.Fits() && DistinctChoices(p.choices) && i < |p.choices|
    ensures p.Fails(i) <==>
              p.choices[i] != null
              && if p.dev.connectors[i] in p.listed then !p.dev.CanDrive(p.choices[i], p.crtc)
                 else p.start[p.choices[i]] != null && p.start[p.choices[i]] != p.crtc
                      && !p.dev.CanDrive(p.choices[i], p.start[p.choices[i]])
  {
    if p.choices[i] != null {
      p.Alone(i + 1, i);
    }
  }

  /** Step b: the encoders of listed connectors get the CRTC, those of others lose it; an encoder no
      connector uses is left alone.  It fails exactly when a turn wants a CRTC that cannot drive the encoder. */
  method RouteCrtcs(dev: Device, listed: seq<Connector>, crtc: Crtc, ghost p: Routing)
    returns (failed: bool, changed: bool)
    requires dev.Valid() && crtc in dev.crtcs && p.dev == dev && p.listed == listed && p.crtc == crtc
    requires p.Fits() && Stands(p, 0)
    modifies dev.encoders
    ensures dev.Valid()
    ensures failed <==> exists i :: 0 <= i < |p.choices| && p.Fails(i)
    ensures !failed ==> Stands(p, |p.choices|) && (changed <==> p.Changes())
    ensures !changed ==> forall j :: 0 <= j < |dev.encoders| ==> dev.encoders[j].crtc == old(dev.encoders[j].crtc)
  {
    hide Distinct, p.Fits, p.After, p.Fails, p.Moves;
    failed, changed := false, false;
    for i := 0 to |dev.connectors|
      invariant dev.Valid() && |p.choices| == |dev.connectors|
      invariant Stands(p, i)
      invariant forall k :: 0 <= k < i ==> !p.Fails(k)
      invariant changed <==> exists k :: 0 <= k < i && p.Moves(k)
      invariant !changed ==> forall j :: 0 <= j < |dev.encoders| ==> dev.encoders[j].crtc == old(dev.encoders[j].crtc)
    {
      var e := dev.connectors[i].encoder;
      Turn(p, i);
      if e != null {
        var one, moved := RouteOne(dev, e, dev.connectors[i] in listed, crtc);
        changed := changed || moved;
        if one {
          return true, changed;
        }
      }
    }
  }

  /** Every listed connector has an encoder that the CRTC can drive, and the CRTC drives it unless an
      encoder serves two connectors. */
  ghost predicate Routed(dev: Device, listed: seq<Connector>, choices: seq<Encoder?>, crtc: Crtc)
    reads dev.connectors, dev.encoders
    requires |choices| == |dev.connectors|
  {
    && (forall i :: 0 <= i < |choices| ==>
          dev.connectors[i].encoder == choices[i] && (choices[i] == null || choices[i] in dev.encoders))
    && (forall i :: 0 <= i < |choices| && dev.connectors[i] in listed ==> choices[i] != null)
    && (forall i :: 0 <= i < |choices| && dev.connectors[i] in listed && choices[i] in dev.encoders ==>
          dev.CanDrive(choices[i], crtc) && (DistinctChoices(choices) ==> choices[i].crtc == crtc))
  }

  lemma RoutedFrom(p: Routing)
    requires p.Fits() && p.Works() && Stands(p, |p.choices|)
    ensures Routed(p.dev, p.listed, p.choices, p.crtc)
  {
    forall i | 0 <= i < |p.choices| && p.dev.connectors[i] in p.listed
      ensures p.dev.CanDrive(p.choices[i], p.crtc)
      ensures DistinctChoices(p.choices) ==> p.choices[i].crtc == p.crtc
    {
      assert !p.Fails(i);
      if DistinctChoices(p.choices) {
        p.Alone(|p.choices|, i);
      }
    }
  }

  lemma NothingLeft(was: seq<Encoder?>)
    ensures forall e :: !LeftBehind(was, was, |was|, e)
  {
  }

  /** The routing that a request amounts to: what step a leaves for step b. */
  ghost function Plan(dev: Device, listed: seq<Connector>, best: seq<Encoder?>, crtc: Crtc): (p: Routing)
    requires dev.Valid() && BestFits(dev, best)
    reads dev.connectors, dev.encoders
    ensures p.Fits() && p.dev == dev && p.listed == listed && p.crtc == crtc && p.choices == Choices(dev, listed, best)
  {
    var was, choices := Links(dev), Choices(dev, listed, best);
    Routing(dev, listed, map e | e in dev.encoders :: if LeftBehind(was, choices, |best|, e) then null else e.crtc,
            choices, crtc)
  }

  /** The request moves an encoder or a CRTC. */
  ghost predicate Reroutes(dev: Device, listed: seq<Connector>, best: seq<Encoder?>, crtc: Crtc)
    requires dev.Valid() && BestFits(dev, best)
    reads dev.connectors, dev.encoders
  {
    Links(dev) != Choices(dev, listed, best) || Plan(dev, listed, best, crtc).Changes()
  }

  /** Steps a and b. */
  method Route(dev: Device, listed: seq<Connector>, best: seq<Encoder?>, crtc: Crtc)
    returns (failed: bool, changed: bool)
    requires dev.Valid() && BestFits(dev, best) && crtc in dev.crtcs
    modifies dev.connectors, dev.encoders
    ensures dev.Valid()
    ensures failed <==> !old(Plan(dev, listed, best, crtc)).Works()
    ensures !failed ==> var p := old(Plan(dev, listed, best, crtc)); Stands(p, |p.choices|)
    ensures !failed ==> (changed <==> old(Reroutes(dev, listed, best, crtc)))
    ensures !failed ==> Routed(dev, listed, old(Choices(dev, listed, best)), crtc)
    ensures !changed ==> forall i :: 0 <= i < |best| ==> dev.connectors[i].encoder == old(dev.connectors[i].encoder)
    ensures !changed ==> forall j :: 0 <= j < |dev.encoders| ==> dev.encoders[j].crtc == old(dev.encoders[j].crtc)
  {
    hide LeftBehind, Distinct, Routed, Links, Choices;
    ghost var p, was := Plan(dev, listed, best, crtc), Links(dev);
    failed, changed := ChooseEncoders(dev, listed, best);
    NothingLeft(was);
    if failed {
      return;
    }
    var moved;
    failed, moved := RouteCrtcs(dev, listed, crtc, p);
    changed := changed || moved;
    if !failed {
      RoutedFrom(p);
    }
  }

  // ---------------------------------------------------------------- saving and restoring

  ghost predicate CrtcsAre(dev: Device, saved: seq<Saved>)
    reads dev.crtcs
  {
    |saved| == |dev.crtcs| && forall k :: 0 <= k < |saved| ==> Save(dev.crtcs[k]) == saved[k]
  }

  ghost predicate EncodersAre(dev: Device, saved: seq<Crtc?>)
    reads dev.encoders
  {
    |saved| == |dev.encoders| && forall j :: 0 <= j < |saved| ==> dev.encoders[j].crtc == saved[j]
  }

  method SaveAll(dev: Device) returns (crtcs: seq<Saved>, encoders: seq<Crtc?>, connectors: seq<Encoder?>)
    ensures CrtcsAre(dev, crtcs) && EncodersAre(dev, encoders) && ConnectorsAre(dev, connectors)
  {
    crtcs, encoders, connectors := [], [], [];
    for k := 0 to |dev.crtcs|
      invariant |crtcs| == k && forall m :: 0 <= m < k ==> Save(dev.crtcs[m]) == crtcs[m]
    {
      crtcs := crtcs + [Save(dev.crtcs[k])];
    }
    for j := 0 to |dev.encoders|
      invariant |encoders| == j && forall m :: 0 <= m < j ==> dev.encoders[m].crtc == encoders[m]
    {
      encoders := encoders + [dev.encoders[j].crtc];
    }
    for i := 0 to |dev.connectors|
      invariant |connectors| == i && forall m :: 0 <= m < i ==> dev.connectors[m].encoder == connectors[m]
    {
      connectors := connectors + [dev.connectors[i].encoder];
    }
  }

  method RestoreCrtcs(dev: Device, saved: seq<Saved>)
    requires Distinct(dev.crtcs) && |saved| == |dev.crtcs|
    modifies dev.crtcs
    ensures CrtcsAre(dev, saved)
  {
    for k := 0 to |dev.crtcs|
      invariant forall m :: 0 <= m < k ==> Save(dev.crtcs[m]) == saved[m]
    {
      Overwrite(dev.crtcs[k], saved[k]);
    }
  }

  method Overwrite(c: Crtc, s: Saved)
    modifies c
    ensures Save(c) == s
  {
    c.fb, c.mode, c.x, c.y, c.enabled, c.hwmode := s.fb, s.mode, s.x, s.y, s.enabled, s.hwmode;
  }

  method RestoreEncoders(dev: Device, saved: seq<Crtc?>)
    requires Distinct(dev.encoders) && |saved| == |dev.encoders|
    modifies dev.encoders
    ensures EncodersAre(dev, saved)
  {
    for j := 0 to |dev.encoders|
      invariant forall m :: 0 <= m < j ==> dev.encoders[m].crtc == saved[m]
    {
      dev.encoders[j].crtc := saved[j];
    }
  }

  method RestoreConnectors(dev: Device, saved: seq<Encoder?>)
    requires Distinct(dev.connectors) && |saved| == |dev.connectors|
    modifies dev.connectors
    ensures ConnectorsAre(dev, saved)
  {
    for i := 0 to |dev.connectors|
      invariant forall m :: 0 <= m < i ==> dev.connectors[m].encoder == saved[m]
    {
      dev.connectors[i].encoder := saved[i];
    }
  }

  // ---------------------------------------------------------------- the whole operation

  /** Links and scan-out are as saved; only the CRTC that was tried may differ, and only in `enabled`
      and `hwmode`. */
  ghost predicate RolledBack(dev: Device, crtc: Crtc, crtcs: seq<Saved>, encoders: seq<Crtc?>,
                             connectors: seq<Encoder?>)
    reads dev.crtcs, dev.encoders, dev.connectors
  {
    && EncodersAre(dev, encoders) && ConnectorsAre(dev, connectors) && |crtcs| == |dev.crtcs|
    && forall k :: 0 <= k < |crtcs| ==>
         Save(dev.crtcs[k]) == crtcs[k].(enabled := dev.crtcs[k].enabled, hwmode := dev.crtcs[k].hwmode)
         && (dev.crtcs[k] != crtc ==> Save(dev.crtcs[k]) == crtcs[k])
  }

  /** The fail path, and its attempt to program the old configuration again. */
  method RollBack(dev: Device, crtc: Crtc, crtcs: seq<Saved>, encoders: seq<Crtc?>, connectors: seq<Encoder?>,
                  reprogram: bool, a: Answers)
    requires Distinct(dev.crtcs) && Distinct(dev.encoders) && Distinct(dev.connectors) && crtc in dev.crtcs
    requires |crtcs| == |dev.crtcs| && |encoders| == |dev.encoders| && |connectors| == |dev.connectors|
    modifies dev.crtcs, dev.encoders, dev.connectors
    ensures RolledBack(dev, crtc, crtcs, encoders, connectors)
  {
    hide Distinct;
    RestoreCrtcs(dev, crtcs);
    RestoreEncoders(dev, encoders);
    RestoreConnectors(dev, connectors);
    if reprogram {
      var ok := SetMode(dev, crtc, crtc.mode, crtc.x, crtc.y, a);
    }
  }

  /** Another buffer or another position */
  ghost predicate Shifted(crtc: Crtc, x: int, y: int, fb: Fb)
    reads crtc
  {
    crtc.fb != Some(fb) || crtc.x != x || crtc.y != y
  }

  /** Another mode or another format */
  ghost predicate Differs(crtc: Crtc, mode: Mode, fb: Fb)
    reads crtc
  {
    || !Same(mode, crtc.mode)
    || crtc.fb.None? || fb.depth != crtc.fb.value.depth || fb.bitsPerPixel != crtc.fb.value.bitsPerPixel
  }

  /** Whether a full mode set or a new base is needed. */
  method Compare(crtc: Crtc, mode: Mode, x: int, y: int, fb: Fb) returns (modeChanged: bool, fbChanged: bool)
    ensures !modeChanged && !fbChanged <==> Shows(crtc, mode, x, y, fb)
    ensures modeChanged <==> Differs(crtc, mode, fb)
    ensures !modeChanged ==> (fbChanged <==> Shifted(crtc, x, y, fb))
    ensures fbChanged ==> Shifted(crtc, x, y, fb)
  {
    modeChanged, fbChanged := false, false;
    if crtc.fb != Some(fb) {
      if crtc.fb == None || fb.depth != crtc.fb.value.depth || fb.bitsPerPixel != crtc.fb.value.bitsPerPixel {
        modeChanged := true;
      } else {
        fbChanged := true;
      }
    }
    if x != crtc.x || y != crtc.y {
      fbChanged := true;
    }
    if !Same(mode, crtc.mode) {
      modeChanged := true;
    }
  }

  /** The configuration that was asked for. */
  ghost predicate Shows(crtc: Crtc, mode: Mode, x: int, y: int, fb: Fb)
    reads crtc
  {
    crtc.fb == Some(fb) && crtc.x == x && crtc.y == y && Same(mode, crtc.mode)
  }

  /** The full mode set, and the clean-up after it.  Whoever still uses the CRTC sees the new
      configuration. */
  method FullModeSet(dev: Device, crtc: Crtc, mode: Mode, x: int, y: int, fb: Fb, a: Answers) returns (ok: bool)
    requires dev.Valid() && crtc in dev.crtcs
    modifies dev.connectors, dev.encoders, dev.crtcs
    ensures dev.Valid()
    ensures ok <==> old(dev.UsesCrtc(crtc) ==> Accepts(dev, crtc, a))
    ensures ok ==> forall i :: 0 <= i < |dev.connectors| && !dev.connectors[i].disconnected ==>
                     dev.connectors[i].encoder == old(dev.connectors[i].encoder)
    ensures ok ==> forall j :: 0 <= j < |dev.encoders| && dev.UsesEncoder(dev.encoders[j]) ==>
                     dev.encoders[j].crtc == old(dev.encoders[j].crtc)
    ensures ok && old(dev.UsesCrtc(crtc)) && dev.UsesCrtc(crtc) ==> Shows(crtc, mode, x, y, fb)
  {
    hide dev.UsesCrtc, dev.UsesEncoder, Distinct, Accepts;
    var used := dev.CrtcInUse(crtc);
    crtc.enabled := used;
    if used {
      var oldFb := crtc.fb;
      crtc.fb := Some(fb);
      ok := SetMode(dev, crtc, mode, x, y, a);
      if !ok {
        crtc.fb := oldFb;
        return;
      }
    }
    ok := true;
    dev.DisableUnused();
  }

  /** What a caller gets: every listed connector that is not disconnected keeps its chosen encoder,
      which can drive the CRTC; unless an encoder serves two connectors, it does, and the CRTC shows the
      new configuration. */
  ghost predicate Delivered(dev: Device, listed: seq<Connector>, choices: seq<Encoder?>, crtc: Crtc, mode: Mode,
                            x: int, y: int, fb: Fb)
    requires |choices| == |dev.connectors|
    reads dev.connectors, dev.encoders, crtc
  {
    forall i :: 0 <= i < |choices| && dev.connectors[i] in listed && !dev.connectors[i].disconnected ==>
      && choices[i] != null && choices[i] in dev.encoders
      && dev.connectors[i].encoder == choices[i] && dev.CanDrive(choices[i], crtc)
      && (DistinctChoices(choices) ==> choices[i].crtc == crtc && Shows(crtc, mode, x, y, fb))
  }

  /** A full mode set delivers what has been routed. */
  method ModeSetRouted(dev: Device, listed: seq<Connector>, ghost choices: seq<Encoder?>, crtc: Crtc, mode: Mode,
                       x: int, y: int, fb: Fb, a: Answers)
    returns (ok: bool)
    requires dev.Valid() && crtc in dev.crtcs && |choices| == |dev.connectors| && Routed(dev, listed, choices, crtc)
    modifies dev.connectors, dev.encoders, dev.crtcs
    ensures dev.Valid()
    ensures ok <==> old(dev.UsesCrtc(crtc) ==> Accepts(dev, crtc, a))
    ensures ok ==> Delivered(dev, listed, choices, crtc, mode, x, y, fb)
  {
    hide Distinct, Same;
    ghost var routed := DistinctChoices(choices);
    assert routed ==> forall i :: 0 <= i < |choices| && dev.connectors[i] in listed ==>
                        choices[i] in dev.encoders && choices[i].crtc == crtc
                        && dev.UsesEncoder(choices[i]) && dev.UsesCrtc(crtc);
    ok := FullModeSet(dev, crtc, mode, x, y, fb, a);
  }

  /** The flip of an otherwise unchanged configuration; mode_set_base answers `code`. */
  method Flip(crtc: Crtc, x: int, y: int, fb: Fb, code: int)
    modifies crtc
    ensures code == 0 ==> crtc.fb == Some(fb) && crtc.x == x && crtc.y == y && crtc.mode == old(crtc.mode)
  {
    crtc.x := x;
    crtc.y := y;
    var oldFb := crtc.fb;
    crtc.fb := Some(fb);
    if code != 0 {
      crtc.fb := oldFb;
    }
  }

  /** A full mode set is needed. */
  ghost predicate NeedsModeSet(dev: Device, q: ModeSet, best: seq<Encoder?>)
    requires dev.Valid() && BestFits(dev, best) && q.crtc != null && q.mode.Some? && q.fb.Some?
    reads dev.connectors, dev.encoders, q.crtc
  {
    || Differs(q.crtc, q.mode.value, q.fb.value)
    || Reroutes(dev, q.connectors, best, q.crtc)
    || (Shifted(q.crtc, q.x, q.y, q.fb.value) && !q.hasSetBase)
  }

  /** Nobody refuses the mode on a CRTC that the routing leaves in use. */
  ghost predicate ModeSetSucceeds(p: Routing, a: Answers)
    requires p.Fits()
  {
    p.Uses() ==>
      && a.memory && a.crtcFixup && a.modeSet
      && forall j :: 0 <= j < |p.dev.encoders| && p.After(|p.choices|, p.dev.encoders[j]) == p.crtc ==>
           a.encoderFixup(p.dev.encoders[j])
  }

  /** The answer to a request for a mode and a framebuffer, once there is memory. */
  ghost function ConfigureAnswer(dev: Device, q: ModeSet, best: seq<Encoder?>, a: Answers, code: int): Result
    requires dev.Valid() && BestFits(dev, best) && q.crtc != null && q.mode.Some? && q.fb.Some?
    reads dev.connectors, dev.encoders, q.crtc
  {
    var p := Plan(dev, q.connectors, best, q.crtc);
    if !p.Works() then InvalidArgument
    else if NeedsModeSet(dev, q, best) then (if ModeSetSucceeds(p, a) then Done else InvalidArgument)
    else if Shifted(q.crtc, q.x, q.y, q.fb.value) && code != 0 then DriverError(code)
    else Done
  }

  /** The answer to every request: switching off always succeeds. */
  ghost function Answer(dev: Device, request: Option<ModeSet>, best: seq<Encoder?>, memory: bool, a: Answers,
                        code: int): Result
    requires dev.Valid() && BestFits(dev, best)
    reads dev.connectors, dev.encoders, if request.Some? then {request.value.crtc} else {}
  {
    if request.None? || request.value.crtc == null || !request.value.hasHelper then InvalidArgument
    else if request.value.mode.None? || request.value.fb.None? then Done
    else if !memory then OutOfMemory
    else ConfigureAnswer(dev, request.value, best, a, code)
  }

  /** In the routed device: the CRTC is in use, and accepts the mode, exactly as the plan says. */
  lemma RoutedUse(p: Routing, a: Answers)
    requires p.Fits() && Stands(p, |p.choices|)
    ensures (p.dev.UsesCrtc(p.crtc) ==> Accepts(p.dev, p.crtc, a)) <==> ModeSetSucceeds(p, a)
  {
    PlanUses(p);
    hide p.dev.UsesCrtc, p.Uses;
  }

  lemma PlanUses(p: Routing)
    requires p.Fits() && Stands(p, |p.choices|)
    ensures p.dev.UsesCrtc(p.crtc) <==> p.Uses()
  {
    if p.Uses() {
      var i :| 0 <= i < |p.choices| && p.choices[i] != null && p.After(|p.choices|, p.choices[i]) == p.crtc;
      assert p.dev.connectors[i].encoder == p.choices[i];
      assert p.dev.UsesEncoder(p.choices[i]);
    }
    if p.dev.UsesCrtc(p.crtc) {
      var j :| 0 <= j < |p.dev.encoders| && p.dev.encoders[j].crtc == p.crtc && p.dev.UsesEncoder(p.dev.encoders[j]);
      var i :| 0 <= i < |p.dev.connectors| && p.dev.connectors[i].encoder == p.dev.encoders[j];
      assert p.choices[i] == p.dev.encoders[j];
    }
  }

  lemma StillRouted(dev: Device, listed: seq<Connector>, choices: seq<Encoder?>, crtc: Crtc, mode: Mode, x: int,
                    y: int, fb: Fb)
    requires |choices| == |dev.connectors| && Routed(dev, listed, choices, crtc) && Shows(crtc, mode, x, y, fb)
    ensures Delivered(dev, listed, choices, crtc, mode, x, y, fb)
  {
    hide Shows;
  }

  /** What is left once the routing stands: the full mode set, the flip, or nothing. */
  method Show(dev: Device, q: ModeSet, a: Answers, code: int, modeChanged: bool, fbChanged: bool, ghost p: Routing)
    returns (r: Result)
    requires dev.Valid() && q.crtc != null && q.crtc in dev.crtcs && q.mode.Some? && q.fb.Some?
    requires p.Fits() && p.dev == dev && p.crtc == q.crtc && p.listed == q.connectors
    requires Stands(p, |p.choices|) && Routed(dev, q.connectors, p.choices, q.crtc)
    requires !modeChanged ==> !Differs(q.crtc, q.mode.value, q.fb.value)
    requires !modeChanged ==> (fbChanged <==> Shifted(q.crtc, q.x, q.y, q.fb.value))
    modifies dev.connectors, dev.encoders, dev.crtcs
    ensures r == if modeChanged then (if ModeSetSucceeds(p, a) then Done else InvalidArgument)
                 else if fbChanged && code != 0 then DriverError(code) else Done
    ensures r.Done? ==> Delivered(dev, q.connectors, p.choices, q.crtc, q.mode.value, q.x, q.y, q.fb.value)
  {
    hide Delivered, Routed, Same, Accepts, Stands, ModeSetSucceeds, dev.UsesCrtc;
    var crtc, mode, x, y, fb := q.crtc, q.mode.value, q.x, q.y, q.fb.value;
    RoutedUse(p, a);
    r := Done;
    if modeChanged {
      var ok := ModeSetRouted(dev, q.connectors, p.choices, crtc, mode, x, y, fb, a);
      r := if ok then Done else InvalidArgument;
    } else {
      if fbChanged {
        Flip(crtc, x, y, fb, code);
        r := if code != 0 then DriverError(code) else Done;
      }
      if r.Done? {
        ShowsIt(crtc, mode, x, y, fb);
        StillRouted(dev, q.connectors, p.choices, crtc, mode, x, y, fb);
      }
    }
  }

  /** Everything after the checks and the allocations: routing, programming, and rolling back.  `a` is what
      the mode set meets, `again` what the attempt to restore the old mode does. */
  method Configure(dev: Device, q: ModeSet, best: seq<Encoder?>, a: Answers, again: Answers, code: int,
                   crtcs: seq<Saved>, encoders: seq<Crtc?>, connectors: seq<Encoder?>)
    returns (r: Result)
    requires dev.Valid() && q.crtc != null && q.crtc in dev.crtcs && BestFits(dev, best)
    requires q.mode.Some? && q.fb.Some?
    requires CrtcsAre(dev, crtcs) && EncodersAre(dev, encoders) && ConnectorsAre(dev, connectors)
    modifies dev.connectors, dev.encoders, dev.crtcs
    ensures r == old(ConfigureAnswer(dev, q, best, a, code))
    ensures r.Done? ==> Delivered(dev, q.connectors, old(Choices(dev, q.connectors, best)), q.crtc, q.mode.value,
                                  q.x, q.y, q.fb.value)
    ensures !r.Done? ==> RolledBack(dev, q.crtc, crtcs, encoders, connectors)
  {
    hide Delivered, Routed, Differs, Shows, Shifted, RolledBack, CrtcsAre, Plan, Reroutes, Stands,
         ModeSetSucceeds;
    var crtc := q.crtc;
    ghost var p := Plan(dev, q.connectors, best, crtc);
    SavedSizes(dev, crtcs);
    var modeChanged, fbChanged := Compare(crtc, q.mode.value, q.x, q.y, q.fb.value);
    var failed, moved := Route(dev, q.connectors, best, crtc);
    modeChanged := modeChanged || moved;
    r := Done;
    if failed {
      r := InvalidArgument;
    } else {
      if fbChanged && !q.hasSetBase {
        modeChanged := true;
      }
      r := Show(dev, q, a, code, modeChanged, fbChanged, p);
    }
    if !r.Done? {
      RollBack(dev, crtc, crtcs, encoders, connectors, modeChanged, again);
    }
  }

  lemma SavedSizes(dev: Device, crtcs: seq<Saved>)
    requires CrtcsAre(dev, crtcs)
    ensures |crtcs| == |dev.crtcs|
  {
  }

  lemma ShowsIt(crtc: Crtc, mode: Mode, x: int, y: int, fb: Fb)
    requires crtc.fb == Some(fb) && crtc.x == x && crtc.y == y && Same(mode, crtc.mode)
    ensures Shows(crtc, mode, x, y, fb)
  {
  }

  /** drm_crtc_helper_set_config; `best` is what each connector's best_encoder answers, `memory` whether the
      backups can be allocated, `a` what the mode set meets and `code` what mode_set_base answers.  The
      result is the specified one for each request, and a failure leaves every link and every scan-out as it
      was. */
  method Apply(dev: Device, request: Option<ModeSet>, best: seq<Encoder?>, memory: bool, a: Answers, again: Answers,
               code: int)
    returns (r: Result)
    requires dev.Valid() && BestFits(dev, best)
    requires request.Some? && request.value.crtc != null ==> request.value.crtc in dev.crtcs
    modifies dev.connectors, dev.encoders, dev.crtcs
    ensures r == old(Answer(dev, request, best, memory, a, code))
    ensures !r.Done? ==> forall i :: 0 <= i < |dev.connectors| ==>
              dev.connectors[i].encoder == old(dev.connectors[i].encoder)
    ensures !r.Done? ==> forall j :: 0 <= j < |dev.encoders| ==> dev.encoders[j].crtc == old(dev.encoders[j].crtc)
    ensures !r.Done? ==> forall k :: 0 <= k < |dev.crtcs| ==>
                           var c := dev.crtcs[k];
                           Save(c) == old(Save(c)).(enabled := c.enabled, hwmode := c.hwmode)
                           && (request.None? || c != request.value.crtc ==> Save(c) == old(Save(c)))
    ensures r.Done? ==> request.Some? && request.value.crtc != null && request.value.hasHelper
    ensures r.Done? ==> var q := request.value;
                        if q.mode.None? || q.fb.None? then q.crtc.fb == None && !dev.UsesCrtc(q.crtc)
                        else Delivered(dev, q.connectors, old(Choices(dev, q.connectors, best)), q.crtc,
                                        q.mode.value, q.x, q.y, q.fb.value)
  {
    hide Delivered, Distinct, Same, ConfigureAnswer;
    if request.None? || request.value.crtc == null || !request.value.hasHelper {
      return InvalidArgument;
    }
    var q := request.value;
    if q.mode.None? || q.fb.None? {
      dev.Disable(q.crtc);
      return Done;
    }
    if !memory {
      return OutOfMemory;
    }
    var crtcs, encoders, connectors := SaveAll(dev);
    r := Configure(dev, q, best, a, again, code, crtcs, encoders, connectors);
  }
}
