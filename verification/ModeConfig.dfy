/** The objects of drm_crtc_helper.c and the helpers that look at them and switch them off.  What the
    driver's callbacks decide is left open; they do not touch the fields modelled here. */
module ModeConfig {
  import opened Lists
  import opened ModeEqual

  /** A framebuffer; `id` tells two of the same format apart. */
  datatype Fb = Fb(id: nat, depth: nat, bitsPerPixel: nat)

  /** What a mode set programs. */
  datatype Timing = Timing(mode: Mode, x: int, y: int, hwmode: Mode)

  class Crtc {
    var fb: Option<Fb>
    var mode: Mode
    var x: int
    var y: int
    var enabled: bool
    var hwmode: Mode

    constructor (mode: Mode)
      ensures fb == None && this.mode == mode && !enabled
    {
      fb, this.mode, x, y, enabled, hwmode := None, mode, 0, 0, false, mode;
    }

    function Timings(): Timing
      reads this`mode, this`x, this`y, this`hwmode
    {
      Timing(mode, x, y, hwmode)
    }

    method SetTimings(t: Timing)
      modifies this`mode, this`x, this`y, this`hwmode
      ensures Timings() == t
    {
      mode, x, y, hwmode := t.mode, t.x, t.y, t.hwmode;
    }

    method SetInUse(used: bool)
      modifies this`enabled, this`fb
      ensures enabled == used && fb == if used then old(fb) else None
    {
      enabled := used;
      if !used {
        fb := None;
      }
    }
  }

  /** `possible` has the positions of the CRTCs that can drive it. */
  class Encoder {
    const possible: set<nat>
    var crtc: Crtc?

    constructor (possible: set<nat>)
      ensures crtc == null && this.possible == possible
    {
      this.possible, crtc := possible, null;
    }
  }

  class Connector {
    const disconnected: bool
    var encoder: Encoder?

    constructor (disconnected: bool)
      ensures encoder == null && this.disconnected == disconnected
    {
      this.disconnected, encoder := disconnected, null;
    }
  }

  class Device {
    const crtcs: seq<Crtc>
    const encoders: seq<Encoder>
    const connectors: seq<Connector>

    constructor (crtcs: seq<Crtc>, encoders: seq<Encoder>, connectors: seq<Connector>)
      ensures this.crtcs == crtcs && this.encoders == encoders && this.connectors == connectors
    {
      this.crtcs, this.encoders, this.connectors := crtcs, encoders, connectors;
    }

    /** The lists have no repetitions, and links lead to objects of this device. */
    ghost predicate Valid()
      reads connectors, encoders
    {
      && Distinct(crtcs) && Distinct(encoders) && Distinct(connectors)
      && (forall i :: 0 <= i < |connectors| ==> connectors[i].encoder == null || connectors[i].encoder in encoders)
      && (forall j :: 0 <= j < |encoders| ==> encoders[j].crtc == null || encoders[j].crtc in crtcs)
    }

    ghost predicate UsesEncoder(e: Encoder)
      reads connectors
    {
      exists i :: 0 <= i < |connectors| && connectors[i].encoder == e
    }

    ghost predicate UsesCrtc(c: Crtc)
      reads connectors, encoders
    {
      exists j :: 0 <= j < |encoders| && encoders[j].crtc == c && UsesEncoder(encoders[j])
    }

    /** drm_helper_encoder_in_use */
    method EncoderInUse(e: Encoder) returns (used: bool)
      ensures used <==> UsesEncoder(e)
    {
      for i := 0 to |connectors|
        invariant forall k :: 0 <= k < i ==> connectors[k].encoder != e
      {
        if connectors[i].encoder == e {
          return true;
        }
      }
      return false;
    }

    /** drm_helper_crtc_in_use */
    method CrtcInUse(c: Crtc) returns (used: bool)
      ensures used <==> UsesCrtc(c)
    {
      for j := 0 to |encoders|
        invariant forall k :: 0 <= k < j ==> !(encoders[k].crtc == c && UsesEncoder(encoders[k]))
      {
        if encoders[j].crtc == c {
          var usesIt := EncoderInUse(encoders[j]);
          if usesIt {
            return true;
          }
        }
      }
      return false;
    }

    ghost predicate CanDrive(e: Encoder, c: Crtc) {
      exists k :: 0 <= k < |crtcs| && crtcs[k] == c && k in e.possible
    }

    /** drm_encoder_crtc_ok */
    method EncoderCrtcOk(e: Encoder, c: Crtc) returns (ok: bool)
      requires Distinct(crtcs) && c in crtcs
      ensures ok <==> CanDrive(e, c)
    {
      for k := 0 to |crtcs|
        invariant forall j :: 0 <= j < k ==> crtcs[j] != c
      {
        if crtcs[k] == c {
          return k in e.possible;
        }
      }
      return false;
    }

    // ---------------------------------------------------------------- switching off

    /** First loop of drm_helper_disable_unused_functions. */
    method DropDisconnected()
      requires Distinct(connectors)
      modifies connectors
      ensures forall i :: 0 <= i < |connectors| ==>
                connectors[i].encoder == if connectors[i].disconnected then null else old(connectors[i].encoder)
    {
      for i := 0 to |connectors|
        invariant forall k :: 0 <= k < i ==>
                    connectors[k].encoder == if connectors[k].disconnected then null else old(connectors[k].encoder)
        invariant forall k :: i <= k < |connectors| ==> connectors[k].encoder == old(connectors[k].encoder)
      {
        if connectors[i].encoder != null && connectors[i].disconnected {
          connectors[i].encoder := null;
        }
      }
    }

    /** Second loop: an encoder no connector uses loses its CRTC. */
    method DropEncoders()
      requires Distinct(encoders)
      modifies encoders
      ensures forall j :: 0 <= j < |encoders| ==>
                encoders[j].crtc == if UsesEncoder(encoders[j]) then old(encoders[j].crtc) else null
    {
      for j := 0 to |encoders|
        invariant forall k :: 0 <= k < j ==>
                    encoders[k].crtc == if UsesEncoder(encoders[k]) then old(encoders[k].crtc) else null
        invariant forall k :: j <= k < |encoders| ==> encoders[k].crtc == old(encoders[k].crtc)
      {
        var used := EncoderInUse(encoders[j]);
        if !used {
          encoders[j].crtc := null;
        }
      }
    }

    /** Third loop: a CRTC that drives no encoder in use loses its framebuffer. */
    method DropCrtcs()
      requires Distinct(crtcs)
      modifies crtcs
      ensures forall k :: 0 <= k < |crtcs| ==> crtcs[k].enabled == UsesCrtc(crtcs[k])
      ensures forall k :: 0 <= k < |crtcs| ==> crtcs[k].fb == if UsesCrtc(crtcs[k]) then old(crtcs[k].fb) else None
      ensures forall k :: 0 <= k < |crtcs| ==> crtcs[k].Timings() == old(crtcs[k].Timings())
    {
      hide UsesCrtc, UsesEncoder;
      for i := 0 to |crtcs|
        invariant forall k :: 0 <= k < i ==> crtcs[k].enabled == UsesCrtc(crtcs[k])
        invariant forall k :: 0 <= k < i ==> crtcs[k].fb == if UsesCrtc(crtcs[k]) then old(crtcs[k].fb) else None
        invariant forall k :: i <= k < |crtcs| ==> crtcs[k].fb == old(crtcs[k].fb)
        invariant forall k :: 0 <= k < |crtcs| ==> crtcs[k].Timings() == old(crtcs[k].Timings())
      {
        var used := CrtcInUse(crtcs[i]);
        crtcs[i].SetInUse(used);
      }
    }

    /** drm_helper_disable_unused_functions: connectors found disconnected are dropped, then encoders
        without a connector, then CRTCs without an encoder; everything else keeps its links. */
    method DisableUnused()
      requires Valid()
      modifies connectors, encoders, crtcs
      ensures Valid()
      ensures forall i :: 0 <= i < |connectors| ==>
                connectors[i].encoder == if connectors[i].disconnected then null else old(connectors[i].encoder)
      ensures forall j :: 0 <= j < |encoders| ==>
                encoders[j].crtc == if UsesEncoder(encoders[j]) then old(encoders[j].crtc) else null
      ensures forall k :: 0 <= k < |crtcs| ==> crtcs[k].enabled == UsesCrtc(crtcs[k])
      ensures forall k :: 0 <= k < |crtcs| ==> crtcs[k].fb == if UsesCrtc(crtcs[k]) then old(crtcs[k].fb) else None
      ensures forall k :: 0 <= k < |crtcs| ==> crtcs[k].Timings() == old(crtcs[k].Timings())
    {
      DropDisconnected();
      DropEncoders();
      DropCrtcs();
    }

    /** First half of drm_crtc_helper_disable: connectors lose the encoders that c drives. */
    method Decouple(c: Crtc)
      requires Valid()
      modifies connectors
      ensures Valid()
      ensures forall i :: 0 <= i < |connectors| ==>
                var e := old(connectors[i].encoder);
                connectors[i].encoder == if e != null && e.crtc == c then null else e
    {
      for j := 0 to |encoders|
        invariant forall i :: 0 <= i < |connectors| ==>
                    var e := old(connectors[i].encoder);
                    connectors[i].encoder == if e != null && e.crtc == c && e in encoders[..j] then null else e
      {
        if encoders[j].crtc == c {
          DecoupleEncoder(encoders[j]);
        }
        assert encoders[..j + 1] == encoders[..j] + [encoders[j]];
      }
      assert encoders[..|encoders|] == encoders;
    }

    method DecoupleEncoder(e: Encoder)
      requires Distinct(connectors)
      modifies connectors
      ensures forall i :: 0 <= i < |connectors| ==>
                connectors[i].encoder == if old(connectors[i].encoder) == e then null else old(connectors[i].encoder)
    {
      for i := 0 to |connectors|
        invariant forall k :: 0 <= k < i ==>
                    connectors[k].encoder
                    == if old(connectors[k].encoder) == e then null else old(connectors[k].encoder)
        invariant forall k :: i <= k < |connectors| ==> connectors[k].encoder == old(connectors[k].encoder)
      {
        if connectors[i].encoder == e {
          connectors[i].encoder := null;
        }
      }
    }

    /** drm_crtc_helper_disable: nothing is driven by c any more, and it has no framebuffer. */
    method Disable(c: Crtc)
      requires Valid() && c in crtcs
      modifies connectors, encoders, crtcs
      ensures Valid() && !UsesCrtc(c) && c.fb == None && !c.enabled
      ensures forall j :: 0 <= j < |encoders| ==> encoders[j].crtc != c
      ensures forall i :: 0 <= i < |connectors| ==>
                var e := old(connectors[i].encoder);
                connectors[i].encoder
                == if connectors[i].disconnected || (e != null && old(e.crtc) == c) then null else e
    {
      Decouple(c);
      DisableUnused();
    }
  }
}
