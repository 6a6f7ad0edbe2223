/** find_connector_mode: the two-pass search for an output.  libdrm is
    abstracted into the records it hands back: a connector that
    drmModeGetConnector could not read is `readable == false`, and an
    encoder that drmModeGetEncoder could not read is `encoderCrtc == None`.
    The four daemon versions share this code and differ only in the
    preferred size they pass. */
module Connector {
  import opened Common

  datatype Mode = Mode(hdisplay: nat, vdisplay: nat)

  datatype Connector = Connector(
    readable: bool,           // drmModeGetConnector returned a record
    connected: bool,          // connection == DRM_MODE_CONNECTED
    id: nat,                  // connector_id
    encoderId: nat,           // encoder_id, 0 when there is none
    encoderCrtc: Option<nat>, // crtc_id of the encoder, None if it cannot be read;
                              // only consulted when encoderId != 0
    modes: seq<Mode>)

  datatype Resources = Resources(connectors: seq<Connector>, crtcs: seq<nat>)

  /** What the search hands back: the connector's index and the chosen mode's
      index (for the proofs), and the three out-parameters of the C code. */
  datatype Selection = Selection(index: nat, modeIndex: nat, connectorId: nat, crtc: nat, mode: Mode)

  predicate Usable(c: Connector) {
    c.readable && c.connected
  }

  predicate IsPreferred(m: Mode, w: nat, h: nat) {
    m.hdisplay == w && m.vdisplay == h
  }

  /** Connector i is a candidate of the first pass. */
  predicate PreferredAt(conns: seq<Connector>, i: nat, w: nat, h: nat)
    requires i < |conns|
  {
    Usable(conns[i]) && exists m :: 0 <= m < |conns[i].modes| && IsPreferred(conns[i].modes[m], w, h)
  }

  /** Connector i is a candidate of the second pass. */
  predicate FallbackAt(conns: seq<Connector>, i: nat)
    requires i < |conns|
  {
    Usable(conns[i]) && |conns[i].modes| > 0
  }

  /** The CRTC chosen for a connector: its encoder's CRTC when the encoder
      exists, can be read and has one; otherwise the first CRTC of the card;
      0 when the card has none. */
  function ChosenCrtc(c: Connector, crtcs: seq<nat>): (r: nat)
    ensures c.encoderId != 0 && c.encoderCrtc.Some? && c.encoderCrtc.value != 0 ==> r == c.encoderCrtc.value
    ensures !(c.encoderId != 0 && c.encoderCrtc.Some? && c.encoderCrtc.value != 0) ==>
      r == (if |crtcs| > 0 then crtcs[0] else 0)
  {
    var fromEncoder := if c.encoderId != 0 && c.encoderCrtc.Some? then c.encoderCrtc.value else 0;
    if fromEncoder == 0 && |crtcs| > 0 then crtcs[0] else fromEncoder
  }

  /** The CRTC lookup both passes perform. */
  method PickCrtc(c: Connector, crtcs: seq<nat>) returns (crtc: nat)
    ensures crtc == ChosenCrtc(c, crtcs)
  {
    crtc := 0;
    if c.encoderId != 0 {
      if c.encoderCrtc.Some? {
        crtc := c.encoderCrtc.value;
      }
    }
    if crtc == 0 && |crtcs| > 0 {
      crtc := crtcs[0];
    }
  }

  /** find_connector_mode with the preferred size prefW x prefH: the first
      usable connector that offers the preferred size wins, with the first
      such mode; only when none does, the first usable connector with any
      mode wins, with its first mode; None (-1) when resources are missing or
      no connector qualifies. */
  method FindConnectorMode(res: Option<Resources>, prefW: nat, prefH: nat) returns (sel: Option<Selection>)
    ensures res.None? ==> sel.None?
    ensures sel.Some? ==> (res.Some? &&
      var conns := res.value.connectors;
      var s := sel.value;
      s.index < |conns| && s.modeIndex < |conns[s.index].modes| &&
      s.connectorId == conns[s.index].id &&
      s.mode == conns[s.index].modes[s.modeIndex] &&
      s.crtc == ChosenCrtc(conns[s.index], res.value.crtcs))
    ensures res.Some? && (exists i :: 0 <= i < |res.value.connectors| && PreferredAt(res.value.connectors, i, prefW, prefH)) ==>
      sel.Some? &&
      PreferredAt(res.value.connectors, sel.value.index, prefW, prefH) &&
      (forall j :: 0 <= j < sel.value.index ==> !PreferredAt(res.value.connectors, j, prefW, prefH)) &&
      IsPreferred(sel.value.mode, prefW, prefH) &&
      (forall k :: 0 <= k < sel.value.modeIndex ==>
        !IsPreferred(res.value.connectors[sel.value.index].modes[k], prefW, prefH))
    ensures sel.None? <==>
      res.None? || forall i :: 0 <= i < |res.value.connectors| ==> !FallbackAt(res.value.connectors, i)
    ensures res.Some? && sel.Some? && (forall i :: 0 <= i < |res.value.connectors| ==> !PreferredAt(res.value.connectors, i, prefW, prefH)) ==>
      FallbackAt(res.value.connectors, sel.value.index) && sel.value.modeIndex == 0 &&
      (forall j :: 0 <= j < sel.value.index ==> !FallbackAt(res.value.connectors, j))
  {
    if res.None? {
      return None;
    }
    var conns := res.value.connectors;
    // preferred
    var i := 0;
    while i < |conns|
      invariant 0 <= i <= |conns|
      invariant forall j :: 0 <= j < i ==> !PreferredAt(conns, j, prefW, prefH)
    {
      var c := conns[i];
      if c.readable && c.connected {
        var m := 0;
        while m < |c.modes|
          invariant 0 <= m <= |c.modes|
          invariant forall k :: 0 <= k < m ==> !IsPreferred(c.modes[k], prefW, prefH)
        {
          if c.modes[m].hdisplay == prefW && c.modes[m].vdisplay == prefH {
            var crtc := PickCrtc(c, res.value.crtcs);
            assert IsPreferred(c.modes[m], prefW, prefH);
            assert PreferredAt(conns, i, prefW, prefH) && FallbackAt(conns, i);
            return Some(Selection(i, m, c.id, crtc, c.modes[m]));
          }
          m := m + 1;
        }
      }
      i := i + 1;
    }
    // fallback
    i := 0;
    while i < |conns|
      invariant 0 <= i <= |conns|
      invariant forall j :: 0 <= j < i ==> !FallbackAt(conns, j)
    {
      var c := conns[i];
      if c.readable && c.connected && |c.modes| != 0 {
        var crtc := PickCrtc(c, res.value.crtcs);
        assert FallbackAt(conns, i);
        return Some(Selection(i, 0, c.id, crtc, c.modes[0]));
      }
      i := i + 1;
    }
    return None;
  }
}
