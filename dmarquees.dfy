/** dmarquees.c, the current daemon: display-rights arbitration
    (try_reset_crtc), the default marquee, the persistent dumb framebuffer and
    one iteration of the main loop with its RetroArch hold timer.

    Everything the loop cannot see is an input: what read() returned, the
    clock, the outcome of each kernel call and the files on disk (default
    marquees, ROM marquees and MAME ini files, keyed by name). */
module Dmarquees {
  import opened Common
  import opened Raster
  import opened Helpers

  const PreferredW: nat := 1920
  const PreferredH: nat := 1080
  const CrtcResetHoldSec: int := 10

  // ---------------------------------------------------------------------
  // Inputs
  // ---------------------------------------------------------------------

  /** Outcomes of the kernel calls of one try_reset_crtc: drmSetMaster,
      drmModeSetCrtc and drmDropMaster (whose failure is only logged, and
      leaves master rights with the daemon). */
  datatype Kernel = Kernel(masterOk: bool, crtcOk: bool, dropOk: bool)

  /** A ROM marquee that exists on disk: the PNG decoder fails or succeeds. */
  datatype RomFile = Undecodable | Decoded(img: Image)

  /** The files the daemon reads: default marquees that decode (a name that
      is absent fails to load), ROM marquees (absent: stat fails) and the
      lines of MAME ini files (absent: fopen fails). */
  datatype Files = Files(defaults: map<string, Image>, roms: map<string, RomFile>, inis: map<string, seq<string>>)

  predicate ValidFiles(f: Files) {
    (forall n :: n in f.defaults ==> ValidImage(f.defaults[n])) &&
    (forall n :: n in f.roms && f.roms[n].Decoded? ==> ValidImage(f.roms[n].img))
  }

  /** What one read() of the FIFO gives: open() failed, nothing (n <= 0), or
      n bytes. */
  datatype Event = FifoError | NoData | Data(chars: seq<char>)

  /** Everything one loop iteration consumes.  nullCmd is what
      toCommandType(NULL) yields when the hold retry falls through to the
      dispatcher without a command; toCommandType is not part of this model. */
  datatype Input = Input(ev: Event, now: int, nullCmd: Command, retry: Kernel, reset: Kernel, files: Files)

  predicate ValidInput(inp: Input) {
    ValidFiles(inp.files) && (inp.ev.Data? ==> 1 <= |inp.ev.chars| <= 127)
  }

  // ---------------------------------------------------------------------
  // Pure parts
  // ---------------------------------------------------------------------

  /** default_marquee_name_for. */
  function DefaultMarqueeName(m: FrontendMode): (name: string)
    ensures m == SA <==> name == "MAMELogoR"
    ensures m == RA <==> name == "RetroArch_logo"
    ensures m == NA <==> name == "RetroPieMarquee"
  {
    match m
    case SA => "MAMELogoR"
    case RA => "RetroArch_logo"
    case NA => "RetroPieMarquee"
  }

  /** The kernel calls of one try_reset_crtc. */
  function ResetTrace(k: Kernel): seq<DrmCall> {
    if !k.masterOk then [SetMaster(false)] else [SetMaster(true), SetCrtc, DropMaster(k.dropOk)]
  }

  /** try_reset_crtc's promise: drmModeSetCrtc is issued only with master
      rights, and a drop of master is then issued exactly once, last,
      whether or not the mode set worked. */
  lemma ResetTraceShape(k: Kernel)
    ensures ResetTrace(k)[0] == SetMaster(k.masterOk)
    ensures SetCrtc in ResetTrace(k) <==> k.masterOk
    ensures multiset(ResetTrace(k))[SetCrtc] <= 1
    ensures multiset(ResetTrace(k))[DropMaster(k.dropOk)] == if k.masterOk then 1 else 0
    ensures k.masterOk ==> ResetTrace(k)[|ResetTrace(k)| - 1] == DropMaster(k.dropOk)
  {
    if k.masterOk {
      assert ResetTrace(k) == [SetMaster(true)] + [SetCrtc] + [DropMaster(k.dropOk)];
    }
  }

  /** The command the FIFO bytes stand for: trim over buf[0..n) followed by a
      NUL. */
  function ReadCommand(chars: seq<char>): string {
    TrimStr(CStr(chars + ['\0']))
  }

  /** The pixels after drawing a marquee into the bottom half of a buffer of
      vd rows, stride pixels apart: rows vd/2 .. vd-1 are cleared, then, if
      the image loaded, it is stretched over hd columns and vd/2 rows from
      row vd/2. */
  function MarqueeFrame(d: seq<bv32>, hd: nat, vd: nat, stride: nat, img: Option<Image>): seq<bv32>
    requires img.Some? ==> ValidImage(img.value)
  {
    var cleared := Filled(d, (vd / 2) * stride, vd * stride, 0);
    if img.None? then cleared else Blitted(cleared, stride, 0, vd / 2, hd, vd / 2, img.value)
  }

  // ---------------------------------------------------------------------
  // The daemon's state and what one step does to it
  // ---------------------------------------------------------------------

  /** The globals of dmarquees.c that the loop touches: the chosen mode's
      size, the row pitch in pixels, the frontend mode, g_ra_init_hold (0:
      inactive), running, whether fb_map is mapped, the mapped pixels and the
      kernel calls issued so far. */
  datatype DaemonState = DaemonState(
    hd: nat, vd: nat, stridePx: nat,
    mode: FrontendMode, hold: int, running: bool,
    mapped: bool, fb: seq<bv32>, calls: seq<DrmCall>)

  function LoadDefault(files: Files, m: FrontendMode): (img: Option<Image>)
    requires ValidFiles(files)
    ensures img.Some? ==> ValidImage(img.value)
  {
    var name := DefaultMarqueeName(m);
    if name in files.defaults then Some(files.defaults[name]) else None
  }

  /** show_default_marquee: nothing without a mapping; otherwise the bottom
      half is redrawn with the current mode's default marquee (left black
      when it does not load), and in RetroArch mode a drawn marquee is
      followed by try_reset_crtc. */
  function ShowDefaultSpec(s: DaemonState, files: Files, k: Kernel): DaemonState
    requires ValidFiles(files)
  {
    if !s.mapped then s
    else
      var img := LoadDefault(files, s.mode);
      s.(fb := MarqueeFrame(s.fb, s.hd, s.vd, s.stridePx, img),
         calls := if img.Some? && s.mode == RA then s.calls + ResetTrace(k) else s.calls)
  }

  /** The hold retry: one try_reset_crtc; success ends the hold, failure
      re-arms it one second later. */
  function RetrySpec(s: DaemonState, now: int, k: Kernel): DaemonState {
    s.(calls := s.calls + ResetTrace(k), hold := if k.masterOk && k.crtcOk then 0 else now + 1)
  }

  function IniFor(files: Files, name: string): Option<seq<string>> {
    if name in files.inis then Some(files.inis[name]) else None
  }

  /** The dispatcher: the new state and whether the loop goes on. */
  function DispatchSpec(s: DaemonState, c: Command, now: int, files: Files, k: Kernel): (DaemonState, bool)
    requires ValidFiles(files)
  {
    match c
    case CmdRA => (ShowDefaultSpec(s.(mode := RA), files, k), true)
    case CmdSA => (ShowDefaultSpec(s.(mode := SA), files, k), true)
    case CmdNA => (ShowDefaultSpec(s.(mode := NA), files, k), true)
    case Exit => (s.(running := false), false)
    case Clear => (ShowDefaultSpec(s, files, k), true)
    case Rom(name) =>
      if MultiScreens(IniFor(files, name)) then (s, true)
      else if name !in files.roms || files.roms[name].Undecodable? then (ShowDefaultSpec(s, files, k), true)
      else
        var img := files.roms[name].img;
        (s.(fb := if s.mapped then MarqueeFrame(s.fb, s.hd, s.vd, s.stridePx, Some(img)) else s.fb,
            hold := if s.mode == RA then now + CrtcResetHoldSec else s.hold), true)
  }

  /** One iteration of the main loop: the new state and whether it goes on. */
  function StepSpec(s: DaemonState, inp: Input): (DaemonState, bool)
    requires ValidInput(inp)
  {
    match inp.ev
    case FifoError => (s, false)
    case NoData =>
      if s.hold != 0 && inp.now > s.hold then
        DispatchSpec(RetrySpec(s, inp.now, inp.retry), inp.nullCmd, inp.now, inp.files, inp.reset)
      else (s, true)
    case Data(chars) => DispatchSpec(s, ParseCommand(ReadCommand(chars)), inp.now, inp.files, inp.reset)
  }

  // ---------------------------------------------------------------------
  // What a marquee frame looks like
  // ---------------------------------------------------------------------

  /** Drawing a marquee never touches rows 0 .. vdisplay/2 - 1, the half that
      belongs to the other display client. */
  lemma MarqueeFrameKeepsTop(d: seq<bv32>, hd: nat, vd: nat, stride: nat, img: Option<Image>)
    requires img.Some? ==> ValidImage(img.value)
    ensures forall i :: 0 <= i < |d| && i < (vd / 2) * stride ==> MarqueeFrame(d, hd, vd, stride, img)[i] == d[i]
  {
    forall i | 0 <= i < |d| && i < (vd / 2) * stride
      ensures MarqueeFrame(d, hd, vd, stride, img)[i] == d[i]
    {
      if stride > 0 {
        RowBounds(stride, i, vd / 2);
      }
    }
  }

  /** Pixel (x, y) of the bottom half: inside the hdisplay x vdisplay/2 box
      from row vdisplay/2 it is the sample of the image, everywhere else
      (the margin right of the mode, an odd last row, or every pixel when the
      image did not load) it is black. */
  lemma MarqueeFrameBottom(d: seq<bv32>, hd: nat, vd: nat, stride: nat, img: Option<Image>, x: nat, y: nat)
    requires img.Some? ==> ValidImage(img.value)
    requires |d| == vd * stride && hd <= stride
    requires x < stride && vd / 2 <= y < vd
    ensures y * stride + x < |d|
    ensures MarqueeFrame(d, hd, vd, stride, img)[y * stride + x] ==
      if img.Some? && x < hd && y - vd / 2 < vd / 2 then PixelFor(img.value, hd, vd / 2, x, y - vd / 2) else 0
  {
    var i := y * stride + x;
    RowCol(stride, y, x);
    MulMonoLeft(y + 1, vd, stride);
    MulMonoLeft(vd / 2, y, stride);
  }

  /** A marquee frame depends only on the top half it is drawn under. */
  lemma MarqueeFrameTopOnly(d1: seq<bv32>, d2: seq<bv32>, hd: nat, vd: nat, stride: nat, img: Option<Image>)
    requires img.Some? ==> ValidImage(img.value)
    requires |d1| == |d2| == vd * stride
    requires forall i :: 0 <= i < (vd / 2) * stride ==> d1[i] == d2[i]
    ensures MarqueeFrame(d1, hd, vd, stride, img) == MarqueeFrame(d2, hd, vd, stride, img)
  {
    var z1, z2 := Filled(d1, (vd / 2) * stride, vd * stride, 0), Filled(d2, (vd / 2) * stride, vd * stride, 0);
    assert z1 == z2;
  }

  /** Showing the same marquee twice leaves the same picture as showing it
      once. */
  lemma MarqueeFrameIdempotent(d: seq<bv32>, hd: nat, vd: nat, stride: nat, img: Option<Image>)
    requires img.Some? ==> ValidImage(img.value)
    requires |d| == vd * stride
    ensures MarqueeFrame(MarqueeFrame(d, hd, vd, stride, img), hd, vd, stride, img) == MarqueeFrame(d, hd, vd, stride, img)
  {
    MarqueeFrameKeepsTop(d, hd, vd, stride, img);
    MulMonoLeft(vd / 2, vd, stride);
    MarqueeFrameTopOnly(MarqueeFrame(d, hd, vd, stride, img), d, hd, vd, stride, img);
  }

  // ---------------------------------------------------------------------
  // Display rights across steps
  // ---------------------------------------------------------------------

  /** A trace of whole try_reset_crtc calls: a drmSetMaster that was refused
      stands alone, and one that granted master rights is followed by
      exactly one drmModeSetCrtc and then drmDropMaster, which may fail. */
  predicate Bracketed(t: seq<DrmCall>)
    decreases |t|
  {
    t == [] ||
    (t[0] == SetMaster(false) && Bracketed(t[1..])) ||
    (|t| >= 3 && t[0] == SetMaster(true) && t[1] == SetCrtc && t[2].DropMaster? && Bracketed(t[3..]))
  }

  /** Whether the daemon holds master rights after the calls t, starting
      with held: a granted drmSetMaster gives them, a drmDropMaster that
      succeeds takes them away, and one that fails leaves them. */
  function MasterAfter(held: bool, t: seq<DrmCall>): bool
    decreases |t|
  {
    if t == [] then held
    else
      var h := match t[0]
        case SetMaster(ok) => held || ok
        case DropMaster(ok) => held && !ok
        case _ => held;
      MasterAfter(h, t[1..])
  }

  /** Every drmModeSetCrtc in t is issued while master rights are held. */
  predicate CrtcUnderMaster(held: bool, t: seq<DrmCall>)
    decreases |t|
  {
    t == [] ||
    ((t[0] == SetCrtc ==> held) &&
     CrtcUnderMaster(match t[0] case SetMaster(ok) => held || ok case DropMaster(ok) => held && !ok case _ => held, t[1..]))
  }

  /** Every drmDropMaster in t succeeded. */
  predicate DropsSucceed(t: seq<DrmCall>) {
    forall i :: 0 <= i < |t| && t[i].DropMaster? ==> t[i].ok
  }

  /** Whole try_reset_crtc calls set the mode only with master rights,
      whatever the rights held before them and whatever the drops return;
      starting without master rights, they end without them when every drop
      succeeded, and a run that ends holding them had a failed drop. */
  lemma {:induction false} BracketedReleasesMaster(held: bool, t: seq<DrmCall>)
    requires Bracketed(t)
    ensures CrtcUnderMaster(held, t)
    ensures !held && DropsSucceed(t) ==> !MasterAfter(held, t)
    ensures !held && MasterAfter(held, t) ==> exists i :: 0 <= i < |t| && t[i] == DropMaster(false)
    decreases |t|
  {
    if t == [] {
    } else if t[0] == SetMaster(false) {
      BracketedReleasesMaster(held, t[1..]);
      if DropsSucceed(t) {
        assert DropsSucceed(t[1..]) by {
          forall i | 0 <= i < |t[1..]| && t[1..][i].DropMaster? ensures t[1..][i].ok {
            assert t[1..][i] == t[i + 1];
          }
        }
      }
      if !held && MasterAfter(held, t) {
        var i :| 0 <= i < |t[1..]| && t[1..][i] == DropMaster(false);
        assert t[i + 1] == DropMaster(false);
      }
    } else {
      var h := !t[2].ok;
      BracketedReleasesMaster(h, t[3..]);
      assert t[1..][1..][1..] == t[3..];
      assert MasterAfter(held, t) == MasterAfter(true, t[1..][1..]) == MasterAfter(h, t[3..]);
      if DropsSucceed(t) {
        assert t[2].ok;
        assert DropsSucceed(t[3..]) by {
          forall i | 0 <= i < |t[3..]| && t[3..][i].DropMaster? ensures t[3..][i].ok {
            assert t[3..][i] == t[i + 3];
          }
        }
      }
      if !held && MasterAfter(held, t) && !h {
        var i :| 0 <= i < |t[3..]| && t[3..][i] == DropMaster(false);
        assert t[i + 3] == DropMaster(false);
      }
    }
  }

  /** b is a extends a by complete try_reset_crtc calls. */
  predicate Extends(a: seq<DrmCall>, b: seq<DrmCall>) {
    |a| <= |b| && b[..|a|] == a && Bracketed(b[|a|..])
  }

  lemma {:induction false} BracketedConcat(x: seq<DrmCall>, y: seq<DrmCall>)
    requires Bracketed(x) && Bracketed(y)
    ensures Bracketed(x + y)
    decreases |x|
  {
    if x == [] {
      assert x + y == y;
    } else if x[0] == SetMaster(true) {
      BracketedConcat(x[3..], y);
      assert (x + y)[3..] == x[3..] + y;
    } else {
      BracketedConcat(x[1..], y);
      assert (x + y)[1..] == x[1..] + y;
    }
  }

  lemma ResetTraceBracketed(k: Kernel)
    ensures Bracketed(ResetTrace(k))
  {
    var t := ResetTrace(k);
    if k.masterOk {
      assert t[3..] == [];
    } else {
      assert t[1..] == [];
    }
  }

  lemma ExtendsRefl(a: seq<DrmCall>)
    ensures Extends(a, a)
  {
    assert a[|a|..] == [];
  }

  lemma ExtendsReset(a: seq<DrmCall>, b: seq<DrmCall>, k: Kernel)
    requires Extends(a, b)
    ensures Extends(a, b + ResetTrace(k))
  {
    ResetTraceBracketed(k);
    BracketedConcat(b[|a|..], ResetTrace(k));
    assert (b + ResetTrace(k))[|a|..] == b[|a|..] + ResetTrace(k);
    assert (b + ResetTrace(k))[..|a|] == b[..|a|];
  }

  lemma ExtendsTrans(a: seq<DrmCall>, b: seq<DrmCall>, c: seq<DrmCall>)
    requires Extends(a, b) && Extends(b, c)
    ensures Extends(a, c)
  {
    assert c[..|b|][..|a|] == c[..|a|];
    BracketedConcat(b[|a|..], c[|b|..]);
    assert c[|a|..] == b[|a|..] + c[|b|..];
  }

  lemma ShowDefaultExtends(s: DaemonState, files: Files, k: Kernel)
    requires ValidFiles(files)
    ensures Extends(s.calls, ShowDefaultSpec(s, files, k).calls)
  {
    ExtendsRefl(s.calls);
    if s.mapped && LoadDefault(files, s.mode).Some? && s.mode == RA {
      ExtendsReset(s.calls, s.calls, k);
    }
  }

  lemma DispatchExtends(s: DaemonState, c: Command, now: int, files: Files, k: Kernel)
    requires ValidFiles(files)
    ensures Extends(s.calls, DispatchSpec(s, c, now, files, k).0.calls)
  {
    ExtendsRefl(s.calls);
    match c
    case CmdRA => ShowDefaultExtends(s.(mode := RA), files, k);
    case CmdSA => ShowDefaultExtends(s.(mode := SA), files, k);
    case CmdNA => ShowDefaultExtends(s.(mode := NA), files, k);
    case Exit =>
    case Clear => ShowDefaultExtends(s, files, k);
    case Rom(name) => ShowDefaultExtends(s, files, k);
  }

  /** One iteration only appends complete try_reset_crtc calls to the trace:
      each grant of master rights is followed by one drmModeSetCrtc and one
      drop of master (see BracketedReleasesMaster for what that gives). */
  lemma StepExtends(s: DaemonState, inp: Input)
    requires ValidInput(inp)
    ensures Extends(s.calls, StepSpec(s, inp).0.calls)
  {
    match inp.ev
    case FifoError => ExtendsRefl(s.calls);
    case NoData =>
      ExtendsRefl(s.calls);
      if s.hold != 0 && inp.now > s.hold {
        var r := RetrySpec(s, inp.now, inp.retry);
        ExtendsReset(s.calls, s.calls, inp.retry);
        DispatchExtends(r, inp.nullCmd, inp.now, inp.files, inp.reset);
        ExtendsTrans(s.calls, r.calls, StepSpec(s, inp).0.calls);
      }
    case Data(chars) => DispatchExtends(s, ParseCommand(ReadCommand(chars)), inp.now, inp.files, inp.reset);
  }

  /** The main loop over a sequence of iterations, up to the first one that
      leaves it. */
  function Run(s: DaemonState, ins: seq<Input>): DaemonState
    requires forall i :: 0 <= i < |ins| ==> ValidInput(ins[i])
    decreases |ins|
  {
    if ins == [] then s
    else
      var (s', cont) := StepSpec(s, ins[0]);
      if cont then Run(s', ins[1..]) else s'
  }

  /** However long the daemon runs, its kernel calls come in complete
      try_reset_crtc brackets. */
  lemma {:induction false} RunExtends(s: DaemonState, ins: seq<Input>)
    requires forall i :: 0 <= i < |ins| ==> ValidInput(ins[i])
    ensures Extends(s.calls, Run(s, ins).calls)
    decreases |ins|
  {
    if ins == [] {
      ExtendsRefl(s.calls);
    } else {
      StepExtends(s, ins[0]);
      var (s', cont) := StepSpec(s, ins[0]);
      if cont {
        RunExtends(s', ins[1..]);
        ExtendsTrans(s.calls, s'.calls, Run(s', ins[1..]).calls);
      }
    }
  }

  /** However long the daemon runs, it sets the mode only while it holds
      master rights; it ends without them unless a drmDropMaster failed. */
  lemma RunReleasesMaster(s: DaemonState, ins: seq<Input>)
    requires forall i :: 0 <= i < |ins| ==> ValidInput(ins[i])
    ensures |s.calls| <= |Run(s, ins).calls| && Run(s, ins).calls[..|s.calls|] == s.calls
    ensures CrtcUnderMaster(false, Run(s, ins).calls[|s.calls|..])
    ensures DropsSucceed(Run(s, ins).calls[|s.calls|..]) ==> !MasterAfter(false, Run(s, ins).calls[|s.calls|..])
    ensures MasterAfter(false, Run(s, ins).calls[|s.calls|..]) ==> DropMaster(false) in Run(s, ins).calls[|s.calls|..]
  {
    RunExtends(s, ins);
    BracketedReleasesMaster(false, Run(s, ins).calls[|s.calls|..]);
  }

  // ---------------------------------------------------------------------
  // What one step does
  // ---------------------------------------------------------------------

  /** The step leaves the loop exactly when the FIFO cannot be opened or the
      command is EXIT, and then (for EXIT) running is cleared. */
  lemma StepStops(s: DaemonState, inp: Input)
    requires ValidInput(inp)
    ensures !StepSpec(s, inp).1 <==>
      inp.ev.FifoError? ||
      (inp.ev.Data? && ParseCommand(ReadCommand(inp.ev.chars)) == Exit) ||
      (inp.ev.NoData? && s.hold != 0 && inp.now > s.hold && inp.nullCmd == Exit)
    ensures StepSpec(s, inp).0.running == (s.running && (inp.ev.FifoError? || StepSpec(s, inp).1))
  {
  }

  /** An empty read with no hold due changes nothing; the daemon sleeps. */
  lemma IdleStepChangesNothing(s: DaemonState, inp: Input)
    requires ValidInput(inp) && inp.ev.NoData?
    requires s.hold == 0 || inp.now <= s.hold
    ensures StepSpec(s, inp) == (s, true)
  {
  }

  /** The hold timer moves only in two ways: a due retry (which ends the hold
      on success and re-arms it for the next second on failure), or a ROM
      marquee shown in RetroArch mode, which arms it ten seconds ahead. */
  lemma HoldTimer(s: DaemonState, inp: Input)
    requires ValidInput(inp)
    ensures var r := StepSpec(s, inp).0;
      r.hold != s.hold ==>
        (inp.ev.NoData? && s.hold != 0 && inp.now > s.hold) ||
        (inp.ev.Data? && ParseCommand(ReadCommand(inp.ev.chars)).Rom? && s.mode == RA && r.hold == inp.now + CrtcResetHoldSec)
    ensures inp.ev.NoData? && s.hold != 0 && inp.now > s.hold ==>
      var r := StepSpec(s, inp).0;
      r.hold == 0 || r.hold > inp.now
    ensures inp.ev.NoData? && s.hold != 0 && inp.now > s.hold && inp.retry.masterOk && inp.retry.crtcOk && !inp.nullCmd.Rom? ==>
      StepSpec(s, inp).0.hold == 0
    ensures inp.ev.NoData? && s.hold != 0 && inp.now > s.hold && !(inp.retry.masterOk && inp.retry.crtcOk) && !inp.nullCmd.Rom? ==>
      StepSpec(s, inp).0.hold == inp.now + 1
  {
  }

  /** A ROM marquee issues no kernel call at once: in RetroArch mode the
      mode set is deferred to the hold retry, armed ten seconds ahead. */
  lemma RomDefersReset(s: DaemonState, inp: Input)
    requires ValidInput(inp) && inp.ev.Data?
    requires ParseCommand(ReadCommand(inp.ev.chars)).Rom?
    requires var name := ParseCommand(ReadCommand(inp.ev.chars)).name;
      !MultiScreens(IniFor(inp.files, name)) && name in inp.files.roms && inp.files.roms[name].Decoded?
    ensures StepSpec(s, inp).0.calls == s.calls
    ensures StepSpec(s, inp).0.mode == s.mode
    ensures var img := inp.files.roms[ParseCommand(ReadCommand(inp.ev.chars)).name].img;
      s.mapped ==> (StepSpec(s, inp).0.fb == MarqueeFrame(s.fb, s.hd, s.vd, s.stridePx, Some(img)))
    ensures StepSpec(s, inp).0.hold == (if s.mode == RA then inp.now + CrtcResetHoldSec else s.hold)
  {
  }

  /** RA, SA and NA set the front-end mode before drawing that mode's
      default marquee, and CLEAR draws the current mode's default. */
  lemma ModeCommandsShowDefault(s: DaemonState, inp: Input)
    requires ValidInput(inp) && inp.ev.Data?
    ensures var c := ParseCommand(ReadCommand(inp.ev.chars));
      (c == CmdRA ==> StepSpec(s, inp) == (ShowDefaultSpec(s.(mode := RA), inp.files, inp.reset), true)) &&
      (c == CmdSA ==> StepSpec(s, inp) == (ShowDefaultSpec(s.(mode := SA), inp.files, inp.reset), true)) &&
      (c == CmdNA ==> StepSpec(s, inp) == (ShowDefaultSpec(s.(mode := NA), inp.files, inp.reset), true)) &&
      (c == Clear ==> StepSpec(s, inp) == (ShowDefaultSpec(s, inp.files, inp.reset), true))
  {
  }

  /** A game whose ini declares more than one screen is left alone. */
  lemma MultiScreenGameIgnored(s: DaemonState, inp: Input)
    requires ValidInput(inp) && inp.ev.Data?
    requires ParseCommand(ReadCommand(inp.ev.chars)).Rom?
    requires MultiScreens(IniFor(inp.files, ParseCommand(ReadCommand(inp.ev.chars)).name))
    ensures StepSpec(s, inp) == (s, true)
  {
  }

  /** A ROM without a marquee file, or with one that does not decode, shows
      the default marquee of the current mode instead. */
  lemma MissingRomShowsDefault(s: DaemonState, inp: Input)
    requires ValidInput(inp) && inp.ev.Data?
    requires ParseCommand(ReadCommand(inp.ev.chars)).Rom?
    requires var name := ParseCommand(ReadCommand(inp.ev.chars)).name;
      !MultiScreens(IniFor(inp.files, name)) && (name !in inp.files.roms || inp.files.roms[name].Undecodable?)
    ensures StepSpec(s, inp) == (ShowDefaultSpec(s, inp.files, inp.reset), true)
  {
  }

  /** The frontend mode changes only on an RA, SA or NA command (or one the
      retry path dispatches), and such a command always sets it. */
  lemma ModeChanges(s: DaemonState, inp: Input)
    requires ValidInput(inp) && inp.ev.Data?
    ensures var c := ParseCommand(ReadCommand(inp.ev.chars));
      var r := StepSpec(s, inp).0;
      (c == CmdRA ==> r.mode == RA) && (c == CmdSA ==> r.mode == SA) && (c == CmdNA ==> r.mode == NA) &&
      (!(c == CmdRA || c == CmdSA || c == CmdNA) ==> r.mode == s.mode)
  {
  }

  /** However long the daemon runs, the top half of a mapped framebuffer is
      never written. */
  lemma {:induction false} RunKeepsTop(s: DaemonState, ins: seq<Input>)
    requires forall i :: 0 <= i < |ins| ==> ValidInput(ins[i])
    requires |s.fb| == s.vd * s.stridePx
    ensures Run(s, ins).vd == s.vd && Run(s, ins).stridePx == s.stridePx && |Run(s, ins).fb| == |s.fb|
    ensures forall i :: 0 <= i < (s.vd / 2) * s.stridePx ==> Run(s, ins).fb[i] == s.fb[i]
    decreases |ins|
  {
    MulMonoLeft(s.vd / 2, s.vd, s.stridePx);
    if ins != [] {
      StepKeepsTop(s, ins[0]);
      var (s', cont) := StepSpec(s, ins[0]);
      if cont {
        RunKeepsTop(s', ins[1..]);
      }
    }
  }

  lemma ShowDefaultKeepsTop(s: DaemonState, files: Files, k: Kernel)
    requires ValidFiles(files) && |s.fb| == s.vd * s.stridePx
    ensures var r := ShowDefaultSpec(s, files, k);
      r.vd == s.vd && r.stridePx == s.stridePx && |r.fb| == |s.fb| &&
      forall i :: 0 <= i < (s.vd / 2) * s.stridePx ==> r.fb[i] == s.fb[i]
  {
    MulMonoLeft(s.vd / 2, s.vd, s.stridePx);
    if s.mapped {
      MarqueeFrameKeepsTop(s.fb, s.hd, s.vd, s.stridePx, LoadDefault(files, s.mode));
    }
  }

  lemma DispatchKeepsTop(s: DaemonState, c: Command, now: int, files: Files, k: Kernel)
    requires ValidFiles(files) && |s.fb| == s.vd * s.stridePx
    ensures var r := DispatchSpec(s, c, now, files, k).0;
      r.vd == s.vd && r.stridePx == s.stridePx && |r.fb| == |s.fb| &&
      forall i :: 0 <= i < (s.vd / 2) * s.stridePx ==> r.fb[i] == s.fb[i]
  {
    MulMonoLeft(s.vd / 2, s.vd, s.stridePx);
    match c
    case CmdRA => ShowDefaultKeepsTop(s.(mode := RA), files, k);
    case CmdSA => ShowDefaultKeepsTop(s.(mode := SA), files, k);
    case CmdNA => ShowDefaultKeepsTop(s.(mode := NA), files, k);
    case Exit =>
    case Clear => ShowDefaultKeepsTop(s, files, k);
    case Rom(name) =>
      ShowDefaultKeepsTop(s, files, k);
      if name in files.roms && files.roms[name].Decoded? && s.mapped {
        MarqueeFrameKeepsTop(s.fb, s.hd, s.vd, s.stridePx, Some(files.roms[name].img));
      }
  }

  lemma StepKeepsTop(s: DaemonState, inp: Input)
    requires ValidInput(inp) && |s.fb| == s.vd * s.stridePx
    ensures var r := StepSpec(s, inp).0;
      r.vd == s.vd && r.stridePx == s.stridePx && |r.fb| == |s.fb| &&
      forall i :: 0 <= i < (s.vd / 2) * s.stridePx ==> r.fb[i] == s.fb[i]
  {
    match inp.ev
    case FifoError =>
    case NoData =>
      if s.hold != 0 && inp.now > s.hold {
        DispatchKeepsTop(RetrySpec(s, inp.now, inp.retry), inp.nullCmd, inp.now, inp.files, inp.reset);
      }
    case Data(chars) =>
      DispatchKeepsTop(s, ParseCommand(ReadCommand(chars)), inp.now, inp.files, inp.reset);
  }

  // ---------------------------------------------------------------------
  // The dumb-buffer lifecycle
  // ---------------------------------------------------------------------

  /** dumb_handle, fb_id, whether fb_map is mapped, and the pitch in pixels. */
  datatype Buffers = Buffers(handle: nat, fbId: nat, mapped: bool, stridePx: nat)

  /** What DRM_IOCTL_MODE_CREATE_DUMB hands back. */
  datatype Dumb = Dumb(handle: nat, pitchPx: nat)

  /** Outcomes of the kernel calls of create_dumb_fb, in order: CREATE_DUMB,
      MAP_DUMB, mmap and drmModeAddFB (which yields the framebuffer id). */
  datatype CreateOutcome = CreateOutcome(created: Option<Dumb>, mapOk: bool, mmapOk: bool, addFb: Option<nat>)

  /** create_dumb_fb: the new buffer state, the return code and the kernel
      calls issued. */
  function CreateSpec(b: Buffers, o: CreateOutcome): (Buffers, int, seq<DrmCall>) {
    if o.created.None? then (b, -1, [CreateDumb])
    else
      var b1 := b.(handle := o.created.value.handle, stridePx := o.created.value.pitchPx);
      if !o.mapOk then (b1, -1, [CreateDumb, MapDumb])
      else if !o.mmapOk then (b1.(mapped := false), -1, [CreateDumb, MapDumb, Mmap])
      else if o.addFb.None? then (b1.(mapped := false), -1, [CreateDumb, MapDumb, Mmap, AddFB, Munmap])
      else (b1.(mapped := true, fbId := o.addFb.value), 0, [CreateDumb, MapDumb, Mmap, AddFB])
  }

  /** destroy_dumb_fb: each resource that is held is released once. */
  function DestroySpec(b: Buffers): (Buffers, seq<DrmCall>) {
    (b.(fbId := 0, mapped := false, handle := 0),
     (if b.fbId != 0 then [RmFB] else []) +
     (if b.mapped then [Munmap] else []) +
     (if b.handle != 0 then [DestroyDumb] else []))
  }

  /** destroy_dumb_fb leaves nothing held, and a second call is a no-op. */
  lemma DestroyReleasesAll(b: Buffers)
    ensures DestroySpec(b).0.fbId == 0 && !DestroySpec(b).0.mapped && DestroySpec(b).0.handle == 0
    ensures DestroySpec(DestroySpec(b).0) == (DestroySpec(b).0, [])
    ensures |DestroySpec(b).1| == (if b.fbId != 0 then 1 else 0) + (if b.mapped then 1 else 0) + (if b.handle != 0 then 1 else 0)
  {
    var e: seq<DrmCall> := [];
    assert e + e + e == e;
  }

  /** A failing drmModeAddFB releases the mapping but keeps the dumb buffer
      handle; a failing MAP_DUMB keeps the handle and issues no munmap. */
  lemma CreateFailuresKeepHandle(b: Buffers, o: CreateOutcome)
    requires o.created.Some?
    requires !o.mapOk || !o.mmapOk || o.addFb.None?
    ensures CreateSpec(b, o).1 == -1
    ensures CreateSpec(b, o).0.handle == o.created.value.handle
    ensures o.mapOk ==> !CreateSpec(b, o).0.mapped
    ensures CreateSpec(b, o).0.fbId == b.fbId
    ensures !o.mapOk ==> Munmap !in CreateSpec(b, o).2
  {
  }

  // ---------------------------------------------------------------------
  // The daemon
  // ---------------------------------------------------------------------

  class Daemon {
    var hdisplay: nat
    var vdisplay: nat
    var stridePx: nat
    var dumbHandle: nat
    var fbId: nat
    var mapped: bool
    var fb: array<bv32>
    var frontendMode: FrontendMode
    var raInitHold: int
    var running: bool
    var calls: seq<DrmCall>

    /** A mapping holds vdisplay rows of stridePx pixels, each at least as
        wide as the mode. */
    predicate Valid()
      reads this
    {
      mapped ==> fb.Length == vdisplay * stridePx && hdisplay <= stridePx
    }

    function State(): DaemonState
      reads this, fb
    {
      DaemonState(hdisplay, vdisplay, stridePx, frontendMode, raInitHold, running, mapped, fb[..], calls)
    }

    function BufferState(): Buffers
      reads this
    {
      Buffers(dumbHandle, fbId, mapped, stridePx)
    }

    /** The daemon after startup with the chosen mode, before any buffer
        exists. */
    constructor (hd: nat, vd: nat, mode: FrontendMode)
      ensures hdisplay == hd && vdisplay == vd && frontendMode == mode
      ensures dumbHandle == 0 && fbId == 0 && !mapped && stridePx == 0
      ensures raInitHold == 0 && running && calls == []
      ensures Valid()
    {
      hdisplay, vdisplay := hd, vd;
      stridePx, dumbHandle, fbId := 0, 0, 0;
      mapped := false;
      fb := new bv32[0];
      frontendMode := mode;
      raInitHold := 0;
      running := true;
      calls := [];
    }

    /** try_reset_crtc. */
    method TryResetCrtc(k: Kernel) returns (ok: bool)
      modifies this
      ensures ok <==> k.masterOk && k.crtcOk
      ensures fb == old(fb)
      ensures State() == old(State()).(calls := old(calls) + ResetTrace(k))
      ensures BufferState() == old(BufferState()) && Valid() == old(Valid())
    {
      calls := calls + [SetMaster(k.masterOk)];
      if !k.masterOk {
        return false;
      }
      calls := calls + [SetCrtc];
      var crtcSuccess := k.crtcOk;
      calls := calls + [DropMaster(k.dropOk)];
      return crtcSuccess;
    }

    /** Clear rows vdisplay/2 .. vdisplay-1 and stretch img over them. */
    method DrawBottomHalf(img: Option<Image>)
      requires Valid() && mapped
      requires img.Some? ==> ValidImage(img.value)
      modifies fb
      ensures fb[..] == MarqueeFrame(old(fb[..]), hdisplay, vdisplay, stridePx, img)
    {
      var destY := vdisplay / 2;
      MulMonoLeft(destY, vdisplay, stridePx);
      Memset(fb, destY * stridePx, vdisplay * stridePx, 0);
      MulMonoLeft(destY + vdisplay / 2, vdisplay, stridePx);
      ScaleAndBlitToXrgb(img, fb, hdisplay, vdisplay, stridePx, 0, destY);
    }

    /** show_default_marquee. */
    method ShowDefaultMarquee(files: Files, k: Kernel)
      requires Valid() && ValidFiles(files)
      modifies this, fb
      ensures fb == old(fb) && Valid()
      ensures State() == ShowDefaultSpec(old(State()), files, k)
      ensures BufferState() == old(BufferState())
    {
      if !mapped {
        return;
      }
      var img := LoadDefault(files, frontendMode);
      if img.None? {
        DrawBottomHalf(None);
        return;  // bottom half remains black
      }
      DrawBottomHalf(img);
      if frontendMode == RA {
        var _ := TryResetCrtc(k);
      }
    }

    /** The dispatcher of the main loop. */
    method Dispatch(c: Command, now: int, files: Files, k: Kernel) returns (cont: bool)
      requires Valid() && ValidFiles(files)
      modifies this, fb
      ensures fb == old(fb) && Valid()
      ensures (State(), cont) == DispatchSpec(old(State()), c, now, files, k)
      ensures BufferState() == old(BufferState())
    {
      match c {
        case CmdRA =>
          frontendMode := RA;
          ShowDefaultMarquee(files, k);
          return true;
        case CmdSA =>
          frontendMode := SA;
          ShowDefaultMarquee(files, k);
          return true;
        case CmdNA =>
          frontendMode := NA;
          ShowDefaultMarquee(files, k);
          return true;
        case Exit =>
          running := false;
          return false;
        case Clear =>
          ShowDefaultMarquee(files, k);
          return true;
        case Rom(name) =>
          var multi := GameHasMultipleScreens(IniFor(files, name));
          if multi {
            return true;
          }
          if name !in files.roms {
            ShowDefaultMarquee(files, k);  // image missing
            return true;
          }
          var file := files.roms[name];
          if file.Undecodable? {
            ShowDefaultMarquee(files, k);  // png load failed
            return true;
          }
          if mapped {
            DrawBottomHalf(Some(file.img));
          }
          if frontendMode == RA {
            raInitHold := now + CrtcResetHoldSec;
          }
          return true;
      }
    }

    /** One iteration of the main loop. */
    method Step(inp: Input) returns (cont: bool)
      requires Valid() && ValidInput(inp)
      modifies this, fb
      ensures fb == old(fb) && Valid()
      ensures (State(), cont) == StepSpec(old(State()), inp)
      ensures BufferState() == old(BufferState())
    {
      var command: Command;
      match inp.ev {
        case FifoError =>
          return false;
        case NoData =>
          if raInitHold != 0 && inp.now > raInitHold {
            var ok := TryResetCrtc(inp.retry);
            if ok {
              raInitHold := 0;
            } else {
              raInitHold := inp.now + 1;
            }
            command := inp.nullCmd;
          } else {
            return true;  // usleep, continue
          }
        case Data(chars) =>
          var buf := new char[|chars| + 1](i requires 0 <= i <= |chars| => if i < |chars| then chars[i] else '\0');
          assert buf[..] == chars + ['\0'];
          assert '\0' in buf[..] by {
            assert buf[|chars|] == '\0';
          }
          var r := Trim(buf);
          command := ParseCommand(CStr(buf[r.value..]));
      }
      cont := Dispatch(command, inp.now, inp.files, inp.reset);
    }

    /** create_dumb_fb for the chosen mode, called while no buffer is mapped. */
    method CreateDumbFb(o: CreateOutcome) returns (rc: int)
      requires !mapped
      requires o.created.Some? ==> o.created.value.pitchPx >= hdisplay
      modifies this
      ensures (BufferState(), rc, calls) == (CreateSpec(old(BufferState()), o).0, CreateSpec(old(BufferState()), o).1,
                                               old(calls) + CreateSpec(old(BufferState()), o).2)
      ensures hdisplay == old(hdisplay) && vdisplay == old(vdisplay)
      ensures frontendMode == old(frontendMode) && raInitHold == old(raInitHold) && running == old(running)
      ensures mapped ==> fresh(fb)
      ensures Valid()
    {
      if o.created.None? {
        calls := calls + [CreateDumb];
        return -1;
      }
      dumbHandle := o.created.value.handle;
      stridePx := o.created.value.pitchPx;
      if !o.mapOk {
        calls := calls + [CreateDumb, MapDumb];
        return -1;
      }
      if !o.mmapOk {
        calls := calls + [CreateDumb, MapDumb, Mmap];
        mapped := false;
        return -1;
      }
      fb := new bv32[vdisplay * stridePx];
      mapped := true;
      if o.addFb.None? {
        calls := calls + [CreateDumb, MapDumb, Mmap, AddFB, Munmap];
        mapped := false;
        return -1;
      }
      calls := calls + [CreateDumb, MapDumb, Mmap, AddFB];
      fbId := o.addFb.value;
      return 0;
    }

    /** destroy_dumb_fb. */
    method DestroyDumbFb()
      modifies this
      ensures (BufferState(), calls) == (DestroySpec(old(BufferState())).0, old(calls) + DestroySpec(old(BufferState())).1)
      ensures hdisplay == old(hdisplay) && vdisplay == old(vdisplay) && fb == old(fb)
      ensures frontendMode == old(frontendMode) && raInitHold == old(raInitHold) && running == old(running)
      ensures Valid()
    {
      var issued: seq<DrmCall> := [];
      if fbId != 0 {
        issued := issued + [RmFB];
        fbId := 0;
      }
      if mapped {
        issued := issued + [Munmap];
        mapped := false;
      }
      if dumbHandle != 0 {
        issued := issued + [DestroyDumb];
        dumbHandle := 0;
      }
      assert issued == DestroySpec(old(BufferState())).1;
      calls := calls + issued;
    }
  }
}
