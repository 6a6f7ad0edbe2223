/** dmarquees-1.1.1.c: the version that centres a 1920-wide marquee at the
    bottom of the whole screen.  CLEAR blanks the whole buffer and re-issues
    the mode set; a ROM without a usable image is skipped with no fallback.
    Its find_connector_mode is Connector.FindConnectorMode with a preferred
    3840 x 2160 mode, and its game_has_multiple_screens is
    Helpers.GameHasMultipleScreens. */
module Dmarquees111 {
  import opened Common
  import opened Raster
  import opened Helpers
  import D = Dmarquees

  const PreferredW: nat := 3840
  const PreferredH: nat := 2160

  // ---------------------------------------------------------------------
  // scale_and_blit_to_xrgb_region
  // ---------------------------------------------------------------------

  /** Nearest-neighbour scale of src to drawW x drawH into dest at
      (destX, destY), rows stride pixels apart; nothing happens when src or
      dest is NULL.  The source coordinates are clamped to the image, which
      never changes them.  (The C function also takes the destination's size,
      which it does not use.) */
  method ScaleAndBlitRegion(src: Option<Image>, dest: array?<bv32>, stride: nat,
                            destX: nat, destY: nat, drawW: nat, drawH: nat)
    requires src.Some? ==> ValidImage(src.value)
    requires src.Some? && dest != null ==> Fits(dest.Length, stride, destX, destY, drawW, drawH)
    modifies dest
    ensures dest != null && src.Some? ==>
      dest[..] == Blitted(old(dest[..]), stride, destX, destY, drawW, drawH, src.value)
    ensures dest != null && src.None? ==> dest[..] == old(dest[..])
  {
    if src.None? || dest == null {
      return;
    }
    var img := src.value;
    ghost var f := Sample(img, drawW, drawH);
    PaintedNone(dest[..], stride, destX, destY, drawW, f);
    var y := 0;
    while y < drawH
      invariant 0 <= y <= drawH
      invariant dest[..] == Painted(old(dest[..]), stride, destX, destY, drawW, y, 0, f)
    {
      ScaledBelow(y, img.h, drawH);
      var sy: int := (y * img.h) / drawH;
      if sy >= img.h {
        sy := img.h - 1;
      }
      var rowBase := (destY + y) * stride + destX;
      var x := 0;
      while x < drawW
        invariant 0 <= x <= drawW
        invariant dest[..] == Painted(old(dest[..]), stride, destX, destY, drawW, y, x, f)
      {
        ScaledBelow(x, img.w, drawW);
        var sx: int := (x * img.w) / drawW;
        if sx >= img.w {
          sx := img.w - 1;
        }
        var p := (sy * img.w + sx) * 4;
        assert p == SampleOffset(img, drawW, drawH, x, y);
        PaintedStep(old(dest[..]), stride, destX, destY, drawW, drawH, y, x, f);
        dest[rowBase + x] := Xrgb(img.pixels[p], img.pixels[p + 1], img.pixels[p + 2]);
        x := x + 1;
      }
      PaintedRow(old(dest[..]), stride, destX, destY, drawW, y, f);
      y := y + 1;
    }
    PaintedIsBlitted(old(dest[..]), stride, destX, destY, drawW, drawH, img);
  }

  // ---------------------------------------------------------------------
  // Command lines
  // ---------------------------------------------------------------------

  /** cmd[strcspn(cmd, "\n")] = '\0': the line up to its first newline. */
  function Chomp(line: string): string {
    line[..IndexFrom(line, 0, '\n')]
  }

  /** The command holds no newline, and the line is the command followed by
      nothing or by a newline and whatever came after it. */
  lemma ChompShape(line: string)
    ensures '\n' !in Chomp(line)
    ensures line[..|Chomp(line)|] == Chomp(line)
    ensures |Chomp(line)| < |line| ==> line[|Chomp(line)|] == '\n'
  {
    IndexFromFacts(line, 0, '\n');
  }

  /** How the loop reads a command line. */
  datatype Line = ExitLine | ClearLine | EmptyLine | RomLine(name: string)

  /** EXIT and CLEAR compared with strcasecmp; an empty line is ignored;
      anything else is a ROM short name. */
  function Classify(cmd: string): (l: Line)
    ensures l == ExitLine <==> EqualIgnoringCase(cmd, "EXIT")
    ensures l == ClearLine <==> EqualIgnoringCase(cmd, "CLEAR")
    ensures l == EmptyLine <==> cmd == []
    ensures l.RomLine? ==> l.name == cmd
  {
    if EqualIgnoringCase(cmd, "EXIT") then ExitLine
    else if EqualIgnoringCase(cmd, "CLEAR") then ClearLine
    else if cmd == [] then EmptyLine
    else RomLine(cmd)
  }

  // ---------------------------------------------------------------------
  // The command loop
  // ---------------------------------------------------------------------

  /** One line from the FIFO, the files on disk, and the two aspect-ratio
      quotients the source computes in floating point for a decoded image. */
  datatype Input = Input(line: string, files: D.Files, heightAtFullWidth: int, widthAtMaxHeight: int)

  /** The mode's size, the row pitch in pixels, running, the mapped pixels
      and the kernel calls issued. */
  datatype LoopState = LoopState(hd: nat, vd: nat, stridePx: nat, running: bool, fb: seq<bv32>, calls: seq<DrmCall>)

  /** The image the line asks to draw, if the loop gets as far as drawing. */
  function Drawable(inp: Input): Option<Image> {
    match Classify(Chomp(inp.line))
    case RomLine(name) =>
      if !MultiScreens(D.IniFor(inp.files, name)) && name in inp.files.roms && inp.files.roms[name].Decoded?
      then Some(inp.files.roms[name].img) else None
    case _ => None
  }

  /** The marquee's box (x, y, w, h) for the input's quotients. */
  function Box(s: LoopState, inp: Input): (int, int, int, int) {
    var (w, h) := DrawSize(inp.heightAtFullWidth, inp.widthAtMaxHeight);
    var (x, y) := Placement(s.hd, s.vd, w, h);
    (x, y, w, h)
  }

  /** The box lies inside the buffer: the source has no check for this, and
      writes outside the mapping when it does not hold. */
  predicate BoxFits(s: LoopState, inp: Input) {
    var (x, y, w, h) := Box(s, inp);
    x >= 0 && y >= 0 && w >= 0 && h >= 0 && Fits(|s.fb|, s.stridePx, x, y, w, h)
  }

  /** One line of the loop: the new state and whether the loop goes on. */
  function StepSpec(s: LoopState, inp: Input): (LoopState, bool)
    requires D.ValidFiles(inp.files)
    requires Drawable(inp).Some? ==> BoxFits(s, inp)
  {
    match Classify(Chomp(inp.line))
    case ExitLine => (s.(running := false), false)
    case ClearLine => (s.(fb := Filled(s.fb, 0, |s.fb|, 0), calls := s.calls + [SetCrtc]), true)
    case EmptyLine => (s, true)
    case RomLine(name) =>
      if Drawable(inp).None? then (s, true)
      else
        var (x, y, w, h) := Box(s, inp);
        (s.(fb := Blitted(Filled(s.fb, 0, |s.fb|, 0), s.stridePx, x, y, w, h, Drawable(inp).value),
            calls := s.calls + [SetCrtc]), true)
  }

  /** EXIT ends the loop, and only EXIT does. */
  lemma ExitStops(s: LoopState, inp: Input)
    requires D.ValidFiles(inp.files) && (Drawable(inp).Some? ==> BoxFits(s, inp))
    ensures !StepSpec(s, inp).1 <==> EqualIgnoringCase(Chomp(inp.line), "EXIT")
    ensures !StepSpec(s, inp).1 ==> !StepSpec(s, inp).0.running
  {
  }

  /** CLEAR blanks every pixel and issues one mode set. */
  lemma ClearBlanks(s: LoopState, inp: Input)
    requires D.ValidFiles(inp.files) && (Drawable(inp).Some? ==> BoxFits(s, inp))
    requires EqualIgnoringCase(Chomp(inp.line), "CLEAR")
    ensures forall i :: 0 <= i < |s.fb| ==> StepSpec(s, inp).0.fb[i] == 0
    ensures StepSpec(s, inp).0.calls == s.calls + [SetCrtc]
  {
  }

  /** A ROM that is multi-screen, has no image file or does not decode is
      skipped: nothing changes and no fallback is drawn. */
  lemma UnusableRomSkipped(s: LoopState, inp: Input)
    requires D.ValidFiles(inp.files)
    requires Classify(Chomp(inp.line)).RomLine? && Drawable(inp).None?
    ensures StepSpec(s, inp) == (s, true)
  {
  }

  /** After a ROM is drawn, the marquee's box holds the scaled image and
      every other pixel of the screen is black. */
  lemma RomFrame(s: LoopState, inp: Input, i: nat)
    requires D.ValidFiles(inp.files) && Drawable(inp).Some? && BoxFits(s, inp)
    requires i < |s.fb|
    ensures var (x, y, w, h) := Box(s, inp);
      var r := StepSpec(s, inp).0;
      r.calls == s.calls + [SetCrtc] &&
      (InRect(i, s.stridePx, x, y, w, h) ==>
        r.fb[i] == PixelFor(Drawable(inp).value, w, h, i % s.stridePx - x, i / s.stridePx - y)) &&
      (!InRect(i, s.stridePx, x, y, w, h) ==> r.fb[i] == 0)
  {
  }

  class Daemon {
    var hdisplay: nat
    var vdisplay: nat
    var stridePx: nat
    var fb: array<bv32>
    var running: bool
    var calls: seq<DrmCall>

    /** The mapping holds vdisplay rows of stridePx pixels. */
    predicate Valid()
      reads this
    {
      fb.Length == vdisplay * stridePx
    }

    function State(): LoopState
      reads this, fb
    {
      LoopState(hdisplay, vdisplay, stridePx, running, fb[..], calls)
    }

    /** The daemon once the framebuffer is mapped and blanked. */
    constructor (hd: nat, vd: nat, stride: nat)
      ensures hdisplay == hd && vdisplay == vd && stridePx == stride && running && calls == []
      ensures Valid() && fresh(fb) && forall i :: 0 <= i < fb.Length ==> fb[i] == 0
    {
      hdisplay, vdisplay, stridePx := hd, vd, stride;
      fb := new bv32[vd * stride](_ => 0);
      running := true;
      calls := [];
    }

    /** One line of the command loop. */
    method Step(inp: Input) returns (cont: bool)
      requires Valid() && D.ValidFiles(inp.files)
      requires Drawable(inp).Some? ==> BoxFits(State(), inp)
      modifies this, fb
      ensures fb == old(fb) && Valid()
      ensures (State(), cont) == StepSpec(old(State()), inp)
    {
      var cmd := Chomp(inp.line);
      if EqualIgnoringCase(cmd, "EXIT") {
        running := false;
        return false;
      } else if EqualIgnoringCase(cmd, "CLEAR") {
        Memset(fb, 0, fb.Length, 0);
        calls := calls + [SetCrtc];
      } else if cmd != [] {
        var multi := GameHasMultipleScreens(D.IniFor(inp.files, cmd));
        if multi {
          return true;
        }
        if cmd !in inp.files.roms {
          return true;  // no marquee image
        }
        var file := inp.files.roms[cmd];
        if file.Undecodable? {
          return true;  // png load failed
        }
        Memset(fb, 0, fb.Length, 0);
        var (drawW, drawH) := DrawSize(inp.heightAtFullWidth, inp.widthAtMaxHeight);
        var (drawX, drawY) := Placement(hdisplay, vdisplay, drawW, drawH);
        ScaleAndBlitRegion(Some(file.img), fb, stridePx, drawX, drawY, drawW, drawH);
        calls := calls + [SetCrtc];
      }
      return true;
    }
  }
}
