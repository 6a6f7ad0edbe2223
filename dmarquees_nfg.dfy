/** dmarquees1080p-nfg.c: a one-shot program that shows one marquee.  It
    takes the first connected connector, reads its first mode and its
    encoder's CRTC without checks, blanks the whole mapping and copies the
    image scaled to 1920 wide (at most 1080 high), centred at the bottom,
    byte by byte in B, G, R, 0xFF order.  Its scale_and_blit_to_xrgb,
    find_connector_mode (preferred 1920 x 1080) and game_has_multiple_screens
    are Helpers.ScaleAndBlitToXrgb, Connector.FindConnectorMode and
    Helpers.GameHasMultipleScreens; main calls none of them. */
module DmarqueesNfg {
  import opened Common
  import opened Raster
  import opened Connector

  const PreferredW: nat := 1920
  const PreferredH: nat := 1080

  // ---------------------------------------------------------------------
  // Output selection
  // ---------------------------------------------------------------------

  /** The first connector that could be read and is connected. */
  function FirstUsable(conns: seq<Connector>): (r: Option<nat>)
    ensures r.Some? ==> r.value < |conns| && Usable(conns[r.value])
    ensures r.Some? ==> forall j :: 0 <= j < r.value ==> !Usable(conns[j])
    ensures r.None? <==> forall j :: 0 <= j < |conns| ==> !Usable(conns[j])
  {
    if conns == [] then None
    else if Usable(conns[0]) then Some(0)
    else
      var rest := FirstUsable(conns[1..]);
      assert forall j :: 1 <= j < |conns| ==> conns[j] == conns[1..][j - 1];
      if rest.None? then None else Some(rest.value + 1)
  }

  /** The scan in main: stop at the first connector that is connected. */
  method FirstConnected(conns: seq<Connector>) returns (idx: Option<nat>)
    ensures idx == FirstUsable(conns)
  {
    var i := 0;
    while i < |conns|
      invariant 0 <= i <= |conns|
      invariant forall j :: 0 <= j < i ==> !Usable(conns[j])
    {
      var conn := conns[i];
      if conn.readable && conn.connected {
        FirstUsableIs(conns, i);
        return Some(i);
      }
      i := i + 1;
    }
    return None;
  }

  lemma {:induction false} FirstUsableIs(conns: seq<Connector>, i: nat)
    requires i < |conns| && Usable(conns[i])
    requires forall j :: 0 <= j < i ==> !Usable(conns[j])
    ensures FirstUsable(conns) == Some(i)
  {
    var r := FirstUsable(conns);
    assert r.Some? && !(r.value < i) && !(i < r.value);
  }

  /** The connector main picks can differ from find_connector_mode's: a
      connected connector without modes comes first here (and its modes[0]
      is then read out of bounds), while find_connector_mode skips it. */
  lemma PickIgnoresModes(a: Connector, b: Connector)
    requires Usable(a) && |a.modes| == 0 && Usable(b) && |b.modes| > 0
    ensures FirstUsable([a, b]) == Some(0)
    ensures !FallbackAt([a, b], 0) && FallbackAt([a, b], 1)
  {
  }

  /** The mode and CRTC main uses: modes[0] and the encoder's crtc_id, which
      the source reads without checking that either exists (an encoder_id
      of 0 makes drmModeGetEncoder return NULL). */
  function Output(c: Connector): (out: (Mode, nat))
    requires |c.modes| >= 1 && c.encoderId != 0 && c.encoderCrtc.Some?
    ensures out.0 in c.modes && out.1 == c.encoderCrtc.value
  {
    (c.modes[0], c.encoderCrtc.value)
  }

  // ---------------------------------------------------------------------
  // Sampling and the byte copy
  // ---------------------------------------------------------------------

  /** The sample index clamp: at most n - 1. */
  function ClampIndex(q: nat, n: nat): (r: nat)
    requires n >= 1
    ensures r < n
    ensures q < n ==> r == q
    ensures q >= n ==> r == n - 1
  {
    if q >= n then n - 1 else q
  }

  /** Byte col % 4 of pixel (col / 4, row) of the marquee: B, G, R of the
      clamped source pixel (sy[row], sx[col / 4]), then 0xFF.  sy and sx are
      the truncated floating-point quotients y / scale and x / scale. */
  function MarqueeByte(img: Image, sy: seq<nat>, sx: seq<nat>, col: nat, row: nat): bv8
    requires ValidImage(img)
  {
    if row < |sy| && col / 4 < |sx| then
      var y, x := ClampIndex(sy[row], img.h), ClampIndex(sx[col / 4], img.w);
      SourceIndexInBounds(img.w, img.h, x, y);
      var k := (y * img.w + x) * 4;
      match col % 4
      case 0 => img.pixels[k + 2]
      case 1 => img.pixels[k + 1]
      case 2 => img.pixels[k]
      case _ => 0xFF
    else 0
  }

  function Marquee(img: Image, sy: seq<nat>, sx: seq<nat>): (nat, nat) -> bv8
    requires ValidImage(img)
  {
    (col: nat, row: nat) => MarqueeByte(img, sy, sx, col, row)
  }

  /** The four bytes of marquee pixel (x, y): B, G, R of its clamped
      source pixel, then 0xFF. */
  lemma {:induction false} MarqueePixel(img: Image, sy: seq<nat>, sx: seq<nat>, x: nat, y: nat)
    requires ValidImage(img) && y < |sy| && x < |sx|
    ensures var sr, sc := ClampIndex(sy[y], img.h), ClampIndex(sx[x], img.w);
      (sr * img.w + sc) * 4 + 3 < |img.pixels| &&
      var k := (sr * img.w + sc) * 4;
      MarqueeByte(img, sy, sx, 4 * x, y) == img.pixels[k + 2] &&
      MarqueeByte(img, sy, sx, 4 * x + 1, y) == img.pixels[k + 1] &&
      MarqueeByte(img, sy, sx, 4 * x + 2, y) == img.pixels[k] &&
      MarqueeByte(img, sy, sx, 4 * x + 3, y) == 0xFF
  {
    SourceIndexInBounds(img.w, img.h, ClampIndex(sx[x], img.w), ClampIndex(sy[y], img.h));
    assert (4 * x) / 4 == x && (4 * x) % 4 == 0;
    assert (4 * x + 1) / 4 == x && (4 * x + 1) % 4 == 1;
    assert (4 * x + 2) / 4 == x && (4 * x + 2) % 4 == 2;
    assert (4 * x + 3) / 4 == x && (4 * x + 3) % 4 == 3;
  }

  /** The nested copy loop: |sy| rows of |sx| pixels, four bytes each, at
      byte offset (yOff * pitch + xOff * 4). */
  method CopyScaled(mem: array<bv8>, pitch: nat, xOff: nat, yOff: nat, img: Image, sy: seq<nat>, sx: seq<nat>)
    requires ValidImage(img)
    requires Fits(mem.Length, pitch, 4 * xOff, yOff, 4 * |sx|, |sy|)
    modifies mem
    ensures mem[..] == Painted(old(mem[..]), pitch, 4 * xOff, yOff, 4 * |sx|, |sy|, 0, Marquee(img, sy, sx))
  {
    ghost var f := Marquee(img, sy, sx);
    var newW, newH := |sx|, |sy|;
    PaintedNone(mem[..], pitch, 4 * xOff, yOff, 4 * newW, f);
    var y := 0;
    while y < newH
      invariant 0 <= y <= newH
      invariant mem[..] == Painted(old(mem[..]), pitch, 4 * xOff, yOff, 4 * newW, y, 0, f)
    {
      var syc := sy[y];
      if syc >= img.h {
        syc := img.h - 1;
      }
      var x := 0;
      while x < newW
        invariant 0 <= x <= newW
        invariant mem[..] == Painted(old(mem[..]), pitch, 4 * xOff, yOff, 4 * newW, y, 4 * x, f)
      {
        CopyPixel(mem, old(mem[..]), pitch, xOff, yOff, img, sy, sx, y, syc, x);
        x := x + 1;
      }
      PaintedRow(old(mem[..]), pitch, 4 * xOff, yOff, 4 * newW, y, f);
      y := y + 1;
    }
  }

  /** The inner loop's body: the four bytes of pixel x of row y, from
      source row syc (the clamped sy[y]) and the clamped sx[x]. */
  method CopyPixel(mem: array<bv8>, ghost orig: seq<bv8>, pitch: nat, xOff: nat, yOff: nat,
                   img: Image, sy: seq<nat>, sx: seq<nat>, y: nat, syc: nat, x: nat)
    requires ValidImage(img) && y < |sy| && x < |sx| && syc == ClampIndex(sy[y], img.h)
    requires |orig| == mem.Length && Fits(mem.Length, pitch, 4 * xOff, yOff, 4 * |sx|, |sy|)
    requires mem[..] == Painted(orig, pitch, 4 * xOff, yOff, 4 * |sx|, y, 4 * x, Marquee(img, sy, sx))
    modifies mem
    ensures mem[..] == Painted(orig, pitch, 4 * xOff, yOff, 4 * |sx|, y, 4 * (x + 1), Marquee(img, sy, sx))
  {
    ghost var f := Marquee(img, sy, sx);
    var sxc := sx[x];
    if sxc >= img.w {
      sxc := img.w - 1;
    }
    MarqueePixel(img, sy, sx, x, y);
    var s := (syc * img.w + sxc) * 4;
    WritePixel(mem, orig, pitch, 4 * xOff, yOff, 4 * |sx|, |sy|, y, 4 * x, f,
               img.pixels[s + 2], img.pixels[s + 1], img.pixels[s], 0xFF);
  }

  /** dst[x * 4 + 0 .. 3] = b0, b1, b2, b3. */
  method WritePixel(mem: array<bv8>, ghost orig: seq<bv8>, pitch: nat, dx: nat, dy: nat, w: nat, h: nat,
                    row: nat, col: nat, ghost f: (nat, nat) -> bv8, b0: bv8, b1: bv8, b2: bv8, b3: bv8)
    requires row < h && col + 4 <= w && |orig| == mem.Length && Fits(mem.Length, pitch, dx, dy, w, h)
    requires mem[..] == Painted(orig, pitch, dx, dy, w, row, col, f)
    requires b0 == f(col, row) && b1 == f(col + 1, row) && b2 == f(col + 2, row) && b3 == f(col + 3, row)
    modifies mem
    ensures mem[..] == Painted(orig, pitch, dx, dy, w, row, col + 4, f)
  {
    WriteByte(mem, orig, pitch, dx, dy, w, h, row, col, f, b0);
    WriteByte(mem, orig, pitch, dx, dy, w, h, row, col + 1, f, b1);
    WriteByte(mem, orig, pitch, dx, dy, w, h, row, col + 2, f, b2);
    WriteByte(mem, orig, pitch, dx, dy, w, h, row, col + 3, f, b3);
  }

  /** dst[col] = v for the next byte of row `row`, when v is the byte the
      fill has there: the fill gets one byte further. */
  method WriteByte(mem: array<bv8>, ghost orig: seq<bv8>, pitch: nat, dx: nat, dy: nat, w: nat, h: nat,
                   row: nat, col: nat, ghost f: (nat, nat) -> bv8, v: bv8)
    requires row < h && col < w && |orig| == mem.Length && Fits(mem.Length, pitch, dx, dy, w, h)
    requires mem[..] == Painted(orig, pitch, dx, dy, w, row, col, f)
    requires v == f(col, row)
    modifies mem
    ensures mem[..] == Painted(orig, pitch, dx, dy, w, row, col + 1, f)
  {
    PaintedStep(orig, pitch, dx, dy, w, h, row, col, f);
    var k := RectIndex(pitch, dx, dy, col, row);
    mem[k] := v;
  }

  // ---------------------------------------------------------------------
  // main
  // ---------------------------------------------------------------------

  /** What main meets: the decoded image (None when the file is missing or
      does not decode), the connectors (None when the card or its resources
      cannot be opened), the truncated floating-point results (ih * 1920/iw,
      and iw * 1080/ih) that size the marquee, the per-row and per-column
      sample quotients, and the outcome of each kernel call with the pitch
      and size CREATE_DUMB reports. */
  datatype Setup = Setup(
    img: Option<Image>,
    conns: Option<seq<Connector>>,
    heightAtFullWidth: int,
    widthAtMaxHeight: int,
    sy: seq<nat>,
    sx: seq<nat>,
    createOk: bool,
    pitch: nat,
    size: nat,
    addFbOk: bool,
    mmapOk: bool)

  /** The connector main takes, when the image and the card are there. */
  function Picked(st: Setup): Option<Connector>
  {
    if st.img.None? || st.conns.None? then None
    else
      var idx := FirstUsable(st.conns.value);
      if idx.None? then None else Some(st.conns.value[idx.value])
  }

  /** What the source reads without checks: the picked connector has a
      mode and a non-zero, readable encoder, and once the buffer is mapped, the
      marquee box lies inside it with one sample quotient per row and per
      column. */
  predicate Defined(st: Setup) {
    match Picked(st)
    case None => true
    case Some(c) =>
      |c.modes| >= 1 && c.encoderId != 0 && c.encoderCrtc.Some? &&
      (st.createOk && st.addFbOk && st.mmapOk ==> BoxFits(st, c.modes[0]))
  }

  /** The marquee's top-left pixel and size in the mode. */
  function Box(st: Setup, m: Mode): (int, int, int, int) {
    var (w, h) := DrawSize(st.heightAtFullWidth, st.widthAtMaxHeight);
    var (x, y) := Placement(m.hdisplay, m.vdisplay, w, h);
    (x, y, w, h)
  }

  predicate BoxFits(st: Setup, m: Mode) {
    var (x, y, w, h) := Box(st, m);
    x >= 0 && y >= 0 && w >= 0 && h >= 0 && |st.sx| == w && |st.sy| == h &&
    Fits(st.size, st.pitch, 4 * x, y, 4 * w, h)
  }

  /** The mapping once main has drawn: all bytes 0 except the marquee. */
  function Frame(d: seq<bv8>, st: Setup, m: Mode): (r: seq<bv8>)
    requires st.img.Some? && ValidImage(st.img.value) && BoxFits(st, m) && |d| == st.size
    ensures |r| == |d|
  {
    var (x, y, w, h) := Box(st, m);
    Painted(Filled(d, 0, |d|, 0), st.pitch, 4 * x, y, 4 * w, h, 0, Marquee(st.img.value, st.sy, st.sx))
  }

  /** main's exit code and the kernel calls it makes on the buffer, in
      order; drawing happens when Mmap is the fourth call. */
  function MainSpec(st: Setup): (r: (int, seq<DrmCall>))
  {
    if Picked(st).None? then (1, [])
    else if !st.createOk then (1, [CreateDumb])
    else if !st.addFbOk then (1, [CreateDumb, AddFB])
    else if !st.mmapOk then (1, [CreateDumb, AddFB, MapDumb, Mmap])
    else (0, [CreateDumb, AddFB, MapDumb, Mmap, SetCrtc, Munmap, RmFB, DestroyDumb])
  }

  predicate Draws(st: Setup) {
    Picked(st).Some? && st.createOk && st.addFbOk && st.mmapOk
  }

  /** main from the image load to the final cleanup; `mem` stands for the
      buffer mmap returns and pause() until SIGINT is left out. */
  method ShowMarquee(st: Setup, mem: array<bv8>) returns (code: int, calls: seq<DrmCall>, mode: Option<Mode>, crtc: nat)
    requires st.img.Some? ==> ValidImage(st.img.value)
    requires Defined(st) && mem.Length == st.size
    modifies mem
    ensures (code, calls) == MainSpec(st)
    ensures Picked(st).Some? ==> mode == Some(Picked(st).value.modes[0]) && crtc == Picked(st).value.encoderCrtc.value
    ensures Draws(st) ==> mem[..] == Frame(old(mem[..]), st, Picked(st).value.modes[0])
    ensures !Draws(st) ==> mem[..] == old(mem[..])
  {
    mode, crtc := None, 0;
    if st.img.None? {  // no image file, or load_png failed
      code, calls := 1, [];
      return;
    }
    var img := st.img.value;
    if st.conns.None? {  // open of the card or drmModeGetResources failed
      code, calls := 1, [];
      return;
    }
    var conns := st.conns.value;
    var idx := FirstConnected(conns);
    if idx.None? {  // no connected connector
      code, calls := 1, [];
      return;
    }
    var conn := conns[idx.value];
    var m, c := Output(conn).0, Output(conn).1;
    mode, crtc := Some(m), c;
    calls := [CreateDumb];
    if !st.createOk {
      code := 1;
      return;
    }
    calls := [CreateDumb, AddFB];
    if !st.addFbOk {
      code := 1;
      return;
    }
    calls := [CreateDumb, AddFB, MapDumb, Mmap];  // MAP_DUMB's result is not checked
    if !st.mmapOk {
      code := 1;
      return;
    }
    Memset(mem, 0, mem.Length, 0);
    var (w, h) := DrawSize(st.heightAtFullWidth, st.widthAtMaxHeight);
    var (xOff, yOff) := Placement(m.hdisplay, m.vdisplay, w, h);
    CopyScaled(mem, st.pitch, xOff, yOff, img, st.sy, st.sx);
    calls := calls + [SetCrtc];  // a failure is only reported
    calls := calls + [Munmap, RmFB, DestroyDumb];
    assert calls == [CreateDumb, AddFB, MapDumb, Mmap, SetCrtc, Munmap, RmFB, DestroyDumb];
    code := 0;
  }

  /** Byte col of row y of the marquee, at offset i = (yOff + y) * pitch +
      xOff * 4 + col of the mapping, is the marquee's byte there. */
  lemma FrameByte(d: seq<bv8>, st: Setup, m: Mode, xOff: nat, yOff: nat, w: nat, h: nat, col: nat, y: nat, i: nat)
    requires st.img.Some? && ValidImage(st.img.value) && BoxFits(st, m) && |d| == st.size
    requires Box(st, m) == (xOff, yOff, w, h) && col < 4 * w && y < h
    requires i == (yOff + y) * st.pitch + 4 * xOff + col
    ensures i < |d| && Frame(d, st, m)[i] == MarqueeByte(st.img.value, st.sy, st.sx, col, y)
  {
    RectIndexInRect(st.pitch, 4 * xOff, yOff, 4 * w, h, col, y);
    InRectBelow(|d|, st.pitch, 4 * xOff, yOff, 4 * w, h, i);
    PaintedAt(Filled(d, 0, |d|, 0), st.pitch, 4 * xOff, yOff, 4 * w, h, Marquee(st.img.value, st.sy, st.sx), i);
  }

  /** Pixel (x, y) of the marquee, whose box is (xOff, yOff, w, h), starts
      at offset i = (yOff + y) * pitch + (xOff + x) * 4 of the mapping and
      is stored there as B, G, R, 0xFF of the source pixel at the clamped
      sample position (sy[y], sx[x]). */
  lemma {:induction false} FramePixel(d: seq<bv8>, st: Setup, m: Mode, xOff: nat, yOff: nat, w: nat, h: nat,
                                      x: nat, y: nat, i: nat)
    requires st.img.Some? && ValidImage(st.img.value) && BoxFits(st, m) && |d| == st.size
    requires Box(st, m) == (xOff, yOff, w, h) && x < w && y < h
    requires i == (yOff + y) * st.pitch + (xOff + x) * 4
    ensures var img := st.img.value;
      var p := (ClampIndex(st.sy[y], img.h) * img.w + ClampIndex(st.sx[x], img.w)) * 4;
      i + 3 < |d| && p + 3 < |img.pixels| &&
      Frame(d, st, m)[i] == img.pixels[p + 2] && Frame(d, st, m)[i + 1] == img.pixels[p + 1] &&
      Frame(d, st, m)[i + 2] == img.pixels[p] && Frame(d, st, m)[i + 3] == 0xFF
  {
    MarqueePixel(st.img.value, st.sy, st.sx, x, y);
    FrameByte(d, st, m, xOff, yOff, w, h, 4 * x, y, i);
    FrameByte(d, st, m, xOff, yOff, w, h, 4 * x + 1, y, i + 1);
    FrameByte(d, st, m, xOff, yOff, w, h, 4 * x + 2, y, i + 2);
    FrameByte(d, st, m, xOff, yOff, w, h, 4 * x + 3, y, i + 3);
  }

  /** Every byte outside the marquee is black: the memset of the whole
      mapping is never overwritten there. */
  lemma FrameOutsideBlack(d: seq<bv8>, st: Setup, m: Mode, i: nat)
    requires st.img.Some? && ValidImage(st.img.value) && BoxFits(st, m) && |d| == st.size
    requires i < |d|
    requires var (x, y, w, h) := Box(st, m); !InRect(i, st.pitch, 4 * x, y, 4 * w, h)
    ensures Frame(d, st, m)[i] == 0
  {
    var (x, y, w, h) := Box(st, m);
    PaintedAt(Filled(d, 0, |d|, 0), st.pitch, 4 * x, y, 4 * w, h, Marquee(st.img.value, st.sy, st.sx), i);
  }

  /** The mapping main draws does not depend on what the buffer held. */
  lemma FrameForgetsBuffer(d: seq<bv8>, e: seq<bv8>, st: Setup, m: Mode)
    requires st.img.Some? && ValidImage(st.img.value) && BoxFits(st, m) && |d| == |e| == st.size
    ensures Frame(d, st, m) == Frame(e, st, m)
  {
    assert Filled(d, 0, |d|, 0) == Filled(e, 0, |e|, 0);
  }

  /** Every failure after CREATE_DUMB returns without releasing what was
      set up: the dumb buffer (and the framebuffer) leak to process exit. */
  lemma FailuresLeakBuffer(st: Setup)
    requires MainSpec(st).0 == 1 && Picked(st).Some? && st.createOk
    ensures CreateDumb in MainSpec(st).1 && DestroyDumb !in MainSpec(st).1
    ensures st.addFbOk ==> AddFB in MainSpec(st).1 && RmFB !in MainSpec(st).1
  {
  }

  /** A successful run releases the mapping, the framebuffer and the dumb
      buffer in the reverse order of setting them up, and never takes DRM
      master. */
  lemma SuccessReleasesInReverse(st: Setup)
    requires MainSpec(st).0 == 0
    ensures var t := MainSpec(st).1;
      |t| == 8 && t[..4] == [CreateDumb, AddFB, MapDumb, Mmap] && t[4] == SetCrtc &&
      t[5..] == [Munmap, RmFB, DestroyDumb] && (forall i :: 0 <= i < |t| ==> !t[i].SetMaster? && !t[i].DropMaster?)
  {
  }
}
