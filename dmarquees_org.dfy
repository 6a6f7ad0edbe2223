/** dmarquees-org.c, the first version: a ROM marquee is stretched over the
    bottom half at row fb_h - fb_h/2, commands lose only trailing whitespace,
    CLEAR blanks the whole buffer without a mode set, and a ROM without a
    usable image is skipped.  Its scale_and_blit_to_xrgb is
    Helpers.ScaleAndBlitToXrgb and its find_connector_mode is
    Connector.FindConnectorMode with a preferred 3840 x 2160 mode; it has no
    multi-screen check. */
module DmarqueesOrg {
  import opened Common
  import opened Raster
  import opened Helpers
  import D = Dmarquees

  const PreferredW: nat := 3840
  const PreferredH: nat := 2160

  // ---------------------------------------------------------------------
  // The inline trailing trim
  // ---------------------------------------------------------------------

  /** The characters the trailing trim removes. */
  predicate TrailJunk(c: char) {
    c == '\n' || c == '\r' || c == ' ' || c == '\t'
  }

  /** Where s[..k] ends once trailing junk is dropped. */
  function TrailEnd(s: string, k: nat): (r: nat)
    requires k <= |s|
    ensures r <= k
  {
    if k > 0 && TrailJunk(s[k - 1]) then TrailEnd(s, k - 1) else k
  }

  lemma {:induction false} TrailFacts(s: string, k: nat)
    requires k <= |s|
    ensures forall j :: TrailEnd(s, k) <= j < k ==> TrailJunk(s[j])
    ensures TrailEnd(s, k) > 0 ==> !TrailJunk(s[TrailEnd(s, k) - 1])
  {
    if k > 0 && TrailJunk(s[k - 1]) {
      TrailFacts(s, k - 1);
    }
  }

  lemma {:induction false} TrailIs(s: string, k: nat, r: nat)
    requires r <= k <= |s|
    requires forall j :: r <= j < k ==> TrailJunk(s[j])
    requires r > 0 ==> !TrailJunk(s[r - 1])
    ensures TrailEnd(s, k) == r
    decreases k - r
  {
    if r < k {
      TrailIs(s, k - 1, r);
    }
  }

  /** s without its trailing newlines, carriage returns, spaces and tabs. */
  function StripTrailing(s: string): string {
    s[..TrailEnd(s, |s|)]
  }

  /** The result is a prefix of s, everything after it is junk, and it is
      empty or ends in a character that is not. */
  lemma StripTrailingShape(s: string)
    ensures |StripTrailing(s)| <= |s| && s[..|StripTrailing(s)|] == StripTrailing(s)
    ensures forall j :: |StripTrailing(s)| <= j < |s| ==> TrailJunk(s[j])
    ensures StripTrailing(s) != [] ==> !TrailJunk(StripTrailing(s)[|StripTrailing(s)| - 1])
  {
    TrailFacts(s, |s|);
  }

  /** Stripping twice is stripping once. */
  lemma StripTrailingIdempotent(s: string)
    ensures StripTrailing(StripTrailing(s)) == StripTrailing(s)
  {
    var r := StripTrailing(s);
    StripTrailingShape(s);
    TrailIs(r, |r|, |r|);
    assert r[..|r|] == r;
  }

  /** Leading whitespace survives: the front strip only moves a pointer the
      code never reads, so a command that starts with a newline keeps it. */
  lemma LeadingNewlineKept(name: string)
    requires name != [] && !TrailJunk(name[|name| - 1])
    ensures StripTrailing("\n" + name + "\r\n") == "\n" + name
  {
    var s := "\n" + name + "\r\n";
    TrailIs(s, |s|, |s| - 2);
    assert s[..|s| - 2] == "\n" + name;
  }

  /** The backward loop that overwrites trailing junk with NULs, from
      strlen(buf) - 1 down to the first character that is not junk. */
  method TrimTrailing(buf: array<char>)
    requires '\0' in buf[..]
    modifies buf
    ensures CStr(buf[..]) == StripTrailing(old(CStr(buf[..])))
    ensures buf[..] == Filled(old(buf[..]), |StripTrailing(old(CStr(buf[..])))|, |old(CStr(buf[..]))|, '\0')
  {
    ghost var orig := buf[..];
    ghost var str := CStr(orig);
    NulFacts(orig);
    var n := 0;
    while buf[n] != '\0'
      invariant n <= NulIndex(orig)
      decreases NulIndex(orig) - n
    {
      n := n + 1;
    }
    var i: int := n - 1;
    while i >= 0
      invariant -1 <= i < n
      invariant TrailEnd(str, i + 1) == TrailEnd(str, n)
      invariant buf[..] == Filled(orig, i + 1, n, '\0')
    {
      assert buf[i] == str[i];
      if TrailJunk(buf[i]) {
        buf[i] := '\0';
      } else {
        break;
      }
      i := i - 1;
    }
    var e := i + 1;
    assert e == TrailEnd(str, n);
    assert buf[..][e] == '\0';
    CStrAt(buf[..], e);
    assert buf[..][..e] == str[..e];
  }

  // ---------------------------------------------------------------------
  // The command loop
  // ---------------------------------------------------------------------

  /** What one read() of the FIFO gives: open() failed, nothing, or n bytes
      (at most 511). */
  datatype Event = FifoError | NoData | Data(chars: seq<char>)

  datatype Input = Input(ev: Event, files: D.Files)

  predicate ValidInput(inp: Input) {
    D.ValidFiles(inp.files) && (inp.ev.Data? ==> 1 <= |inp.ev.chars| <= 511)
  }

  /** The command buf holds after buf[n] = '\0' and the trailing trim. */
  function Command(chars: seq<char>): string {
    StripTrailing(CStr(chars + ['\0']))
  }

  /** The mode's size, the row pitch in pixels, running, whether fb_map is
      mapped, the mapped pixels and the kernel calls issued. */
  datatype LoopState = LoopState(hd: nat, vd: nat, stridePx: nat, running: bool, mapped: bool,
                                 fb: seq<bv32>, calls: seq<DrmCall>)

  /** The row the ROM marquee starts at: fb_h - fb_h/2. */
  function DestY(vd: nat): nat {
    vd - vd / 2
  }

  /** One iteration of the loop: the new state and whether it goes on. */
  function StepSpec(s: LoopState, inp: Input): (LoopState, bool)
    requires ValidInput(inp)
  {
    match inp.ev
    case FifoError => (s, false)
    case NoData => (s, true)
    case Data(chars) =>
      var cmd := Command(chars);
      if cmd == [] then (s, true)
      else if EqualIgnoringCase(cmd, "EXIT") then (s.(running := false), false)
      else if EqualIgnoringCase(cmd, "CLEAR") then
        (if s.mapped then s.(fb := Filled(s.fb, 0, |s.fb|, 0)) else s, true)
      else if cmd !in inp.files.roms || inp.files.roms[cmd].Undecodable? || !s.mapped then (s, true)
      else
        (s.(fb := Blitted(s.fb, s.stridePx, 0, DestY(s.vd), s.hd, s.vd / 2, inp.files.roms[cmd].img),
            calls := s.calls + [SetCrtc]), true)
  }

  /** The marquee's rows are DestY .. vd - 1 for odd and even vd alike, so it
      fits the buffer and its last row is the screen's last row. */
  lemma MarqueeRows(hd: nat, vd: nat, stride: nat)
    requires hd <= stride
    ensures Fits(vd * stride, stride, 0, DestY(vd), hd, vd / 2)
    ensures DestY(vd) + vd / 2 == vd
    ensures vd % 2 == 1 ==> DestY(vd) == vd / 2 + 1
  {
  }

  /** CLEAR blanks a mapped buffer and, unlike the later versions, issues no
      mode set. */
  lemma ClearWithoutModeSet(s: LoopState, inp: Input)
    requires ValidInput(inp) && inp.ev.Data? && EqualIgnoringCase(Command(inp.ev.chars), "CLEAR")
    ensures StepSpec(s, inp).0.calls == s.calls && StepSpec(s, inp).1
    ensures s.mapped ==> forall i :: 0 <= i < |s.fb| ==> StepSpec(s, inp).0.fb[i] == 0
  {
  }

  /** A ROM with no image file or one that does not decode changes nothing. */
  lemma UnusableRomSkipped(s: LoopState, inp: Input)
    requires ValidInput(inp) && inp.ev.Data?
    requires var cmd := Command(inp.ev.chars);
      cmd != [] && !EqualIgnoringCase(cmd, "EXIT") && !EqualIgnoringCase(cmd, "CLEAR") &&
      (cmd !in inp.files.roms || inp.files.roms[cmd].Undecodable?)
    ensures StepSpec(s, inp) == (s, true)
  {
  }

  /** This version never looks at MAME ini files. */
  lemma IniFilesIgnored(s: LoopState, inp: Input, inis: map<string, seq<string>>)
    requires ValidInput(inp)
    ensures ValidInput(inp.(files := inp.files.(inis := inis)))
    ensures StepSpec(s, inp) == StepSpec(s, inp.(files := inp.files.(inis := inis)))
  {
  }

  /** Drawing a ROM marquee leaves rows 0 .. DestY - 1 as they were (it does
      not clear the middle row of an odd-height screen either). */
  lemma RomKeepsUpperRows(s: LoopState, inp: Input, i: nat)
    requires ValidInput(inp) && s.hd <= s.stridePx && |s.fb| == s.vd * s.stridePx
    requires inp.ev.Data? && !EqualIgnoringCase(Command(inp.ev.chars), "CLEAR")
    requires i < DestY(s.vd) * s.stridePx
    ensures i < |s.fb| && StepSpec(s, inp).0.fb[i] == s.fb[i]
  {
    MulMonoLeft(DestY(s.vd), s.vd, s.stridePx);
    if s.stridePx > 0 {
      RowBounds(s.stridePx, i, DestY(s.vd));
    }
  }

  class Daemon {
    var hdisplay: nat
    var vdisplay: nat
    var stridePx: nat
    var mapped: bool
    var fb: array<bv32>
    var running: bool
    var calls: seq<DrmCall>

    /** A mapping holds vdisplay rows of stridePx pixels, each at least as
        wide as the mode. */
    predicate Valid()
      reads this
    {
      mapped ==> fb.Length == vdisplay * stridePx && hdisplay <= stridePx
    }

    function State(): LoopState
      reads this, fb
    {
      LoopState(hdisplay, vdisplay, stridePx, running, mapped, fb[..], calls)
    }

    /** One iteration of the command loop. */
    method Step(inp: Input) returns (cont: bool)
      requires Valid() && ValidInput(inp)
      modifies this, fb
      ensures fb == old(fb) && Valid()
      ensures (State(), cont) == StepSpec(old(State()), inp)
    {
      match inp.ev {
        case FifoError =>
          return false;
        case NoData =>
          return true;  // usleep, continue
        case Data(chars) =>
          var buf := new char[|chars| + 1](i requires 0 <= i <= |chars| => if i < |chars| then chars[i] else '\0');
          assert buf[..] == chars + ['\0'];
          assert '\0' in buf[..] by {
            assert buf[|chars|] == '\0';
          }
          TrimTrailing(buf);
          var cmd := CStr(buf[..]);
          if |cmd| == 0 {
            return true;
          }
          if EqualIgnoringCase(cmd, "EXIT") {
            running := false;
            return false;
          }
          if EqualIgnoringCase(cmd, "CLEAR") {
            if mapped {
              Memset(fb, 0, fb.Length, 0);
            }
            return true;
          }
          if cmd !in inp.files.roms {
            return true;  // image missing
          }
          var file := inp.files.roms[cmd];
          if file.Undecodable? {
            return true;  // png load failed
          }
          if mapped {
            MarqueeRows(hdisplay, vdisplay, stridePx);
            ScaleAndBlitToXrgb(Some(file.img), fb, hdisplay, vdisplay, stridePx, 0, vdisplay - vdisplay / 2);
            calls := calls + [SetCrtc];
          }
          return true;
      }
    }
  }
}
