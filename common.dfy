/** Types shared by every variant of the marquee daemon: C strings, the
    enumerations of helpers.h, decoded images and the XRGB8888 pixel format. */
module Common {

  datatype Option<+T> = None | Some(value: T)

  // ---------------------------------------------------------------------
  // Characters and C strings
  // ---------------------------------------------------------------------

  /** isspace() in the "C" locale. */
  predicate IsSpace(c: char) {
    c == ' ' || c == '\t' || c == '\n' || c == '\U{0B}' || c == '\U{0C}' || c == '\r'
  }

  /** tolower() in the "C" locale: only ASCII letters change. */
  function Lower(c: char): (r: char)
    ensures 'A' <= c <= 'Z' ==> r as int == c as int + 32
    ensures !('A' <= c <= 'Z') ==> r == c
  {
    if 'A' <= c <= 'Z' then (c as int + 32) as char else c
  }

  /** strcasecmp(a, b) == 0 on strings without NUL. */
  predicate EqualIgnoringCase(a: string, b: string) {
    |a| == |b| && forall k :: 0 <= k < |a| ==> Lower(a[k]) == Lower(b[k])
  }

  /** Index of the first c at or after k, or the length if none. */
  function IndexFrom(s: seq<char>, k: nat, c: char): (r: nat)
    requires k <= |s|
    ensures k <= r <= |s|
    ensures r < |s| ==> s[r] == c
    decreases |s| - k
  {
    if k < |s| && s[k] != c then IndexFrom(s, k + 1, c) else k
  }

  /** Index of the first NUL of a character buffer, or its length if none. */
  function NulIndex(s: seq<char>): (k: nat)
    ensures k <= |s|
    ensures k < |s| ==> s[k] == '\0'
  {
    IndexFrom(s, 0, '\0')
  }

  /** No c lies between k and IndexFrom(s, k, c). */
  lemma {:induction false} IndexFromFacts(s: seq<char>, k: nat, c: char)
    requires k <= |s|
    ensures forall j :: k <= j < IndexFrom(s, k, c) ==> s[j] != c
    decreases |s| - k
  {
    if k < |s| && s[k] != c {
      IndexFromFacts(s, k + 1, c);
    }
  }

  /** The C string of a buffer holds no NUL. */
  lemma NulFacts(s: seq<char>)
    ensures forall j :: 0 <= j < NulIndex(s) ==> s[j] != '\0'
  {
    IndexFromFacts(s, 0, '\0');
  }

  /** A c at r with none from k up to it is the first c from k. */
  lemma {:induction false} IndexFromIs(s: seq<char>, k: nat, r: nat, c: char)
    requires k <= r < |s| && s[r] == c
    requires forall j :: k <= j < r ==> s[j] != c
    ensures IndexFrom(s, k, c) == r
    decreases r - k
  {
    if k < r {
      IndexFromIs(s, k + 1, r, c);
    }
  }

  /** The C string a buffer holds: everything before its first NUL. */
  function CStr(s: seq<char>): (r: string)
    ensures r == s[..NulIndex(s)]
  {
    s[..NulIndex(s)]
  }

  /** A NUL at position k with none before it ends the C string at k. */
  lemma CStrAt(s: seq<char>, k: nat)
    requires k < |s| && s[k] == '\0'
    requires forall j :: 0 <= j < k ==> s[j] != '\0'
    ensures CStr(s) == s[..k]
  {
    IndexFromIs(s, 0, k, '\0');
  }

  // ---------------------------------------------------------------------
  // Enumerations of helpers.h
  // ---------------------------------------------------------------------

  /** FrontendMode: eNA = 0, eSA = 1, eRA = 2. */
  datatype FrontendMode = NA | SA | RA

  /** A command read from the FIFO.  The current daemon also knows NA, which
      helpers.h's CommandType lacks; anything unrecognised is a ROM name. */
  datatype Command = Exit | Clear | CmdRA | CmdSA | CmdNA | Rom(name: string)

  /** Case-insensitive command recognition, as strcasecmp is used in
      dmarquees-1.1.1.c.  Unknown words are ROM short names. */
  function ParseCommand(s: string): (c: Command)
    ensures c == Exit <==> EqualIgnoringCase(s, "EXIT")
    ensures c == Clear <==> EqualIgnoringCase(s, "CLEAR")
    ensures c == CmdRA <==> EqualIgnoringCase(s, "RA")
    ensures c == CmdSA <==> EqualIgnoringCase(s, "SA")
    ensures c == CmdNA <==> EqualIgnoringCase(s, "NA")
    ensures c.Rom? ==> c.name == s
  {
    if EqualIgnoringCase(s, "EXIT") then Exit
    else if EqualIgnoringCase(s, "CLEAR") then Clear
    else if EqualIgnoringCase(s, "RA") then
      assert Lower(s[0]) == Lower("RA"[0]) == 'r';
      CmdRA
    else if EqualIgnoringCase(s, "SA") then
      assert Lower(s[0]) == Lower("SA"[0]) == 's';
      CmdSA
    else if EqualIgnoringCase(s, "NA") then CmdNA
    else Rom(s)
  }

  // ---------------------------------------------------------------------
  // Decoded images and pixels
  // ---------------------------------------------------------------------

  /** What the PNG loader hands over: RGBA bytes, row after row, w*h*4 long. */
  datatype Image = Image(pixels: seq<bv8>, w: nat, h: nat)

  predicate ValidImage(img: Image) {
    img.w >= 1 && img.h >= 1 && |img.pixels| == img.w * img.h * 4
  }

  /** ((uint32_t)r << 16) | ((uint32_t)g << 8) | b, i.e. 0x00RRGGBB. */
  function Xrgb(r: bv8, g: bv8, b: bv8): (p: bv32)
    ensures p & 0xFF00_0000 == 0
    ensures ((p >> 16) & 0xFF) as bv8 == r
    ensures ((p >> 8) & 0xFF) as bv8 == g
    ensures (p & 0xFF) as bv8 == b
  {
    ((r as bv32) << 16) | ((g as bv32) << 8) | (b as bv32)
  }

  /** Kernel calls whose order and number the daemons' properties talk about:
      display rights and mode setting, and the dumb-buffer lifecycle.  A
      drmSetMaster or drmDropMaster records whether it succeeded. */
  datatype DrmCall =
    | SetMaster(ok: bool) | SetCrtc | DropMaster(ok: bool)
    | CreateDumb | MapDumb | Mmap | AddFB | RmFB | Munmap | DestroyDumb
}
