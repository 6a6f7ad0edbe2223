/** helpers.c: trim, the numscreens scan of game_has_multiple_screens and the
    bottom-half nearest-neighbour blit scale_and_blit_to_xrgb. */
module Helpers {
  import opened Common
  import opened Raster

  // ---------------------------------------------------------------------
  // trim
  // ---------------------------------------------------------------------

  /** The first index at or after k that does not hold whitespace. */
  function SkipSpace(s: string, k: nat): (r: nat)
    requires k <= |s|
    ensures k <= r <= |s|
    decreases |s| - k
  {
    if k < |s| && IsSpace(s[k]) then SkipSpace(s, k + 1) else k
  }

  /** The least r <= k such that s[r..k] is all whitespace. */
  function BackSpace(s: string, k: nat): (r: nat)
    requires k <= |s|
    ensures r <= k
  {
    if k > 0 && IsSpace(s[k - 1]) then BackSpace(s, k - 1) else k
  }

  /** Where the leading whitespace ends. */
  function Lead(s: string): (k: nat)
    ensures k <= |s|
  {
    SkipSpace(s, 0)
  }

  /** Where the trailing whitespace starts. */
  function TrimEnd(s: string): (k: nat)
    ensures k <= |s|
  {
    BackSpace(s, |s|)
  }

  /** SkipSpace passes over whitespace only and stops at the first other
      character. */
  lemma {:induction false} SkipFacts(s: string, k: nat)
    requires k <= |s|
    ensures forall j :: k <= j < SkipSpace(s, k) ==> IsSpace(s[j])
    ensures SkipSpace(s, k) < |s| ==> !IsSpace(s[SkipSpace(s, k)])
    decreases |s| - k
  {
    if k < |s| && IsSpace(s[k]) {
      SkipFacts(s, k + 1);
    }
  }

  /** BackSpace passes back over whitespace only and stops after the last
      other character. */
  lemma {:induction false} BackFacts(s: string, k: nat)
    requires k <= |s|
    ensures forall j :: BackSpace(s, k) <= j < k ==> IsSpace(s[j])
    ensures BackSpace(s, k) > 0 ==> !IsSpace(s[BackSpace(s, k) - 1])
  {
    if k > 0 && IsSpace(s[k - 1]) {
      BackFacts(s, k - 1);
    }
  }

  /** The first non-whitespace position at or after k is SkipSpace(s, k). */
  lemma {:induction false} SkipIs(s: string, k: nat, r: nat)
    requires k <= r <= |s|
    requires forall j :: k <= j < r ==> IsSpace(s[j])
    requires r < |s| ==> !IsSpace(s[r])
    ensures SkipSpace(s, k) == r
    decreases r - k
  {
    if k < r {
      SkipIs(s, k + 1, r);
    }
  }

  /** The position after the last non-whitespace character before k is
      BackSpace(s, k). */
  lemma {:induction false} BackIs(s: string, k: nat, r: nat)
    requires r <= k <= |s|
    requires forall j :: r <= j < k ==> IsSpace(s[j])
    requires r > 0 ==> !IsSpace(s[r - 1])
    ensures BackSpace(s, k) == r
    decreases k - r
  {
    if r < k {
      BackIs(s, k - 1, r);
    }
  }

  /** The string trim leaves behind: the slice between the leading and the
      trailing whitespace (empty when the two meet, i.e. when s is all
      whitespace). */
  function TrimStr(s: string): string {
    var b, e := Lead(s), TrimEnd(s);
    s[b..if b <= e then e else b]
  }

  lemma SplitThree<T>(s: seq<T>, i: nat, j: nat)
    requires i <= j <= |s|
    ensures s == s[..i] + s[i..j] + s[j..]
  {
  }

  lemma PrefixSlice<T>(s: seq<T>, n: nat, i: nat, j: nat)
    requires i <= j <= n <= |s|
    ensures s[..n][i..j] == s[i..j]
  {
  }

  /** trim removes a prefix of whitespace and a suffix of whitespace. */
  lemma TrimSplit(s: string)
    ensures Lead(s) + |TrimStr(s)| <= |s|
    ensures s == s[..Lead(s)] + TrimStr(s) + s[Lead(s) + |TrimStr(s)|..]
    ensures forall j :: 0 <= j < Lead(s) ==> IsSpace(s[j])
    ensures forall j :: Lead(s) + |TrimStr(s)| <= j < |s| ==> IsSpace(s[j])
  {
    var b, e := Lead(s), TrimEnd(s);
    var stop := if b <= e then e else b;
    assert TrimStr(s) == s[b..stop];
    SkipFacts(s, 0);
    BackFacts(s, |s|);
    assert e <= stop;
    SplitThree(s, b, stop);
  }

  /** The trimmed string neither starts nor ends with whitespace. */
  lemma TrimEnds(s: string)
    ensures TrimStr(s) != [] ==> !IsSpace(TrimStr(s)[0]) && !IsSpace(TrimStr(s)[|TrimStr(s)| - 1])
  {
    var b, e := Lead(s), TrimEnd(s);
    var r := TrimStr(s);
    SkipFacts(s, 0);
    BackFacts(s, |s|);
    if r != [] {
      assert r[0] == s[b] && r[|r| - 1] == s[e - 1];
    }
  }

  /** trim gives the empty string exactly for all-whitespace input. */
  lemma TrimEmpty(s: string)
    ensures TrimStr(s) == [] <==> forall j :: 0 <= j < |s| ==> IsSpace(s[j])
  {
    SkipFacts(s, 0);
    BackFacts(s, |s|);
  }

  /** What trim promises: nothing but whitespace is removed, from both ends
      only, the result neither starts nor ends with whitespace, and it is
      empty exactly when the input is all whitespace. */
  lemma TrimShape(s: string)
    ensures Lead(s) + |TrimStr(s)| <= |s|
    ensures s == s[..Lead(s)] + TrimStr(s) + s[Lead(s) + |TrimStr(s)|..]
    ensures forall j :: 0 <= j < Lead(s) ==> IsSpace(s[j])
    ensures forall j :: Lead(s) + |TrimStr(s)| <= j < |s| ==> IsSpace(s[j])
    ensures TrimStr(s) != [] ==> !IsSpace(TrimStr(s)[0]) && !IsSpace(TrimStr(s)[|TrimStr(s)| - 1])
    ensures TrimStr(s) == [] <==> forall j :: 0 <= j < |s| ==> IsSpace(s[j])
  {
    TrimSplit(s);
    TrimEnds(s);
    TrimEmpty(s);
  }

  /** Trimming twice is trimming once. */
  lemma TrimIdempotent(s: string)
    ensures TrimStr(TrimStr(s)) == TrimStr(s)
  {
    var r := TrimStr(s);
    TrimEnds(s);
    SkipIs(r, 0, 0);
    BackIs(r, |r|, |r|);
    assert r[0..|r|] == r;
  }

  /** A NUL written at end + 1, inside the C string, cuts it there. */
  lemma CutAt(buf: seq<char>, i: nat, end: nat)
    requires i <= end < |buf| - 1
    requires forall j :: i <= j <= end ==> buf[j] != '\0'
    ensures CStr(buf[end + 1 := '\0'][i..]) == buf[i..end + 1]
  {
    var cut := buf[end + 1 := '\0'];
    var tail := cut[i..];
    forall j | 0 <= j < end + 1 - i
      ensures tail[j] == buf[i + j] != '\0'
    {
      assert tail[j] == cut[i + j];
    }
    assert tail[end + 1 - i] == '\0';
    CStrAt(tail, end + 1 - i);
    assert tail[..end + 1 - i] == buf[i..end + 1];
  }

  /** The last step of trim on the C string buf[..len], whose leading
      whitespace ends at i and whose trailing whitespace starts at end + 1:
      the NUL written at end + 1 leaves the trimmed string at offset i. */
  lemma TrimCut(buf: seq<char>, len: nat, i: nat, end: nat)
    requires i <= end < len < |buf|
    requires forall j :: 0 <= j < len ==> buf[j] != '\0'
    requires i == Lead(buf[..len]) && end + 1 == TrimEnd(buf[..len])
    ensures i + |TrimStr(buf[..len])| == end + 1
    ensures CStr(buf[end + 1 := '\0'][i..]) == TrimStr(buf[..len])
  {
    PrefixSlice(buf, len, i, end + 1);
    CutAt(buf, i, end);
  }

  /** trim(str) on a NUL-terminated buffer: NULL gives NULL; otherwise the
      result is the offset of the first non-whitespace character within the
      same buffer, and a NUL is written just after the last non-whitespace
      character, so the C string at the result is the trimmed input. */
  method Trim(a: array?<char>) returns (r: Option<nat>)
    requires a != null ==> '\0' in a[..]
    modifies a
    ensures a == null <==> r.None?
    ensures a != null ==> r.value == Lead(old(CStr(a[..])))
    ensures a != null ==> r.value + |TrimStr(old(CStr(a[..])))| < a.Length
    ensures a != null ==> CStr(a[r.value..]) == TrimStr(old(CStr(a[..])))
    ensures a != null ==>
      a[..] == old(a[..])[r.value + |TrimStr(old(CStr(a[..])))| := '\0']
  {
    if a == null {
      return None;
    }
    ghost var buf := a[..];
    ghost var len := NulIndex(buf);
    ghost var str := CStr(buf);
    NulFacts(buf);
    assert len < a.Length && str == buf[..len];
    var i := 0;
    while a[i] != '\0' && IsSpace(a[i])
      invariant 0 <= i <= len
      invariant SkipSpace(str, i) == Lead(str)
      invariant a[..] == buf
      decreases len - i
    {
      assert str[i] == a[i];
      i := i + 1;
    }
    if a[i] == '\0' {
      // all whitespace: the string at i is empty and nothing is written
      CStrAt(buf[i..], 0);
      assert buf[i := '\0'] == buf;
      return Some(i);
    }
    assert str[i] == a[i];
    var n := i;  // str + strlen(str)
    while a[n] != '\0'
      invariant i <= n <= len
      invariant a[..] == buf
      decreases len - n
    {
      n := n + 1;
    }
    var end := n - 1;
    while end > i && IsSpace(a[end])
      invariant i <= end < len
      invariant BackSpace(str, end + 1) == TrimEnd(str)
      invariant a[..] == buf
    {
      assert str[end] == a[end];
      end := end - 1;
    }
    assert str[end] == a[end];
    TrimCut(buf, len, i, end);
    a[end + 1] := '\0';
    assert a[..] == buf[end + 1 := '\0'];
    return Some(i);
  }

  // ---------------------------------------------------------------------
  // game_has_multiple_screens: the scan over the lines of <rom>.ini
  // ---------------------------------------------------------------------

  /** strncasecmp(line, "numscreens", 10) == 0 */
  predicate IsKeyLine(line: string) {
    |line| >= 10 && EqualIgnoringCase(line[..10], "numscreens")
  }

  predicate IsDigit(c: char) {
    '0' <= c <= '9'
  }

  /** Number of leading decimal digits. */
  function DigitRun(s: string): (k: nat)
    ensures k <= |s|
    ensures forall j :: 0 <= j < k ==> IsDigit(s[j])
    ensures k < |s| ==> !IsDigit(s[k])
  {
    if s != [] && IsDigit(s[0]) then 1 + DigitRun(s[1..]) else 0
  }

  function DigitsValue(ds: string): nat
    requires forall j :: 0 <= j < |ds| ==> IsDigit(ds[j])
  {
    if ds == [] then 0
    else
      assert IsDigit(ds[|ds| - 1]);
      DigitsValue(ds[..|ds| - 1]) * 10 + (ds[|ds| - 1] as int - '0' as int)
  }

  /** The %d conversion of sscanf: whitespace, an optional sign, at least
      one digit. */
  function ScanInt(s: string): (r: Option<int>)
    ensures r.Some? ==> exists k :: Lead(s) <= k < |s| && IsDigit(s[k])
  {
    var t := s[Lead(s)..];
    var signLen := if t != [] && (t[0] == '-' || t[0] == '+') then 1 else 0;
    var u := t[signLen..];
    var k := DigitRun(u);
    if k == 0 then None
    else
      assert IsDigit(s[Lead(s) + signLen]);
      var v: int := DigitsValue(u[..k]);
      Some(if signLen == 1 && t[0] == '-' then -v else v)
  }

  /** sscanf(line, "numscreens %d", &n) == 1: the literal is matched with
      its case, then whitespace and a decimal integer. */
  function ScanNumscreens(line: string): (r: Option<int>)
    ensures r.Some? ==> |line| >= 10 && line[..10] == "numscreens"
  {
    if |line| >= 10 && line[..10] == "numscreens" then ScanInt(line[10..]) else None
  }

  /** The index of the first line the scan stops at, if any. */
  function FirstKeyLine(lines: seq<string>): (r: Option<nat>)
    ensures r.Some? ==> r.value < |lines| && IsKeyLine(lines[r.value])
    ensures r.Some? ==> forall j :: 0 <= j < r.value ==> !IsKeyLine(lines[j])
    ensures r.None? <==> forall j :: 0 <= j < |lines| ==> !IsKeyLine(lines[j])
  {
    if lines == [] then None
    else if IsKeyLine(lines[0]) then Some(0)
    else match FirstKeyLine(lines[1..]) {
      case None => None
      case Some(k) => Some(k + 1)
    }
  }

  /** The verdict of game_has_multiple_screens for the lines of the ini file
      (None: the file cannot be opened). */
  function MultiScreens(ini: Option<seq<string>>): bool {
    ini.Some? &&
    match FirstKeyLine(ini.value) {
      case None => false
      case Some(k) => ScanNumscreens(ini.value[k]).Some? && ScanNumscreens(ini.value[k]).value > 1
    }
  }

  /** A key line with no key line before it is the first key line. */
  lemma FirstKeyLineIs(lines: seq<string>, i: nat)
    requires i < |lines| && IsKeyLine(lines[i])
    requires forall j :: 0 <= j < i ==> !IsKeyLine(lines[j])
    ensures FirstKeyLine(lines) == Some(i)
  {
    var r := FirstKeyLine(lines);
    assert r.Some? && !(r.value < i) && !(i < r.value);
  }

  /** The verdict is decided by the first key line alone: multi-screen iff
      there is a key line, none before it, and the case-sensitive scan of
      that line yields more than one screen. */
  lemma MultiScreensIff(lines: seq<string>)
    ensures MultiScreens(Some(lines)) <==>
      exists k :: 0 <= k < |lines| && IsKeyLine(lines[k]) &&
        (forall j :: 0 <= j < k ==> !IsKeyLine(lines[j])) &&
        ScanNumscreens(lines[k]).Some? && ScanNumscreens(lines[k]).value > 1
  {
    if exists k :: 0 <= k < |lines| && IsKeyLine(lines[k]) &&
        (forall j :: 0 <= j < k ==> !IsKeyLine(lines[j])) &&
        ScanNumscreens(lines[k]).Some? && ScanNumscreens(lines[k]).value > 1
    {
      var k :| 0 <= k < |lines| && IsKeyLine(lines[k]) &&
        (forall j :: 0 <= j < k ==> !IsKeyLine(lines[j])) &&
        ScanNumscreens(lines[k]).Some? && ScanNumscreens(lines[k]).value > 1;
      FirstKeyLineIs(lines, k);
    }
  }

  /** game_has_multiple_screens: read lines until the first that starts
      with "numscreens" in any case, decide on that line alone; no ini file
      means a single screen.  Each element of the ini is one piece as
      fgets(line, 256, fp) returns it. */
  method GameHasMultipleScreens(ini: Option<seq<string>>) returns (multi: bool)
    ensures multi == MultiScreens(ini)
  {
    if ini.None? {
      return false;
    }
    var lines := ini.value;
    multi := false;
    var i := 0;
    while i < |lines|
      invariant 0 <= i <= |lines|
      invariant forall j :: 0 <= j < i ==> !IsKeyLine(lines[j])
      invariant !multi
    {
      if IsKeyLine(lines[i]) {
        var n := ScanNumscreens(lines[i]);
        if n.Some? && n.value > 1 {
          multi := true;
        }
        FirstKeyLineIs(lines, i);
        return;
      }
      i := i + 1;
    }
  }

  /** Lines after the deciding one never matter. */
  lemma {:induction false} LaterLinesIgnored(lines: seq<string>, extra: seq<string>)
    requires FirstKeyLine(lines).Some?
    ensures FirstKeyLine(lines + extra) == FirstKeyLine(lines)
    ensures MultiScreens(Some(lines + extra)) == MultiScreens(Some(lines))
  {
    if !IsKeyLine(lines[0]) {
      assert (lines + extra)[1..] == lines[1..] + extra;
      LaterLinesIgnored(lines[1..], extra);
    }
  }

  /** "NumScreens 2" stops the scan (strncasecmp ignores case) but does not
      convert (the sscanf literal is case-sensitive): the verdict is false. */
  lemma CapitalisedKeyDecidesFalse(rest: seq<string>)
    ensures !MultiScreens(Some(["NumScreens 2\n"] + rest))
  {
    var lines := ["NumScreens 2\n"] + rest;
    assert IsKeyLine(lines[0]);
    assert lines[0][..10] != "numscreens" by {
      assert lines[0][0] == 'N';
    }
  }

  /** "numscreens 2" is a multi-screen game. */
  lemma TwoScreens(rest: seq<string>)
    ensures MultiScreens(Some(["numscreens 2\n"] + rest))
  {
    var line := "numscreens 2\n";
    var lines := [line] + rest;
    assert IsKeyLine(lines[0]);
    assert line[..10] == "numscreens";
    var s := line[10..];
    assert s == " 2\n";
    assert Lead(s) == 1 by { SkipIs(s, 0, 1); }
    var u := s[1..];
    assert u == "2\n";
    assert DigitRun(u) == 1;
    assert u[..1] == "2";
    assert DigitsValue(u[..1]) == 2 by {
      assert u[..1][..0] == [];
    }
  }

  // ---------------------------------------------------------------------
  // scale_and_blit_to_xrgb
  // ---------------------------------------------------------------------

  /** Nearest-neighbour scale of src to dw x (dh/2) into dest at
      (dest_x, dest_y), rows stride pixels apart; nothing happens when src or
      dest is NULL.  Only the rectangle is written. */
  method ScaleAndBlitToXrgb(src: Option<Image>, dest: array?<bv32>, dw: nat, dh: nat,
                            stride: nat, destX: nat, destY: nat)
    requires src.Some? ==> ValidImage(src.value)
    requires src.Some? && dest != null ==> Fits(dest.Length, stride, destX, destY, dw, dh / 2)
    modifies dest
    ensures dest != null && src.Some? ==>
      dest[..] == Blitted(old(dest[..]), stride, destX, destY, dw, dh / 2, src.value)
    ensures dest != null && src.None? ==> dest[..] == old(dest[..])
  {
    if src.None? || dest == null {
      return;
    }
    var img := src.value;
    var targetW, targetH := dw, dh / 2;
    ghost var f := Sample(img, targetW, targetH);
    PaintedNone(dest[..], stride, destX, destY, targetW, f);
    var ty := 0;
    while ty < targetH
      invariant 0 <= ty <= targetH
      invariant dest[..] == Painted(old(dest[..]), stride, destX, destY, targetW, ty, 0, f)
    {
      var sy := (ty * img.h) / targetH;
      var rowBase := (destY + ty) * stride + destX;
      var tx := 0;
      while tx < targetW
        invariant 0 <= tx <= targetW
        invariant dest[..] == Painted(old(dest[..]), stride, destX, destY, targetW, ty, tx, f)
      {
        var sx := (tx * img.w) / targetW;
        var p := (sy * img.w + sx) * 4;
        assert p == SampleOffset(img, targetW, targetH, tx, ty);
        PaintedStep(old(dest[..]), stride, destX, destY, targetW, targetH, ty, tx, f);
        dest[rowBase + tx] := Xrgb(img.pixels[p], img.pixels[p + 1], img.pixels[p + 2]);
        tx := tx + 1;
      }
      PaintedRow(old(dest[..]), stride, destX, destY, targetW, ty, f);
      ty := ty + 1;
    }
    PaintedIsBlitted(old(dest[..]), stride, destX, destY, targetW, targetH, img);
  }
}
