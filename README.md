# dmarquees in Dafny

dmarquees is a small Linux daemon for an arcade cabinet's second screen.
It takes a DRM dumb framebuffer on a connector, maps it, and then reads
command words from a FIFO:

- `EXIT` stops it;
- `CLEAR` blanks the marquee or redraws the default one;
- `RA`, `SA` and `NA` switch the front-end mode (RetroArch, stand-alone, none);
- any other word is taken as a MAME ROM name, whose PNG marquee is scaled
  nearest-neighbour into the framebuffer.

The repository holds four versions of the program, and this project models
each as written, without unifying them:

| version | module | what differs |
|---|---|---|
| `dmarquees.c` + `helpers.c` | `Helpers`, `Connector`, `Dmarquees` | the current daemon: front-end modes, a default marquee per mode, a CRTC re-set hold timer in RetroArch mode, multi-screen games skipped, a default marquee when a ROM image is missing |
| `dmarquees-1.1.1.c` | `Dmarquees111` | a 1920-wide marquee centred and bottom-aligned on the whole screen; CLEAR blanks everything and re-issues the mode set |
| `dmarquees-org.c` | `DmarqueesOrg` | the first version: the marquee is stretched over the bottom half from row `fb_h - fb_h/2`; only trailing whitespace is trimmed |
| `dmarquees1080p-nfg.c` | `DmarqueesNfg` | a one-shot program that shows one PNG: the first connected connector, byte-by-byte BGRA copy with clamped sampling |

Shared modules:

- `Common`: characters, C strings, the command and front-end-mode enums, images and XRGB pixels, and the kernel calls.
- `Raster`: a strided framebuffer as a sequence. It defines rectangles in it, the nearest-neighbour blit (`Blitted`), the row-by-row partial fill its loops go through (`Painted`), `memset` (`Filled`), and the 1920 x 1080 sizing and placement arithmetic of the later versions.

Several functions are copied from one file to another.

- `scale_and_blit_to_xrgb` is modelled once, as `Helpers.ScaleAndBlitToXrgb`. The copies are dmarquees-org.c:118-135 and dmarquees1080p-nfg.c:104-126.
- `find_connector_mode` is modelled once, as `Connector.FindConnectorMode`, with the preferred size as a parameter. The copies are dmarquees-1.1.1.c:130-210, dmarquees-org.c:138-173 and dmarquees1080p-nfg.c:129-208. dmarquees-org.c and dmarquees-1.1.1.c prefer 3840 x 2160; dmarquees.c and dmarquees1080p-nfg.c prefer 1920 x 1080.
- `game_has_multiple_screens` is modelled once, as `Helpers.GameHasMultipleScreens`. The copies are dmarquees-1.1.1.c:75-101 and dmarquees1080p-nfg.c:77-101.
- `create_dumb_fb`/`destroy_dumb_fb` are modelled once, as `Dmarquees.Daemon.CreateDumbFb`/`DestroyDumbFb`. The copies are dmarquees-org.c:176-197, dmarquees-1.1.1.c:212-271 and dmarquees1080p-nfg.c:211-270.

Kernel calls are recorded in a trace of `DrmCall`s, so statements such as
"a drop of master is issued exactly once" can be made. The success or
failure of each recorded call is an input, and drmSetMaster and
drmDropMaster record theirs in the trace: a failed drop is only logged and
leaves master rights with the daemon.

In `dmarquees-org.c` the ini files play no part: a ROM is drawn whether or
not its game has several screens (`DmarqueesOrg.IniFilesIgnored` records
this; it is a comparison between versions, not a proof).

`Raster.PlacementOffscreen` and `Raster.PlacementTruncates` are worked
examples of the placement arithmetic on single inputs, not properties of
all inputs; `Raster.PlacementCentred` is the general statement.


The main loops are classes:

- their fields are the source's globals;
- each `Step` method runs one iteration of the loop;
- each `Step` is proved equal to a pure `StepSpec` on a value of the state;
- the lemmas about the loop are stated on `StepSpec`, and for the current daemon on `Run`, its fold over a sequence of inputs.

Points where the model has to choose a reading of the code:

- dmarquees.c:433 calls `trim(buf, n)`, but helpers.c:135 takes one argument and `buf` is not NUL-terminated. The model trims `buf[0..n)` followed by a NUL.
- The hold-retry branch at dmarquees.c:437-444 has no `continue`. The dispatcher therefore runs on a NULL command. `toCommandType` is not shown, so the command it makes of NULL is an input (`nullCmd`).
- `toCommandType` is not shown, and dmarquees.c:469 uses `CMD_NA`, which helpers.h:22-29 lacks. Commands are therefore the datatype `Exit | Clear | CmdRA | CmdSA | CmdNA | Rom(name)`, matched ignoring case as dmarquees-1.1.1.c:352-357 does.

## Model

| member | source | states |
|---|---|---|
| Common.ParseCommand | dmarquees.c:454-487 | each command word is recognised ignoring case, both ways; every other word, including the empty one, is a ROM name kept as it is |
| Common.Xrgb | helpers.c:126-129 | the pixel is 0x00RRGGBB: the red, green and blue bytes land in bits 16-23, 8-15 and 0-7 and the top byte is 0 |
| Raster.SampleOffset | helpers.c:120-125 | the sampled source offset `((ty*sh/th)*sw + tx*sw/tw)*4` is followed by three more bytes inside the image, so no read leaves it without clamping |
| Raster.SourceIndexInBounds | dmarquees1080p-nfg.c:404 | a clamped (sx, sy) inside the image gives a byte offset whose four bytes lie inside it |
| Raster.ScaledBelow | dmarquees-1.1.1.c:111-118 | `t*n/m < n` for `t < m`, so the clamps of the region blit never fire, whatever the draw size (1 x 1 included) |
| Raster.BlittedAt | helpers.c:118-131 | after a blit, pixel (x, y) of the box, at `(dest_y+y)*stride + dest_x + x`, is inside the buffer and holds the XRGB of the sampled source pixel |
| Raster.InRectIff | helpers.c:118-131 | an index is in the blitted box iff its row is in `dest_y .. dest_y+h-1` and its column in `dest_x .. dest_x+w-1` |
| Raster.RectIndexInRect | helpers.c:121 | a box coordinate's index is in the box, and its row and column are recovered from it |
| Raster.Memset | dmarquees.c:536-538 | exactly the elements `from .. to-1` become the value and every other element is unchanged |
| Raster.DrawSize | dmarquees-1.1.1.c:388-394 | the marquee is 1920 wide unless its height at that width exceeds 1080, in which case it is exactly 1080 high; the height never exceeds 1080 |
| Raster.CDivTruncates | dmarquees-1.1.1.c:396 | C's `/` truncates toward zero for both signs of the numerator |
| Raster.PlacementCentred | dmarquees-1.1.1.c:396-397 | with a box no larger than the screen, it is centred to within one pixel and its last row is the screen's last row |
| Raster.PlacementOffscreen | dmarquees1080p-nfg.c:389-390 | example: on a 1280 x 720 mode a 1920 x 1080 marquee is placed at (-320, -360), outside the mapping |
| Raster.PlacementTruncates | dmarquees-1.1.1.c:396 | example: on a 1919-wide mode the odd difference -1 is halved to 0, not -1 |
| Helpers.Trim | helpers.c:135-153 | NULL gives NULL; otherwise the result is an index into the same buffer just past the leading whitespace, the C string there is the trimmed string, and the only change to the buffer is one NUL just after the kept characters |
| Helpers.TrimShape | helpers.c:140-152 | the result is a slice of the input with no leading whitespace, is empty or ends in non-whitespace, and only whitespace is cut at either end |
| Helpers.TrimSplit | helpers.c:141-152 | the input is leading whitespace, then the result, then trailing whitespace |
| Helpers.TrimEmpty | helpers.c:141-145 | an all-whitespace (or empty) input gives the empty string |
| Helpers.TrimEnds | helpers.c:148-152 | a non-empty result starts and ends in non-whitespace |
| Helpers.TrimIdempotent | helpers.c:141-152 | trimming the result again changes nothing |
| Helpers.TrimCut | helpers.c:148-153 | the NUL written after the kept characters ends the C string exactly there |
| Helpers.FirstKeyLine | helpers.c:95-103 | the index is of the first line whose first ten characters are "numscreens" ignoring case, and no earlier line is one |
| Helpers.ScanInt | helpers.c:100 | `%d` yields a value only when, after the skipped whitespace, a digit is present |
| Helpers.ScanNumscreens | helpers.c:100 | the line yields a count only if it starts with "numscreens" in lower case, as the format string demands |
| Helpers.MultiScreensIff | helpers.c:95-107 | for an existing ini file the answer is true iff its first numscreens line scans as an integer greater than 1 |
| Helpers.GameHasMultipleScreens | helpers.c:84-108 | no ini file gives false; otherwise the line-by-line scan with its early `break` returns exactly that answer |
| Helpers.LaterLinesIgnored | helpers.c:95-103 | lines after the first numscreens line do not change the answer |
| Helpers.CapitalisedKeyDecidesFalse | helpers.c:97-102 | a first key line written "NumScreens 2" stops the scan (the prefix test ignores case) but does not scan (the format is case-sensitive), so the answer is false |
| Helpers.TwoScreens | helpers.c:100-101 | an ini whose first key line is "numscreens 2" is multi-screen |
| Helpers.ScaleAndBlitToXrgb | helpers.c:111-133 | NULL source or destination writes nothing; otherwise the buffer becomes the blit of `dw` x `dh/2` pixels at (dest_x, dest_y), everything outside unchanged |
| Connector.ChosenCrtc | dmarquees.c:198-209 | the CRTC is the encoder's when it has a non-zero one, else the first CRTC of the card, else 0 |
| Connector.PickCrtc | dmarquees.c:236-247 | the CRTC lookup code computes exactly that choice |
| Connector.FindConnectorMode | dmarquees.c:178-257 | the first readable connected connector with a mode of the preferred size wins, with its first such mode; only if there is none does the first connected connector with a mode win, with mode 0; no result iff resources are missing or no connector qualifies |
| Dmarquees.DefaultMarqueeName | dmarquees.c:116-125 | SA gives "MAMELogoR", RA "RetroArch_logo", NA "RetroPieMarquee", each both ways |
| Dmarquees.ResetTraceShape | dmarquees.c:85-113 | the trace starts with set-master, recording whether it was granted; the mode is set (at most once) iff master was taken; master is dropped exactly once when taken and last |
| Dmarquees.ResetTraceBracketed | dmarquees.c:88-111 | a try_reset_crtc trace is one whole call: a refused set-master alone, or a granted one followed by exactly one mode set and then the drop |
| Dmarquees.Daemon.TryResetCrtc | dmarquees.c:85-113 | returns true iff master and the mode set both succeed, appends that trace and changes nothing else |
| Dmarquees.Daemon.constructor | dmarquees.c:66-80 | the globals' initial values: no buffer, no hold, running, no calls |
| Dmarquees.MarqueeFrameKeepsTop | dmarquees.c:141-144 | drawing a marquee leaves rows above `fb_h/2` untouched |
| Dmarquees.MarqueeFrameBottom | dmarquees.c:535-540 | each pixel of rows `fb_h/2 ..` is the scaled image's inside the `fb_w` columns and black elsewhere, or black everywhere with no image |
| Dmarquees.MarqueeFrameTopOnly | dmarquees.c:141-160 | the result depends on the old buffer's top half only |
| Dmarquees.MarqueeFrameIdempotent | dmarquees.c:128-164 | drawing the same marquee twice is drawing it once |
| Dmarquees.Daemon.DrawBottomHalf | dmarquees.c:525-541 | the memset of the bottom half then the blit yield that frame |
| Dmarquees.Daemon.ShowDefaultMarquee | dmarquees.c:128-164 | nothing without a mapping; else the bottom half shows the mode's default marquee (black if it does not load), and only in RA mode with a loaded image is try_reset_crtc run |
| Dmarquees.ShowDefaultKeepsTop | dmarquees.c:139-144 | showing the default marquee keeps the top half |
| Dmarquees.ShowDefaultExtends | dmarquees.c:162-163 | the calls it appends are whole try_reset_crtc calls in that sense |
| Dmarquees.Daemon.Dispatch | dmarquees.c:453-549 | the switch, the multi-screen skip, the default-marquee fallbacks, the drawing of the ROM and the RA hold, as `DispatchSpec` |
| Dmarquees.DispatchKeepsTop | dmarquees.c:483-542 | no command writes above row `fb_h/2` |
| Dmarquees.DispatchExtends | dmarquees.c:457-549 | every command appends only whole try_reset_crtc calls |
| Dmarquees.Daemon.Step | dmarquees.c:409-550 | one iteration: FIFO error ends the loop, an empty read retries the CRTC when the hold is due or sleeps, a read is trimmed and dispatched, as `StepSpec` |
| Dmarquees.StepKeepsTop | dmarquees.c:431-449 | no iteration writes above row `fb_h/2` |
| Dmarquees.StepExtends | dmarquees.c:437-444 | each iteration, the due retry included, appends only whole try_reset_crtc calls to the trace |
| Dmarquees.RunKeepsTop | dmarquees.c:409-550 | over any run the top half (the other display client's) and the buffer geometry are unchanged |
| Dmarquees.RunExtends | dmarquees.c:409-550 | over any run the calls appended are whole try_reset_crtc calls |
| Dmarquees.BracketedReleasesMaster | dmarquees.c:88-111 | replaying whole try_reset_crtc calls, every mode set is issued while master is held, whatever the drops return; from no master rights, master is not held at the end when every drop succeeded, and if it is held a drop failed |
| Dmarquees.RunReleasesMaster | dmarquees.c:409-550 | over any run the trace only grows and every mode set it issues is made with master rights; the daemon ends without them when every drmDropMaster succeeded, and ends holding them only after a failed one |
| Dmarquees.StepStops | dmarquees.c:409-490 | the loop ends iff the FIFO cannot be opened or the command (read, or the NULL one after a due retry) is EXIT, and only EXIT clears `running` |
| Dmarquees.IdleStepChangesNothing | dmarquees.c:445-449 | an empty read with no hold due changes nothing |
| Dmarquees.HoldTimer | dmarquees.c:437-449 | the hold is set to now+10 only by a read ROM command in RA mode; a due retry clears it on success and, on failure, re-arms it at exactly now+1 (see also lines 545-549) |
| Dmarquees.RomDefersReset | dmarquees.c:525-549 | drawing a ROM issues no kernel call and keeps the mode; the frame is the ROM's marquee; in RA mode the hold becomes now+10, otherwise it is unchanged |
| Dmarquees.MultiScreenGameIgnored | dmarquees.c:493-497 | a multi-screen ROM changes nothing |
| Dmarquees.MissingRomShowsDefault | dmarquees.c:503-521 | a missing or undecodable ROM image shows the current mode's default marquee |
| Dmarquees.ModeChanges | dmarquees.c:457-473 | the front-end mode changes only on RA, SA or NA, and each sets it |
| Dmarquees.ModeCommandsShowDefault | dmarquees.c:457-481 | RA, SA and NA set the mode and then show that mode's default marquee; CLEAR shows the current mode's default |
| Dmarquees.DestroyReleasesAll | dmarquees.c:300-318 | afterwards nothing is held, a second call is a no-op, and one release call is issued per held resource |
| Dmarquees.CreateFailuresKeepHandle | dmarquees.c:277-296 | a failure after CREATE_DUMB returns -1 and keeps the dumb handle; after mmap the mapping is released; a failed MAP_DUMB issues no munmap |
| Dmarquees.Daemon.CreateDumbFb | dmarquees.c:260-298 | the buffer state, return code and calls are those of `CreateSpec`, and a new mapping is fresh |
| Dmarquees.Daemon.DestroyDumbFb | dmarquees.c:300-318 | the buffer state and calls are those of `DestroySpec`, and nothing else changes |
| Dmarquees111.ScaleAndBlitRegion | dmarquees-1.1.1.c:102-127 | NULL source or destination writes nothing; otherwise exactly the draw_w x draw_h box at (dest_x, dest_y) is written with the sampled pixels |
| Dmarquees111.ChompShape | dmarquees-1.1.1.c:351 | the command is the line up to its first newline, and contains none |
| Dmarquees111.Classify | dmarquees-1.1.1.c:352-362 | EXIT and CLEAR ignoring case, the empty line, and every other line as a ROM name, each both ways |
| Dmarquees111.Daemon.constructor | dmarquees-1.1.1.c:320 | the loop starts on a blank mapping of `vdisplay` rows |
| Dmarquees111.Daemon.Step | dmarquees-1.1.1.c:349-407 | one line of the loop, as `StepSpec` |
| Dmarquees111.ExitStops | dmarquees-1.1.1.c:352-356 | the loop ends iff the line is EXIT, which clears `running` |
| Dmarquees111.ClearBlanks | dmarquees-1.1.1.c:357-361 | CLEAR blanks every pixel and issues one mode set |
| Dmarquees111.UnusableRomSkipped | dmarquees-1.1.1.c:364-384 | a multi-screen, missing or undecodable ROM changes nothing, with no fallback |
| Dmarquees111.RomFrame | dmarquees-1.1.1.c:385-403 | after a ROM is drawn the box holds the scaled image, every other pixel is black, and one mode set is issued |
| DmarqueesOrg.StripTrailingShape | dmarquees-org.c:249-250 | the command is a prefix of the buffer, everything cut is `\n \r space \t`, and it is empty or ends in another character |
| DmarqueesOrg.StripTrailingIdempotent | dmarquees-org.c:250 | trimming again changes nothing |
| DmarqueesOrg.LeadingNewlineKept | dmarquees-org.c:248-250 | a leading newline survives, because the front strip only moves a pointer that is never read |
| DmarqueesOrg.TrimTrailing | dmarquees-org.c:250 | the backward loop leaves the stripped string and NULs exactly the cut characters |
| DmarqueesOrg.MarqueeRows | dmarquees-org.c:267-273 | the marquee at `fb_h - fb_h/2` with `fb_h/2` rows fits and ends on the last row, for odd and even heights |
| DmarqueesOrg.Daemon.Step | dmarquees-org.c:239-280 | one read of the loop, as `StepSpec` |
| DmarqueesOrg.ClearWithoutModeSet | dmarquees-org.c:254-258 | CLEAR blanks a mapped buffer and issues no kernel call |
| DmarqueesOrg.UnusableRomSkipped | dmarquees-org.c:260-263 | a missing or undecodable image changes nothing |
| DmarqueesOrg.RomKeepsUpperRows | dmarquees-org.c:264-273 | a ROM leaves every row above `fb_h - fb_h/2` as it was |
| DmarqueesNfg.FirstUsable | dmarquees1080p-nfg.c:323-330 | the pick is the first readable connected connector, and there is none iff no connector is one |
| DmarqueesNfg.FirstConnected | dmarquees1080p-nfg.c:322-338 | the scan loop computes that pick |
| DmarqueesNfg.PickIgnoresModes | dmarquees1080p-nfg.c:323-340 | a connected connector with no modes is picked ahead of a later one with modes, which `find_connector_mode`'s fallback would skip |
| DmarqueesNfg.Output | dmarquees1080p-nfg.c:340-342 | the mode is one of the connector's and the CRTC is its encoder's |
| DmarqueesNfg.ClampIndex | dmarquees1080p-nfg.c:395-403 | the clamped coordinate is in the image, equals the quotient when that already is, and is the last one otherwise |
| DmarqueesNfg.MarqueePixel | dmarquees1080p-nfg.c:404-408 | the four bytes of a marquee pixel are B, G, R of the clamped source pixel and then 0xFF |
| DmarqueesNfg.CopyScaled | dmarquees1080p-nfg.c:392-410 | the nested loop writes exactly the `4*new_w` x `new_h` byte box at (x_off, y_off) with the marquee bytes |
| DmarqueesNfg.CopyPixel | dmarquees1080p-nfg.c:399-409 | one column of the inner loop extends the filled part of the row by four bytes |
| DmarqueesNfg.WritePixel | dmarquees1080p-nfg.c:405-408 | the four byte stores of a pixel |
| DmarqueesNfg.ShowMarquee | dmarquees1080p-nfg.c:272-431 | the exit code and kernel calls are `MainSpec`'s; the mode is `modes[0]` and the CRTC the encoder's; the mapping becomes the black screen with the marquee when drawn |
| DmarqueesNfg.FrameByte | dmarquees1080p-nfg.c:392-409 | each byte of the box is the marquee byte for its column and row |
| DmarqueesNfg.FramePixel | dmarquees1080p-nfg.c:404-408 | the four bytes at `(y_off+y)*pitch + (x_off+x)*4` are B, G, R, 0xFF |
| DmarqueesNfg.FrameOutsideBlack | dmarquees1080p-nfg.c:375-376 | every byte outside the box is 0 |
| DmarqueesNfg.FrameForgetsBuffer | dmarquees1080p-nfg.c:376 | the frame does not depend on what the mapping held |
| DmarqueesNfg.FailuresLeakBuffer | dmarquees1080p-nfg.c:346-372 | an early return after CREATE_DUMB never destroys the buffer, nor removes the framebuffer once added |
| DmarqueesNfg.SuccessReleasesInReverse | dmarquees1080p-nfg.c:412-425 | on success the mode is set, then munmap, RmFB and DESTROY_DUMB release in reverse order of acquisition |

## Left out

- PNG decoding (`load_png_rgba`, `load_png`): a decoded image, or the absence of one, is an input (`RomFile`).
- libdrm, ioctl and mmap semantics. The success of each modelled call, and the handle, pitch and size it returns, are inputs, and the calls are recorded in a trace. The drmDropMaster calls of startup and cleanup (dmarquees.c:382-383, 556) belong to the parts of `main` left out below.
- The FIFO: `mkfifo`, `open`, the blocking or non-blocking choice (dmarquees.c:411-412), and `read`/`usleep`. An iteration's input is an open failure, an empty read, or the bytes read.
- The `fdopen`/`fgets` of dmarquees-1.1.1.c reads at most 127 characters per line. Its input is a line.
- Helpers.GameHasMultipleScreens: `fgets(line, 256, fp)` returns a line longer than 255 characters as several pieces, and a piece that starts with "numscreens" partway through such a line counts as a key line. The model takes the ini as the sequence of pieces `fgets` returns and does not model the splitting of long lines into them.
- Signals (`sigint_handler`, `pause`): `running` is cleared only by EXIT.
- Floating-point sizing and sampling (dmarquees-1.1.1.c:388-394, dmarquees1080p-nfg.c:379-387, 395, 401). The quotients the source computes in `float` are inputs (`heightAtFullWidth`, `widthAtMaxHeight`, and the per-row and per-column `sy`/`sx`), and only the clamps and the integer placement are modelled.
- Logging (`ts_printf`, `ts_perror`, the `spam_count` suppression), and the `free`s of images, connectors and encoders.
- `initialize()` and the startup and cleanup of `main` in dmarquees.c, dmarquees-1.1.1.c and dmarquees-org.c. The buffer effects of `create_dumb_fb`/`destroy_dumb_fb` are modelled. `argv[1]` of dmarquees1080p-nfg.c is replaced by the image it names.
- `toCommandType`, `toFrontendMode`, `fromFrontendMode` and `parseFrontendModeArg`: their bodies are not in the repository. Only helpers.h:11-29 is used, for the enums.
- `time(NULL)` is read once per iteration (`now`), while the source reads it twice on the retry path.
- Fixed-width C integers: `int` overflow of index arithmetic, and `%d` overflow in `sscanf`, are not modelled. Sizes are unbounded naturals, and the stride in pixels is taken as `stride / 4` with the pitch assumed a multiple of 4.
- Dmarquees111.StepSpec, Dmarquees111.Daemon.Step: require the centred box to fit the mapping. The source does not check this, and writes outside the mapping on modes smaller than the marquee (see `Raster.PlacementOffscreen`).
- DmarqueesNfg.ShowMarquee: requires the same of its box (`Defined`), plus at least one mode and a non-zero, readable encoder for the picked connector. The source reads `modes[0]` and `enc->crtc_id` unchecked and dereferences NULL or reads past the array otherwise. It also requires the mapping to be `size` bytes.
- Dmarquees.Daemon.CreateDumbFb: requires that no buffer is mapped, as at its only call site. It also requires the pitch to cover the mode's width.
- DmarqueesNfg.ShowMarquee: the MAP_DUMB result is not checked by the source, so only the mmap outcome is an input.
- Dmarquees111.ScaleAndBlitRegion: the unused `dest_w`/`dest_h` parameters are dropped, and the draw size is a natural number.
- dmarquees-1.1.1.c does not check `fb_map` before `memset`. The model assumes the mapping exists throughout its loop.
- Heights and widths: images are at least 1 x 1, as a successful decode gives.
