# Verified models of the LugalOS drivers

LugalOS drives its displays, radio and sensors with integer code written close to the hardware. This project
models the parts of `drivers/` where that code is an algorithm or a protocol in its own right, and proves in Dafny 4.11
what each is for. `dafny verify dfyconfig.toml` checks all of it; nothing here is executed.

| files | what they model |
|---|---|
| `Display.dfy`, `DisplayMap.dfy` | the double-buffered terminal: a 1-bpp frame against its shadow, dirty rows and columns for two buffers, the rotated conversion through an 8x8 bit transpose, and the flip |
| `DisplayFlip.dfy` | the same flip as a protocol: passes, frame ends from interrupt or poll, stop and start, in every interleaving |
| `Canvas.dfy`, `CanvasLine.dfy`, `CanvasCircle.dfy`, `Bits.dfy` | drawing on a 1-bpp canvas: fills, inversions and glyphs by bytes and masks, Bresenham lines, midpoint circles |
| `Dcf77Signal.dfy`, `Dcf77Decoder.dfy`, `Dcf77Frame.dfy`, `Civil.dfy` | the DCF-77 receiver: debounce, pulses, frames, pairs of frames, and from built frames through a sampled signal to the time; the frame codec; calendar arithmetic |
| `FbText.dfy` | in-place moves inside a text window of a larger buffer |
| `Credit.dfy`, `Backplane.dfy` | the CYW43's transmit credit on mod-256 counters, and its cached window behind bulk writes |
| `EdgeCap.dfy`, `Stats.dfy`, `Battery.dfy` | the edge ring with storm cut-off, running statistics and square roots, the battery estimator |
| `Arith.dfy`, `Common.dfy` | C's truncating division with the product and quotient facts used throughout, and shared types |

Code that updates state in place is modelled by classes and methods over arrays; ghost fields keep the history that
the whole-run properties speak of (every sample, every accepted edge, every decoded frame). Protocol steps that the
source takes under one lock are one step of a state machine.

Where the proofs and the source's own words part:

- The row compare looks at whole 64-bit words (`drivers/dsi_esp32p4.c:1473-1479`), so the Tab5's portrait stride of 90
  bytes leaves the last two bytes of a row uncompared. `Display.WordsSameExact` says exactly when the compare is one. A row
  whose words change is copied whole but marked for its words' columns only, so a change in those two bytes then stays off
  the glass with nothing left to compare, exactly if the two colours differ and it lies right of the columns marked before
  (`Display.Display.MarkRow`).
- Stopping the scan-out drops an armed flip (`drivers/dsi_esp32p4.c:1209-1224`), and a pass made while it is stopped arms
  none. The glass then stays out of date, with nothing marked, unless the frame had not changed
  (`Display.Display.PassThenStop`, `Display.LostFlip`).
- A frame end handled only after the stop has timed out and cleared its flag starts the channel again, with the flip the
  stop was to drop (`DisplayFlip.LateFrameEnd`). Each such stop costs exactly one forgotten frame end or one transfer begun
  a second time at the next start, and nothing else does (`DisplayFlip.EachEndOnce`).
- The DCF-77 decoder checks the day against 31, not against its month: `Dcf77Frame.SpelledDate` says when the time is the
  one the frame spells.
- A CYW43 header whose distance behind the credit, modulo 256, is 236 or more moves the credit (`Credit.StaleMoves`), past
  the grant if the credit had reached it (`Credit.StaleCounterexample`). A grant 21 to 235 ahead of the credit is not
  taken up (`Credit.OutOfReach`, `Credit.StalledForever`).
- A window byte of 0xFF equals the invalid marker's byte and is not written after a reset (`Backplane.InvalidTrusted`), and
  a failure after a window register was written leaves the cache naming another window than the chip's
  (`Backplane.FailureExact`).
- `drivers/dcf77_p0log.c:458-460` says truncating the mean costs well under a millisecond. What it costs is exact in
  `Stats.VarianceExact`, nothing where the mean is whole; two readings of 999 and 1000 ms are reported with a deviation of
  31 ms (`Stats.TruncationShows`).
- `isqrt64` divides by zero for the largest 64-bit number; its callers' variances never reach it (`Stats.Running.Render`).
- `edgecap_rearm_check` reads the clock before it tests `stormed` (`drivers/edgecap.c:102-109`), and nothing keeps the
  handler out. If it trips in between, the 64-bit difference wraps: the pin is on again at once, or its back-off falls to
  2 s while it is off. The wait is kept exactly if the trip is no later than the reading (`EdgeCap.DueExact`); a run from
  the start takes 63 edges every 65 microseconds for as long as it likes (`EdgeCap.EdgeCap.Flood`). The limits on rate and
  back-offs hold from one such race to the next, and for the whole of a run without one (`EdgeCap.EdgeCap.OnEdge`).
- The edge handler's rate is truncated to whole edges, so rates from 2000 up to 2001 a second do not trip it
  (`EdgeCap.RateExceeds`).
- `drivers/include/drivers/fbtext.h:38` promises that no byte outside the cells is touched. Where `whole_rows` is set the
  bytes beside the window move, and stay what they were exactly if they repeat (`FbText.Text.WholeRowsExact`).

## Model

| member | source | states |
|---|---|---|
| Display.Display.RowSame | drivers/dsi_esp32p4.c:1473-1480 | the word-wise compare is true exactly when all bytes of the row's whole words are equal |
| Display.WordsSameExact | drivers/dsi_esp32p4.c:1473-1480 | comparing whole words decides equality of rows if and only if the stride is a multiple of 8 |
| Display.Display.ChangedBytes | drivers/dsi_esp32p4.c:1856-1864 | the two byte positions found are the first and the last that changed, and everything outside them is equal |
| Display.Display.MarkColumns | drivers/dsi_esp32p4.c:1850-1871 | both buffers' column ranges take in every changed byte of the row's whole words, never shrink, and are widened no further than to such a byte |
| Display.Display.StillCovered | drivers/dsi_esp32p4.c:1849-1876 | copying one row into the shadow and marking its words' columns keeps the cache invariant (a pixel that is not what the shadow says lies in a dirty row and inside the column range) if and only if every pixel changed behind the whole words was inside the range already, or the colours are one |
| Display.Display.MarkRow | drivers/dsi_esp32p4.c:1849-1886 | so one row's step keeps it exactly then, and always when forced |
| Display.Display.MarkRows | drivers/dsi_esp32p4.c:1846-1886 | exactly the rows that differ (or all, forced) are copied and marked in both buffers; all others keep their bytes and marks; the invariant is kept |
| Display.Display.MarkAll | drivers/dsi_esp32p4.c:1835-1844 | a forced whole pass makes the shadow the frame, marks everything and so establishes the invariant from any state |
| Display.Display.Snapshot | drivers/dsi_esp32p4.c:1807-1887 | the flip is taken back, the changed rows and only they reach the shadow, and a buffer has dirty rows afterwards exactly if it had or any row was copied |
| Display.Display.PutRowUnit | drivers/dsi_esp32p4.c:2157-2200 | converting one byte of a row makes exactly its eight panel pixels right, upright or upside down, and spoils none |
| Display.Display.DrawRows | drivers/dsi_esp32p4.c:2146-2206 | the unturned conversion makes right exactly the pixels of dirty rows inside the byte range; marks are cleared; it reports work exactly if a row was dirty |
| Display.Display.DirtyBands | drivers/dsi_esp32p4.c:2036-2050 | the bands gathered are exactly those with a dirty row, ascending, each once, never more than the table holds |
| Display.Display.PutBandUnit | drivers/dsi_esp32p4.c:2111-2122 | one transposed byte makes exactly the eight pixels of one frame column in one band right, at 90 or 270 degrees |
| Display.Display.PutColumn | drivers/dsi_esp32p4.c:2111-2122 | one frame column across all gathered bands, in either order |
| Display.Display.DrawBands | drivers/dsi_esp32p4.c:2024-2128 | the turned conversion makes right exactly the pixels of dirty bands inside the byte range |
| Display.Display.TakeColumns | drivers/dsi_esp32p4.c:2027-2034 | the byte range covers the column range and the range is empty afterwards, for this buffer only |
| Display.Display.DrawBuffer | drivers/dsi_esp32p4.c:2016-2206 | from the cache invariant, converting only the dirty part leaves the whole buffer equal to the full conversion of the shadow |
| Display.Display.Draw | drivers/dsi_esp32p4.c:2007-2714 | the back buffer is right, the front one is not written, and a flip is armed exactly if something was drawn or one had been taken back |
| Display.Display.Flip | drivers/dsi_esp32p4.c:1187-1191 | arms only when a second buffer is being scanned out |
| Display.Display.FrameEnd | drivers/dsi_esp32p4.c:1073-1090 | the glass goes to the buffer that was next, and the invariants survive the swap |
| Display.Display.ShowsExact | drivers/dsi_esp32p4.c:1846-1886 | a right buffer already shows what a pass will make of the frame if and only if no byte of its rows has changed or the two colours are one |
| Display.Display.Pass | drivers/dsi_esp32p4.c:2758-2762 | after any pass over any rows the invariant holds, the back buffer is the full conversion of the shadow with no row marked, and so is the buffer the glass shows next, if it was or anything was copied; the front buffer, scanned out or stopped, is right if and only if it showed the new picture before; a flip is armed exactly if something was due |
| Display.Display.FullPass | drivers/dsi_esp32p4.c:2871-2874 | a forced whole pass puts the glass right whatever it showed |
| Display.Display.FbStart | drivers/dsi_esp32p4.c:1239-1300 | two black buffers, everything marked: the invariant holds and a right frame is due |
| Display.Display.ScanStop | drivers/dsi_esp32p4.c:1209-1224 | an armed flip is dropped; a glass that was right or owed a frame stays so if and only if no flip was armed, the front buffer was right, or the back one had rows marked |
| Display.Display.PassThenStop | drivers/dsi_esp32p4.c:1209-1224 | after any pass followed by a stop, or made while stopped, the glass is right if and only if the front buffer showed the new picture before; from a right glass, if and only if no byte of the rows has changed or the colours are one; and no row is left marked |
| Display.Display.StartPassRestart | drivers/dsi_esp32p4.c:1209-1300 | start, one pass, a stop and a start of the scan-out leave the glass right if and only if the frame is black all over |
| Display.LostFlip | drivers/dsi_esp32p4.c:1209-1300 | a state reached where the glass is wrong and nothing will put it right: a blank page in the default colours |
| Display.Display.ScanStart | drivers/dsi_esp32p4.c:1226-1237 | what the glass shows next and whether it is right do not change |
| Display.Display.Check | drivers/dsi_esp32p4.c:2900-2940 | the driver's own check, incremental against full redraw, finds no difference from any state the invariants allow |
| Display.Display.constructor | drivers/dsi_esp32p4.c:3115-3136 | blank frame and shadow, first pass forced |
| DisplayMap.TransposeMoves | drivers/dsi_esp32p4.c:1422-1428 | bit 8r + c moves to bit 8c + r, for every 64-bit word |
| DisplayMap.TransposeTwice | drivers/dsi_esp32p4.c:1422-1428 | the transpose is its own inverse |
| DisplayMap.Rev8Mirrors | drivers/dsi_esp32p4.c:1433-1437 | bit i becomes bit 7 - i |
| DisplayMap.ColumnBits | drivers/dsi_esp32p4.c:2100-2110 | byte b of the transposed word of eight row bytes holds, in bit r, row r's bit b |
| DisplayMap.Lut | drivers/dsi_esp32p4.c:1457-1468 | a byte's eight colours, leftmost first, are its bits' colours |
| DisplayMap.Panel.Bijection | drivers/dsi_esp32p4.c:2111-2200 | logical and panel pixels map one to one at all four rotations |
| DisplayMap.Panel.PlaceIsCorner | drivers/dsi_esp32p4.c:1706-1713 | the destination corner is that of exactly the panel rectangle the logical rectangle maps to |
| DisplayMap.Panel.QuarterTurns | drivers/dsi_esp32p4.c:1706-1713 | the four rotations are none, one, two and three quarter turns clockwise |
| DisplayFlip.StepKeeps | drivers/dsi_esp32p4.c:1055-1238 | every step of channel, interrupt, poll, pass, stop and start keeps the protocol's invariant, late frame ends included |
| DisplayFlip.NeverScannedWhileDrawn | drivers/dsi_esp32p4.c:1813-1824 | in every run, the buffer being drawn is neither the one scanned out nor the one the next frame end turns to |
| DisplayFlip.NoTearing | drivers/dsi_esp32p4.c:1073-1090 | in every run, what is being transferred is a finished picture and unchanged since its transfer began |
| DisplayFlip.NoSwapInPass | drivers/dsi_esp32p4.c:1813-1824 | no interleaving of frame ends swaps the buffers between take-back and re-arm |
| DisplayFlip.TakenBack | drivers/dsi_esp32p4.c:1818-1824 | the take-back takes exactly a pending flip and remembers it |
| DisplayFlip.PassArms | drivers/dsi_esp32p4.c:2714-2714 | whatever comes in between, a pass ends with a flip armed if and only if the scan-out is on and it had taken one back or drawn something |
| DisplayFlip.ErrorsCounted | drivers/dsi_esp32p4.c:1073-1076 | over every step, each error status is counted once by a frame end or forgotten by a start |
| DisplayFlip.FrameEndOnce | drivers/dsi_esp32p4.c:1092-1106 | the interrupt and the poll after each other handle one frame end once |
| DisplayFlip.EachEndOnce | drivers/dsi_esp32p4.c:1073-1106 | in every run each completed transfer is counted by one frame end, forgotten by a start, or still to be counted; no frame end restarts a running channel; and what is forgotten or begun twice is one for each stop that left a frame end untaken, but for one still to come |
| DisplayFlip.PromptRuns | drivers/dsi_esp32p4.c:1209-1237 | if no stop left one, nothing is forgotten or begun twice, and a stopped scan-out is off |
| DisplayFlip.FlipTaken | drivers/dsi_esp32p4.c:1078-1088 | in every run, an armed flip is on the glass from the next frame end on, whichever caller handles it |
| DisplayFlip.FlipComes | drivers/dsi_esp32p4.c:1073-1106 | in every run, with a flip armed and no transfer running, a frame end is waiting and takes it |
| DisplayFlip.FlipsAccounted | drivers/dsi_esp32p4.c:1073-1191 | in every run, flips armed are those taken, taken back, dropped by a stop, and at most one pending |
| DisplayFlip.LateFrameEnd | drivers/dsi_esp32p4.c:1209-1224 | a stop that clears its flag with a frame end untaken: the late handler restarts the channel and takes the flip that was to be dropped |
| DisplayFlip.LateStart | drivers/dsi_esp32p4.c:1218-1237 | and the next start finds it running |
| DisplayFlip.FrameEndInTime | drivers/dsi_esp32p4.c:1217-1220 | handled before the flag is cleared, it starts nothing and the flip is dropped |
| DisplayFlip.StopsLate | drivers/dsi_esp32p4.c:1209-1224 | from any state with the scan-out running, a run that comes to it |
| DisplayFlip.LateReached | drivers/dsi_esp32p4.c:1209-1237 | and one from the beginning |
| DisplayFlip.MissedFrameEnd | drivers/dsi_esp32p4.c:1211-1214 | a frame end between the stop flag and the reading of the count is not seen: no other comes, the wait ends by its time limit, harmlessly |
| Canvas.PutPx | drivers/canvas1.c:32-41 | one pixel is set to its pattern if it passes both clips; every other pixel is as it was |
| Canvas.PlotMeaning | drivers/canvas1.c:32-41 | the reference for all drawing: the order of the points never shows |
| Canvas.PatternByte | drivers/canvas1.c:46-50 | a pattern's byte agrees with its pixels bit by bit |
| Canvas.PatternsAre | drivers/canvas1.c:32-50 | white sets no pixel, black every one, grey every other one across and down |
| Canvas.ClipRect | drivers/canvas1.c:52-65 | the clipped area lies inside the buffer and the window |
| Canvas.ClipExact | drivers/canvas1.c:52-65 | the clipped area is exactly the rectangle's drawable pixels |
| Canvas.FillRowPixels | drivers/canvas1.c:66-74 | masked end bytes and whole middle bytes set exactly the run's pixels |
| Canvas.Fill | drivers/canvas1.c:52-75 | a filled rectangle equals drawing its pixels one by one, in bounds, nothing else changed |
| Canvas.PlotRect | drivers/canvas1.c:52-75 | what drawing a rectangle pixel by pixel gives, in closed form |
| Canvas.Invert | drivers/canvas1.c:147-169 | exactly the clipped rectangle's pixels flip |
| Canvas.InvertTwice | drivers/canvas1.c:147-169 | two inversions restore every byte |
| Canvas.ShiftRow | drivers/canvas1.c:85-114 | a glyph row shifted into two bytes keeps every pixel, bold included |
| Canvas.GlyphRowInside | drivers/canvas1.c:85-114 | the two-byte path sets exactly the row's foreground pixels |
| Canvas.GlyphRowClipped | drivers/canvas1.c:85-114 | the clipped path sets exactly the drawable ones |
| Canvas.PlotGlyph | drivers/canvas1.c:85-114 | what drawing a glyph pixel by pixel gives |
| Canvas.Glyph | drivers/canvas1.c:85-114 | by either path, a glyph equals drawing its pixels one by one |
| CanvasLine.LineTracks | drivers/canvas1.c:116-127 | the error term is exact and within half a pixel at every step, in all octants |
| CanvasLine.LineExact | drivers/canvas1.c:116-127 | every step's pixel in closed form: one step a pixel on the longer axis, the nearest pixel on the shorter |
| CanvasLine.LineEnds | drivers/canvas1.c:116-127 | the far end is reached at step max(dx, dy) and not before |
| CanvasLine.Line | drivers/canvas1.c:116-127 | the loop ends and draws exactly the steps 0..max(dx, dy), for all end points |
| CanvasCircle.CircleStepKeeps | drivers/canvas1.c:129-145 | err = (y+1)^2 + x^2 - x - r^2 and x is the rounded root, kept by every step |
| CanvasCircle.RoundedRootUnique | drivers/canvas1.c:129-145 | that determines x |
| CanvasCircle.CirclePathMeaning | drivers/canvas1.c:129-145 | from any state of the loop, the points still to come are exactly those of the true circle from that height on |
| CanvasCircle.CircleOutline | drivers/canvas1.c:129-145 | a point is drawn if and only if it is, in its octant, the pixel nearest the true circle |
| CanvasCircle.Circle | drivers/canvas1.c:129-145 | the loop ends and draws exactly that outline; nothing for a negative radius |
| Civil.DaysOfCivil | drivers/dcf77_decode.c:433-446 | every day number gives a real Gregorian date whose day number it is |
| Civil.CivilOfDays | kernel/time.c:285-307 | every real date comes back from its day number |
| Civil.CivilFollowsCalendar | drivers/dcf77_decode.c:433-446 | day 0 is 1970-01-01 and consecutive days give consecutive dates by the calendar's own rules |
| Civil.YearOfEraParts | kernel/time.c:294-300 | the year formula on every day of a 400-year era |
| Civil.NextPartsStep | kernel/time.c:294-307 | one day on, across month, year, century and era ends |
| Dcf77Frame.EpochRoundTrip | kernel/time.c:309-333 | seconds to date and time and back, for every year sixteen bits hold |
| Dcf77Frame.EpochFollowsClock | kernel/time.c:309-333 | seconds are counted from 1970 on, and one second later by clock and calendar is one second more |
| Dcf77Frame.TimeRoundTrip | kernel/time.c:309-333 | date and time to seconds and back |
| Dcf77Frame.MinutesAdd | drivers/dcf77_decode.c:448-462 | linear_minutes(add_minutes(t, n)) is linear_minutes(t) + n, modulo the counter's 32 bits |
| Dcf77Frame.Bcd | drivers/dcf77_decode.c:82-89 | the loop adds the weights of the set bits |
| Dcf77Frame.EvenParityOk | drivers/dcf77_decode.c:91-95 | true exactly for an even count of ones |
| Dcf77Frame.EvenParityMeans | drivers/dcf77_decode.c:91-95 | which is an even number of set bits in the range |
| Dcf77Frame.WeekdayFollows | drivers/dcf77_decode.c:71-74 | 1 January 1970 is a Thursday and each weekday follows the one before |
| Dcf77Frame.SetBcd | drivers/dcf77_decode.c:464-470 | the greedy encoder's field reads back as the value, or as the field's largest; no other bit changes |
| Dcf77Frame.SetEvenParity | drivers/dcf77_decode.c:472-476 | the parity bit makes the parity even; no other bit changes |
| Dcf77Frame.BuildFrame | drivers/dcf77_decode.c:479-494 | the frame built announces every field of t, with valid parities and marks |
| Dcf77Frame.DecodeFrame | drivers/dcf77_decode.c:100-160 | each rejection in the order of the checks, or the time and offset |
| Dcf77Frame.DecodesExactly | drivers/dcf77_decode.c:100-160 | a frame decodes if and only if it announces some date and time of 2000..2099 in winter or summer time, with that weekday, even parities and exactly that zone bit |
| Dcf77Frame.DecodedTime | drivers/dcf77_decode.c:100-160 | whatever decodes is a real UTC time: the fields' local time less the announced offset |
| Dcf77Frame.DecodeAnnounced | drivers/dcf77_decode.c:100-160 | a frame announcing t in a zone decodes to t less that zone's 60 or 120 minutes if and only if t lies in 2000..2099 |
| Dcf77Frame.SingleBitError | drivers/dcf77_decode.c:82-160 | any one wrong bit in any frame that decodes is a framing error if it is a marker or a zone bit, a parity error if any other bit that is read, and changes nothing otherwise |
| Dcf77Frame.SpelledDate | drivers/dcf77_decode.c:123-160 | for every frame that decodes, the time given, put back into local time, is the one the frame spells if and only if the month has that day |
| Dcf77Frame.SpelledTime | kernel/time.c:309-333 | fields in their ranges come back from their seconds if and only if the month has that day |
| Dcf77Frame.NonexistentDate | drivers/dcf77_decode.c:123-127 | one of the others: 30 February decodes, as 1 March |
| Dcf77Decoder.Decoder.constructor | drivers/dcf77_decode.c:229-235 | a reset decoder satisfies the invariant, with empty history |
| Dcf77Decoder.Decoder.Feed | drivers/dcf77_decode.c:341-409 | on every sample stream: transitions are confirmed exactly when held for the debounce time, alternate and lie 25 ms apart; the state follows the pulses; the invariant holds |
| Dcf77Decoder.Decoder.Sample | drivers/dcf77_decode.c:364-392 | the candidate level has been read in every sample since the time it is dated by |
| Dcf77Decoder.Decoder.NotePulseStart | drivers/dcf77_decode.c:262-304 | alignment, minute mark and second gaps: bit_index stays in -1..58 and the bits before it are the pulses since the mark |
| Dcf77Decoder.Decoder.NoteGap | drivers/dcf77_decode.c:264-300 | the gap since the last pulse: a minute mark, the next second, or alignment lost |
| Dcf77Decoder.Decoder.NotePulseEnd | drivers/dcf77_decode.c:306-339 | the pulse's width decides its bit, or loses alignment |
| Dcf77Decoder.Decoder.MinuteMark | drivers/dcf77_decode.c:262-304 | a frame is handed on only when 59 pulses of 60..300 ms, 850..1150 ms apart, came since the last mark, and its bits are theirs |
| Dcf77Decoder.Decoder.FrameComplete | drivers/dcf77_decode.c:166-195 | a frame that does not decode changes nothing; one that does replaces the stored one, and yields a time if the two agree |
| Dcf77Decoder.Decoder.Keep | drivers/dcf77_decode.c:178-195 | a decoded frame is stored, and its time handed on exactly if it agrees with the one stored before |
| Dcf77Decoder.Decoder.TakeTime | drivers/dcf77_decode.c:411-417 | a time is handed out once, and two validated frames that agree stand behind it |
| Dcf77Decoder.AgreeMeans | drivers/dcf77_decode.c:176-186 | two frames agree if and only if for some m from 1 to 30 their marks are m minutes apart, within half a minute and modulo 2^32 minutes, and their UTC times exactly 60 m seconds |
| Dcf77Decoder.RoundedMeans | drivers/dcf77_decode.c:183-185 | the code's rounding says m exactly then |
| Dcf77Decoder.LastPulseReads | drivers/dcf77_decode.c:306-339 | cutting the width to 32 bits never hides a wrong width |
| Dcf77Decoder.AlignedPulses | drivers/dcf77_decode.c:262-339 | from any state, n good pulses opening with a minute mark leave the decoder at bit n - 1 holding exactly them |
| Dcf77Decoder.WholeMinute | drivers/dcf77_decode.c:166-339 | a minute received whole is never lost: it is collected, kept if it decodes, and believed if it agrees with the one before |
| Dcf77Signal.Stretch | drivers/dcf77_decode.c:364-409 | a change of level that holds is confirmed once, by whichever sample is late enough, and dated by the first, however the line is sampled |
| Dcf77Signal.Immune | drivers/dcf77_decode.c:29-46 | any number of glitches, each shorter than 25 ms, change nothing above the debounce, and the level is the settled one again whenever the line is |
| Dcf77Signal.Glitch | drivers/dcf77_decode.c:373-391 | after one glitch the receiver is as it was, but for the candidate's date |
| Dcf77Signal.HoldsThrough | drivers/dcf77_decode.c:364-409 | a level that holds for 25 ms, with glitches after that, is confirmed once and dated by its first sample |
| Dcf77Signal.BurstsArePulses | drivers/dcf77_decode.c:341-409 | clean bursts of samples, glitches after the first 25 ms included, are, to the receiver above the debounce, exactly their pulses |
| Dcf77Signal.OneMinute | drivers/dcf77_decode.c:166-339 | a clean minute closed by a mark is one more validated frame, of its time less its zone's offset |
| Dcf77Signal.TwoMinutes | drivers/dcf77_decode.c:166-195 | two clean minutes in a row agree, from any state that has seen a pulse and also across a change between winter and summer time, and give the second one's time |
| Dcf77Signal.Receive | drivers/dcf77_decode.c:341-409 | feeding samples one by one is the fold the proofs speak of |
| Dcf77Signal.ReceiveTime | drivers/dcf77_decode.c:341-417 | from raw samples, any sampling of two clean minutes in either zone, with glitches, makes the decoder hand out the second one's time less its offset |
| Dcf77Signal.SentMinute | drivers/dcf77_decode.c:479-494 | a built frame sent second by second is such a minute, however its bursts are sampled |
| Dcf77Signal.Broadcast | drivers/dcf77_decode.c:341-494 | encoder to decoder: frames built for t and the minute after, sent from a mark on, are received as the later time less two hours |
| FbText.RowCopy | drivers/fbtext.c:41-52 | bytes, words and bytes again copy every byte as it was, overlapping downwards or clear of each other, at every alignment |
| FbText.CopiedThen | drivers/fbtext.c:26-52 | two adjoining copies one after the other do what one copy would |
| FbText.RowZero | drivers/fbtext.c:33-39 | exactly the run is zero |
| FbText.Text.ShiftedRow | drivers/fbtext.c:201-214 | one more pixel row of a move, in the order that reads no overwritten row |
| FbText.Text.MoveRows | drivers/fbtext.c:201-214 | every one of n cell rows whose place and source both lie in the window becomes, byte for byte, what its source was, in both overlap directions; no other byte changes |
| FbText.Text.ClearRows | drivers/fbtext.c:144-160 | exactly the window's bytes of cell rows row..row+n, as far as the window goes, are blank, by either path |
| FbText.Text.ScrollRows | drivers/fbtext.c:162-193 | through all four copy paths, row r shows old row r + n; bytes beside the window move only in the whole-row path |
| FbText.Text.ScrollUp | drivers/fbtext.c:162-195 | scrolling by any n: the rows above move, the last n are blank, everything else is as it was |
| FbText.Text.WholeRowsExact | drivers/fbtext.c:171-176 | the whole-row path does exactly what the narrow one does if and only if what lies beside the window repeats at the distance of the scroll |
| FbText.Text.WholeRowsSame | drivers/fbtext.c:171-176 | which it does at every distance when it repeats every cell row |
| FbText.NeighbourMoves | drivers/fbtext.c:171-176 | a window whose neighbouring byte a scroll changes |
| Credit.AdvanceExact | drivers/cyw43_rp2350.c:1587-1590 | comparing modulo 256 takes up a grant if and only if it is 0 to 20 ahead, for headers less than 236 behind |
| Credit.StaleMoves | drivers/cyw43_rp2350.c:1587-1590 | a header k behind moves the credit if and only if k modulo 256 is at least 236 |
| Credit.StaleCounterexample | drivers/cyw43_rp2350.c:1587-1590 | a concrete one: a host that has used its whole grant is let send twenty frames more |
| Credit.LearnKeeps | drivers/cyw43_rp2350.c:1582-1592 | the credit, counted without end, never falls and never passes the chip's grant |
| Credit.Host.CreditUpdate | drivers/cyw43_rp2350.c:1582-1592 | in bytes: a header whose size and complement match sets flow control, and on a channel below 3 with byte 9 0 to 20 ahead of the credit makes it the credit; nothing else changes it; and that is, with an honest chip, the unbounded count going to the grant |
| Credit.HeaderBytes | drivers/cyw43_rp2350.c:1583-1585 | a header is well formed if and only if its size bytes are the complements of the next two |
| Credit.Host.WaitCredit | drivers/cyw43_rp2350.c:1597-1611 | yes after the first pump that leaves the host ready, no after a failure or the deadline, with all that was read learnt; the credit byte is what the headers read make of it, and has moved if and only if some header was 1 to 20 ahead of it modulo 256; a host that had used its credit goes on only then |
| Credit.LastTaken | drivers/cyw43_rp2350.c:1586-1591 | that byte is the one of the last header taken up, with none later 1 to 20 ahead of it |
| Credit.Host.Send | drivers/cyw43_rp2350.c:2128-2139 | over every run with an honest chip, a frame is sent exactly when there is credit and flow is on after the wait, carries the next number, and is one the chip has granted |
| Credit.OutOfReach | drivers/cyw43_rp2350.c:1582-1592 | whatever headers come, honest or not, the credit byte stays through all of them if and only if none, well formed and on a channel below 3, is 1 to 20 ahead of it modulo 256 |
| Credit.StaysPut | drivers/cyw43_rp2350.c:1582-1592 | with an honest chip the credit, counted without end, stays if and only if no header moves the byte |
| Credit.StalledForever | drivers/cyw43_rp2350.c:1597-1611 | a host with its credit used and a chip that grants 21 more: stalled however often it is told |
| Backplane.Bus.SetWindow | drivers/cyw43_rp2350.c:1026-1039 | it succeeds unless a register write fails; after success the chip's window is the cached one if and only if the registers agreed wherever the cache skips a write; after failure the cache is as it was, each register is its old self or the new one, and a cache that named the chip's window can be trusted for every address if and only if none was written |
| Backplane.WindowExact | drivers/cyw43_rp2350.c:1026-1039 | the same for any registers, cache and address |
| Backplane.CoherentTrusted | drivers/cyw43_rp2350.c:1026-1039 | a cache that names the chip's window can be trusted for every address |
| Backplane.InvalidTrusted | drivers/cyw43_rp2350.c:633-633 | after a reset it can, if and only if no high or middle byte of the window is 0xFF where the chip's is not |
| Backplane.MarkerByteMissed | drivers/cyw43_rp2350.c:633-633 | an address whose window the chip does not get after a reset |
| Backplane.RetryRight | drivers/cyw43_rp2350.c:1026-1039 | after a failure from a coherent cache, trying the same address again always chooses its window |
| Backplane.FailureExact | drivers/cyw43_rp2350.c:1026-1039 | every address can still be trusted if and only if no register was written |
| Backplane.PartialFailure | drivers/cyw43_rp2350.c:1026-1039 | a failed second register write, after which the old window is not set again |
| Backplane.Bus.WriteBulk | drivers/cyw43_rp2350.c:1073-1115 | it succeeds if and only if no transfer fails; then data[i] is stored at addr + i and nothing else changes, by bursts one after the other, each inside one 32 KB window and as long as window, data and 64 bytes allow; on failure a prefix is stored |
| EdgeCap.EdgeCap.Push | drivers/edgecap.c:74-90 | the ring is a queue: a full one drops only the newest edge, and total = popped + queued + dropped |
| EdgeCap.EdgeCap.TakeInterrupted | drivers/edgecap.c:129-136 | wherever edges come in while one is being taken, the oldest is taken and the rest stay in order, without a lock |
| EdgeCap.OfferedOn | drivers/edgecap.c:74-90 | offering edges to the queue in two goes is offering them in one |
| EdgeCap.EdgeCap.Pop | drivers/edgecap.c:129-136 | with the handler interrupting at any of five places, the oldest edge comes out, the others and the new ones stay in order, every edge taken is accounted for, and the pin's limits are kept |
| EdgeCap.EdgeCap.RearmCheck | drivers/edgecap.c:100-127 | with the handler running after the clock is read, after `stormed` is tested and after the time is tested: if it does not trip, a stormed pin comes back exactly when its back-off has run out, with the next one doubled, and a running pin's is forgiven exactly 300 s after its last trip |
| EdgeCap.EdgeCap.Rearm | drivers/edgecap.c:109-122 | for any earlier reading of the clock: the pin is on again exactly when the wrapped difference is a back-off; it is then never too soon if and only if the trip is no later than the reading (or by nearly 2^64); the history goes on then and begins anew in a race |
| EdgeCap.EdgeCap.Forgive | drivers/edgecap.c:102-108 | the other branch, with trips before and after its test: the back-offs' rule holds on unless a trip came after the reading and before the test |
| EdgeCap.DueExact | drivers/edgecap.c:102-109 | a wait tested on the wrapped difference never ends too soon if and only if what it waits from is no later than the reading, but for differences that wrap to less than the wait |
| EdgeCap.EdgeCap.TripInside | drivers/edgecap.c:100-127 | from any state with 2000 edges in the window: one edge after the reading trips, and the pin is on again at once |
| EdgeCap.EdgeCap.Flood | drivers/edgecap.c:100-249 | a run from the start in which n re-arm checks let through 63 n edges in 65 n microseconds |
| EdgeCap.EdgeCap.OnEdge | drivers/edgecap.c:203-249 | an edge is ignored while the pin is off, trips the cut-off exactly when it is a 64th within 31984 us or the 2001st of its second, or is queued; kept by every step of every run, for the edges and trips since the last race: no second holds more than 4000 accepted edges, none comes inside a back-off, and back-offs follow the rule |
| EdgeCap.EdgeCap.Handle | drivers/edgecap.c:203-249 | of several edges exactly those before the first that trips are taken, and none by a pin that is off |
| EdgeCap.RateExceeds | drivers/edgecap.c:228-233 | the truncated rate is over 2000 if and only if the last 64 edges took at most 31984 us, which is 2001 a second |
| EdgeCap.EdgeCap.ChunkRate | drivers/edgecap.c:219-233 | the cut-off's test is that, at every 64th edge |
| EdgeCap.AcceptedOne | drivers/edgecap.c:206-218 | the edge 4000 before an accepted one came a second or more earlier |
| EdgeCap.SecondHolds | drivers/edgecap.c:206-246 | so no span of less than a second holds more than 4000 accepted edges |
| EdgeCap.Tripped | drivers/edgecap.c:234-246 | each back-off follows the one before: doubled up to a minute, or 2 s again after 300 s |
| EdgeCap.Forgiven | drivers/edgecap.c:103-108 | a back-off forgiven just after the next trip still follows the rule |
| EdgeCap.QuietNext | drivers/edgecap.c:100-127 | an accepted edge comes after the end of every back-off before it |
| EdgeCap.BackoffRange | drivers/edgecap.c:100-127 | every back-off is one of 2, 4, 8, 16, 32 and 60 seconds |
| EdgeCap.BackoffGrows | drivers/edgecap.c:100-127 | trips that follow each other within 300 s double it every time, up to a minute |
| EdgeCap.EdgeCap.constructor | drivers/edgecap.c:271-277 | an attached pin satisfies all of it |
| Stats.SpreadSign | drivers/dcf77_p0log.c:442-444 | n Sxx - Sx^2 is never negative, and zero if and only if all samples are equal |
| Stats.SpreadGrows | drivers/dcf77_p0log.c:184-184 | each sample adds its squared distances from those before |
| Stats.VarianceSign | drivers/dcf77_p0log.c:457-462 | the integer variance with its truncated mean is never negative: the clamp is dead code |
| Stats.VarianceExact | drivers/dcf77_p0log.c:457-462 | what truncation costs, exactly: twice the mean times the part cut off it and that part squared are added, the mean square's rest is lost |
| Stats.WholeMean | drivers/dcf77_p0log.c:457-462 | a mean that is whole never overstates the variance |
| Stats.VarianceError | drivers/dcf77_p0log.c:457-462 | how far truncation takes the variance from the true one, both ways |
| Stats.TruncationShows | drivers/dcf77_p0log.c:457-462 | two samples one apart, reported with a deviation of 31 |
| Stats.NewtonStep | drivers/dcf77_p0log.c:407-412 | a Newton step is never below the root, and where it falls no lower it is there |
| Stats.NewtonFits | drivers/dcf77_p0log.c:407-412 | no step overflows 64 bits |
| Stats.Isqrt64 | drivers/dcf77_p0log.c:407-412 | the loop ends with the floor of the square root for every v below 2^64 - 1, and divides by zero at 2^64 - 1 |
| Stats.CountedRoot | drivers/dcf77_service.c:426-428 | the linear search ends with the same root |
| Stats.RootUnique | drivers/dcf77_service.c:426-428 | there is one such root, so the two agree |
| Stats.Running.Add | drivers/dcf77_p0log.c:186-193 | the sums and extremes are those of all samples |
| Stats.Running.MeanVariance | drivers/dcf77_p0log.c:456-462 | what is reported is the mean and variance of all samples, unclamped |
| Stats.Running.Render | drivers/dcf77_p0log.c:455-466 | the deviation is that variance's root, for all 32-bit samples |
| Stats.Running.Status | drivers/dcf77_service.c:419-430 | likewise, by the other root |
| Stats.Drift.Add | drivers/dcf77_p0log.c:178-184 | the five sums are those of all samples |
| Stats.Drift.PpmTenths | drivers/dcf77_p0log.c:440-454 | a drift is reported exactly for three samples or more that are not all of one time |
| Stats.DriftExact | drivers/dcf77_p0log.c:440-448 | samples on a straight line give the line's slope |
| Stats.CodriftGrows | drivers/dcf77_p0log.c:440-448 | for any samples: each further one adds, for every one before, the product of the distances in time and in offset |
| Battery.CurveMonotone | drivers/battery.c:23-38 | the interpolated curve never falls and stays within empty and full |
| Battery.CurveAtKnot | drivers/battery.c:23-38 | it goes through every knot of the table |
| Battery.CurveChord | drivers/battery.c:30-36 | between two knots it is the straight line, cut to a whole ppm |
| Battery.Params.PositionMeans | drivers/battery.c:26-26 | a voltage's place in the span, cut to a whole millionth |
| Battery.Params.SocEnds | drivers/battery.c:23-38 | full from the full voltage up, empty from the empty one down or without a span |
| Battery.Params.SocAtKnot | drivers/battery.c:23-38 | each knot laid over the board's own span is its 5 % step |
| Battery.Params.SocFromOcv | drivers/battery.c:23-38 | the search finds the segment the curve is defined by, with the early returns |
| Battery.Params.SocMonotone | drivers/battery.c:23-38 | a higher resting voltage is never a lower level, for every board's span |
| Battery.Battery.Update | drivers/battery.c:44-65 | the level stays within 0..1000000 over every run; first sample, clock going back and gaps start anew, any other is one step |
| Battery.Params.RestingMeans | drivers/battery.c:40-42 | the resting voltage is lower by current times resistance while charging and higher while discharging, cut to a whole millivolt |
| Battery.CountedMeans | drivers/battery.c:53-57 | the count is the charge that flowed in ppm of the capacity, of its sign and cut towards none |
| Battery.StepCounts | drivers/battery.c:53-61 | a step counts in full and then closes a 256th of what is left, truncated, from its own side |
| Battery.StepError | drivers/battery.c:53-61 | one step's error is at most the larger of the error before and 255 times the charge counted |
| Battery.StaysNear | drivers/battery.c:53-61 | so over every run at a fixed target it stays within the larger of the first error and 255 D |
| Battery.StepShrinks | drivers/battery.c:58-58 | without current the error loses exactly its 256th part, truncated |
| Battery.Settles | drivers/battery.c:53-61 | so it comes within 256 ppm, a ppm a step at least, and rests |

## Left out

- Display.Display.Pass: asks that the bytes a word-wise compare skips are unchanged; for strides that are multiples of 8 there are none (`Display.Display.NoTail`).
- Display.Display.Check: the wait for the flip is taken to end with the frame end, not with its time limit, and the count of differing pixels is kept without their bounding box.
- Display.Display.FbStart: the paths where memory runs out, and the choice of pixel format, are not modelled; the two buffers are those of the constructor.
- The dirty marks are one flag a row where the source packs 64 in a word; the row loops visit the same rows in the same order.
- Display: text cells, readers, launcher surfaces and canvases over the 1-bpp frame, mirrors, statistics, cache write-back and the rows flushed.
- DisplayFlip: the first three lines of the start (link item, status, channel) are one step, and a channel told to stop is off. Only the double-buffered case; with one buffer the terminal draws on the glass and tearing is accepted by design. A write to the back buffer is a new picture number, not its pixels.
- Dcf77Decoder.Decoder: signal-quality scores, glitch counts, duty cycle and counters.
- Dcf77Frame.MinutesAdd: asks that the result's year fits sixteen bits, as the source's field does.
- FbText.Text: glyph drawing, single-cell clearing and the cursor; addresses do not wrap at 32 bits.
- Dcf77Signal.Broadcast: summer time only, which is all the encoder announces; it sends each pulse and pause as two samples; other samplings, glitches and winter time are in `Dcf77Signal.ReceiveTime`. A glitch in the first 25 ms of a pulse or pause moves its date and is not modelled as clean.
- Credit.Host.Send: chip resets, after which sequence and credit are not reset; the chip is asked never to grant 236 or more ahead of the frames sent, to grant monotonically, and to send headers less than 236 behind.
- Backplane.Bus.WriteBulk: padding of the last word, yields and reads; an address range past 2^32.
- EdgeCap.EdgeCap.OnEdge: one pin; the handler is one step and each field is read at once; the storm counter and times do not wrap. The dispatch over pins and the interrupt registers are not part of this model.
- Stats.Running: the ring of raw samples; 64-bit overflow of the sums, which needs more samples than a run has.
- Battery.Battery.Update: overflow of the 32-bit sum of level and count, which no current a monitor reports reaches; minutes left and the indicator text.
- Canvas: lines, circles and rectangles are drawn on unbounded integers; overflow at the ends of the 32-bit range is not modelled, nor are text strings and canvas windows.
- Registers, PIO, DMA, PHY, firmware upload, joining networks, sensor formulas, flash and EEPROM chunking, shell commands and self-tests: hardware access, vendor constants, or easier forms of what is here.
