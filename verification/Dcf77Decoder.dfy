// The DCF-77 receiver's state machine (dcf77_feed and below in
// drivers/dcf77_decode.c): raw samples are debounced into pulses, pulses
// collected into 59-bit frames, and two frames must agree before a time is
// believed. Signal-quality scores, counters and the duty cycle are left out.
module Dcf77Decoder {
  import opened Arith
  import opened Civil
  import opened Common
  import opened Dcf77Frame

  const BIT0_MIN_MS := 60
  const BIT0_MAX_MS := 150
  const BIT1_MIN_MS := 150
  const BIT1_MAX_MS := 300
  const SEC_MIN_MS := 850
  const SEC_MAX_MS := 1150
  const MARK_MIN_MS := 1700
  const MARK_MAX_MS := 2300
  const DEBOUNCE_MS := 25
  const PAIR_MAX_MINUTES := 30

  // A confirmed change of the debounced level, and when the line changed.
  datatype Edge = Edge(at: nat, level: bool)

  // One pulse as the decoder read it.
  datatype Pulse = Pulse(start: nat, end: nat, value: bool)

  // A frame that reached a minute mark.
  datatype Frame = Frame(mark: nat, bits: seq<bool>, run: seq<Pulse>)

  datatype Taken = NoTime | TimeAt(utc: Time, mark: nat)

  // ------------------------------------------------------ what a history means

  // Levels alternate and hold for the debounce time.
  ghost predicate Debounced(edges: seq<Edge>) {
    forall i | 0 < i < |edges| :: edges[i].level != edges[i - 1].level && edges[i].at >= edges[i - 1].at + DEBOUNCE_MS
  }

  // The line has read `level` in every sample from number k, taken at `since`,
  // and not in the sample before it.
  ghost predicate Held(samples: seq<Edge>, k: nat, level: bool, since: nat) {
    && k < |samples| && samples[k].at == since
    && (k > 0 ==> samples[k - 1].level != level)
    && forall i | k <= i < |samples| :: samples[i].level == level
  }

  lemma DebouncedAppend(edges: seq<Edge>, e: Edge)
    requires Debounced(edges)
    requires edges != [] ==> var last := edges[|edges| - 1]; last.level != e.level && e.at >= last.at + DEBOUNCE_MS
    ensures Debounced(edges + [e])
  {
  }

  lemma HeldAppend(samples: seq<Edge>, k: nat, level: bool, since: nat, s: Edge)
    requires samples == [] || Held(samples, k, level, since)
    ensures samples != [] && s.level == level ==> Held(samples + [s], k, level, since)
    ensures samples == [] || s.level != level ==> Held(samples + [s], |samples|, s.level, s.at)
  {
  }

  // A pulse width that reads as `value`.
  ghost predicate ReadsAs(width: int, value: bool) {
    if value then BIT1_MIN_MS <= width <= BIT1_MAX_MS else BIT0_MIN_MS <= width < BIT0_MAX_MS
  }

  ghost predicate OneSecondOn(gap: int) { SEC_MIN_MS <= gap <= SEC_MAX_MS }

  // Consecutive seconds' pulses, every one readable.
  ghost predicate Seconds(run: seq<Pulse>) {
    && (forall i | 0 <= i < |run| :: ReadsAs(run[i].end - run[i].start, run[i].value))
    && (forall i | 0 < i < |run| :: OneSecondOn(run[i].start - run[i - 1].start))
  }

  lemma NoSeconds()
    ensures Seconds([])
  {
  }

  // What a frame handed to frame_complete() always is: 59 readable pulses, each
  // a second after the one before, then the silent second; its bits are theirs.
  ghost predicate Complete(f: Frame) {
    && |f.run| == FRAME_BITS && |f.bits| == FRAME_BITS
    && Seconds(f.run)
    && MARK_MIN_MS <= f.mark - f.run[FRAME_BITS - 1].start <= MARK_MAX_MS
    && forall i | 0 <= i < FRAME_BITS :: f.bits[i] == f.run[i].value
  }

  ghost predicate Validated(f: Frame) {
    Complete(f) && Decode(f.bits).Ok?
  }

  // The UTC time a frame decodes to.
  function Utc(f: Frame): Time {
    if |f.bits| == FRAME_BITS && Decode(f.bits).Ok? then Decode(f.bits).utc else Time(0, 0, 0, 0, 0, 0, 0)
  }

  // Milliseconds to minutes, to the nearest, in the 32 bits the code keeps.
  function RoundedMinutes(elapsedMs: nat): nat {
    (elapsedMs + 30000) / 60000 % U32
  }

  // The later frame says what the clock says has passed since the earlier one.
  predicate Agree(earlier: Frame, later: Frame) {
    && earlier.mark <= later.mark
    && var m := RoundedMinutes(later.mark - earlier.mark);
       1 <= m <= PAIR_MAX_MINUTES && LinearMinutes(Utc(later)) == (LinearMinutes(Utc(earlier)) + m) % U32
  }

  // The time between two marks, modulo 2^32 minutes, is m minutes but for less than
  // half a one.
  ghost predicate MinutesBetween(elapsedMs: nat, m: int) {
    60000 * m - 30000 <= elapsedMs % (60000 * U32) < 60000 * m + 30000
  }

  lemma RoundedMeans(elapsedMs: nat, m: nat)
    requires 1 <= m <= 30
    ensures RoundedMinutes(elapsedMs) == m <==> MinutesBetween(elapsedMs, m)
  {
    var period := 60000 * U32;
    var k, e := elapsedMs / period, elapsedMs % period;
    var q, r := (e + 30000) / 60000, (e + 30000) % 60000;
    assert elapsedMs + 30000 == 60000 * (q + k * U32) + r;
    QuotientIs(elapsedMs + 30000, 60000, q + k * U32, r);
    if q < U32 { QuotientIs(q + k * U32, U32, k, q); } else { QuotientIs(q + k * U32, U32, k + 1, q - U32); }
  }

  // Two frames agree exactly when, for some m from 1 to 30, their marks are m minutes
  // apart, to the nearest, and their UTC times exactly so.
  lemma AgreeMeans(earlier: Frame, later: Frame)
    requires Validated(earlier) && Validated(later)
    ensures Agree(earlier, later) <==>
            earlier.mark <= later.mark
            && exists m :: 1 <= m <= 30 && MinutesBetween(later.mark - earlier.mark, m)
                           && Epoch(Utc(later)) == Epoch(Utc(earlier)) + 60 * m
  {
    hide Decode, Epoch, LinearMinutes, RoundedMinutes, Utc, MinutesBetween;
    FrameMinutes(earlier);
    FrameMinutes(later);
    if earlier.mark <= later.mark {
      var elapsed := later.mark - earlier.mark;
      forall m | 1 <= m <= 30
        ensures RoundedMinutes(elapsed) == m <==> MinutesBetween(elapsed, m)
      {
        RoundedMeans(elapsed, m);
      }
      if Agree(earlier, later) {
        var m := RoundedMinutes(elapsed);
        assert Epoch(Utc(later)) == Epoch(Utc(earlier)) + 60 * m;
        assert MinutesBetween(elapsed, m);
      }
    }
  }

  lemma FrameMinutes(f: Frame)
    requires Validated(f)
    ensures Epoch(Utc(f)) == 60 * LinearMinutes(Utc(f)) && LinearMinutes(Utc(f)) < U32 / 2
  {
    hide FromOffset, EvenParity, Weekday, ValidTime, DaysFromCivil, BcdOf;
    DecodedTime(f.bits);
    var t := LocalTime(f.bits);
    FrameDays(t.year, t.month, t.day);
    hide Decode;
    assert Epoch(t) == 60 * (DaysFromCivil(DateOfTime(t)) * 1440 + t.hour * 60 + t.min);
  }

  // ----------------------------------------- what the pulses make of a minute

  // The receiver above the debounce: the last pulse start, the bit the current
  // pulse will be (-1: not aligned), the pulses since the minute mark, every
  // frame that decoded, and the time waiting to be taken.
  datatype Reception = Reception(havePrev: bool, prevStart: nat, index: int, run: seq<Pulse>, frames: seq<Frame>, ready: Taken)

  function Values(run: seq<Pulse>): (v: seq<bool>)
    ensures |v| == |run| && forall i | 0 <= i < |v| :: v[i] == run[i].value
  {
    if run == [] then [] else Values(run[..|run| - 1]) + [run[|run| - 1].value]
  }

  function OnFrame(a: Reception, f: Frame): Reception
    requires |f.bits| == FRAME_BITS
  {
    if !Decode(f.bits).Ok? then a
    else a.(frames := a.frames + [f],
            ready := if a.frames != [] && Agree(a.frames[|a.frames| - 1], f) then TimeAt(Utc(f), f.mark) else a.ready)
  }

  // What the time since the last pulse start does.
  function OnGap(a: Reception, t: nat): Reception {
    var gap := t - a.prevStart;
    if MARK_MIN_MS <= gap <= MARK_MAX_MS then
      (if a.index == FRAME_BITS - 1 && |a.run| == FRAME_BITS then OnFrame(a, Frame(t, Values(a.run), a.run))
       else a).(index := 0, run := [])
    else if SEC_MIN_MS <= gap <= SEC_MAX_MS then
      a.(index := if a.index >= 0 && a.index + 1 < FRAME_BITS then a.index + 1 else -1)
    else a.(index := -1)
  }

  function OnStart(a: Reception, t: nat): Reception {
    (if a.havePrev then OnGap(a, t) else a).(havePrev := true, prevStart := t)
  }

  function OnEnd(a: Reception, start: nat, t: nat): Reception {
    var width := (t - start) % U32;
    if BIT0_MIN_MS <= width <= BIT1_MAX_MS then
      if a.index >= 0 then a.(run := a.run + [Pulse(start, t, width >= BIT1_MIN_MS)]) else a
    else a.(index := -1)
  }

  // The receiver after one pulse, and after several.
  function AfterPulse(a: Reception, p: Pulse): Reception {
    OnEnd(OnStart(a, p.start), p.start, p.end)
  }

  function AfterPulses(a: Reception, run: seq<Pulse>): Reception {
    if run == [] then a else AfterPulse(AfterPulses(a, run[..|run| - 1]), run[|run| - 1])
  }

  ghost predicate Readable(p: Pulse) {
    p.start <= p.end && ReadsAs(p.end - p.start, p.value)
  }

  lemma PulseAtMark(a: Reception, p: Pulse)
    requires Readable(p) && a.havePrev && MARK_MIN_MS <= p.start - a.prevStart <= MARK_MAX_MS
    ensures var b := AfterPulse(a, p); b.havePrev && b.prevStart == p.start && b.index == 0 && b.run == [p]
  {
    hide Decode, Agree, Utc, Values;
  }

  lemma PulseInMinute(a: Reception, p: Pulse)
    requires Readable(p) && a.havePrev && OneSecondOn(p.start - a.prevStart) && 0 <= a.index < FRAME_BITS - 1
    ensures AfterPulse(a, p) == a.(prevStart := p.start, index := a.index + 1, run := a.run + [p])
  {
    hide Decode, Agree, Utc, Values;
  }

  // From any state, n good pulses that open with a minute mark leave the
  // receiver at bit n - 1, holding exactly those pulses.
  lemma {:induction false} AlignedPulses(a: Reception, run: seq<Pulse>)
    requires 0 < |run| <= FRAME_BITS && Seconds(run) && forall i | 0 <= i < |run| :: run[i].start <= run[i].end
    requires a.havePrev && MARK_MIN_MS <= run[0].start - a.prevStart <= MARK_MAX_MS
    ensures var first := AfterPulse(a, run[0]);
            AfterPulses(a, run) == Reception(true, run[|run| - 1].start, |run| - 1, run, first.frames, first.ready)
  {
    hide AfterPulse, ReadsAs, OneSecondOn;
    var n := |run| - 1;
    assert Readable(run[n]);
    if n == 0 {
      assert run == [run[0]] && AfterPulses(a, run[..0]) == a;
      PulseAtMark(a, run[0]);
    } else {
      AlignedPulses(a, run[..n]);
      PulseInMinute(AfterPulses(a, run[..n]), run[n]);
      assert run[..n] + [run[n]] == run;
    }
  }

  // A minute received whole is never lost: 59 good pulses between two minute
  // marks are collected as a frame, kept if it decodes, and believed if it
  // agrees with the frame before it.
  lemma WholeMinute(a: Reception, run: seq<Pulse>, mark: nat)
    requires |run| == FRAME_BITS && Seconds(run) && forall i | 0 <= i < |run| :: run[i].start <= run[i].end
    requires a.havePrev && MARK_MIN_MS <= run[0].start - a.prevStart <= MARK_MAX_MS
    requires MARK_MIN_MS <= mark - run[FRAME_BITS - 1].start <= MARK_MAX_MS
    ensures var f := Frame(mark, Values(run), run);
            var before, after := AfterPulse(a, run[0]), OnStart(AfterPulses(a, run), mark);
            Complete(f) &&
            if Decode(f.bits).Ok? then
              && after.frames == before.frames + [f]
              && after.ready == if before.frames != [] && Agree(before.frames[|before.frames| - 1], f)
                                then TimeAt(Utc(f), mark) else before.ready
            else after.frames == before.frames && after.ready == before.ready
  {
    AlignedPulses(a, run);
    hide Decode, Agree, Utc, AfterPulse, AfterPulses;
  }

  // The receiver with the debounce below it: the settled level and the one that may
  // follow it, and where the pulse began.
  datatype Line = Line(have: bool, level: bool, cand: bool, since: nat, start: nat, rx: Reception)

  // One sample: the first gives the level; another level begins to be a candidate;
  // one that has held is confirmed, and dated by the sample it began with.
  function OnSample(l: Line, active: bool, t: nat): Line {
    if !l.have then Line(true, active, active, t, l.start, l.rx)
    else if active != l.cand then l.(cand := active, since := t)
    else if l.cand == l.level || t - l.since < DEBOUNCE_MS then l
    else Confirmed(l)
  }

  function Confirmed(l: Line): Line {
    if l.cand then l.(level := true, start := l.since, rx := OnStart(l.rx, l.since))
    else l.(level := false, rx := OnEnd(l.rx, l.start, l.since))
  }

  // ------------------------------------------------------------- the decoder

  class Decoder {
    const pulseIsHigh: bool
    var haveLevel: bool
    var level: bool
    var cand: bool
    var candSince: nat
    var inPulse: bool
    var havePrev: bool
    var pulseStart: nat
    var prevStart: nat
    const bits: array<bool>
    var bitIndex: int
    var havePrevFrame: bool
    var prevFrameMinutes: nat
    var prevFrameMark: nat
    var timeReady: bool
    var outTime: Time
    var outMark: nat

    ghost var now: nat             // the newest sample's time
    ghost var samples: seq<Edge>   // every sample, as pulse (true) or not
    ghost var candIndex: nat       // the sample `cand` began with
    ghost var edges: seq<Edge>     // every confirmed transition
    ghost var run: seq<Pulse>      // the pulses since the minute mark
    ghost var frames: seq<Frame>   // every frame that decoded
    ghost var outIndex: nat        // which of them is waiting to be taken

    ghost predicate ValidEdges()
      reads this
    {
      && Debounced(edges)
      && (haveLevel <==> samples != [])
      && (haveLevel ==> Held(samples, candIndex, cand, candSince))
      && (haveLevel ==> candSince <= now && inPulse == level)
      && (!haveLevel ==> edges == [] && !havePrev)
      && (edges != [] ==> var e := edges[|edges| - 1];
            e.level == level && e.at + DEBOUNCE_MS <= now && (cand != level ==> e.at + DEBOUNCE_MS <= candSince))
      && (!havePrev ==> pulseStart == 0)
      && (havePrev ==> edges != [] && prevStart <= edges[|edges| - 1].at)
      && (havePrev && inPulse ==> pulseStart == prevStart == edges[|edges| - 1].at)
    }

    // In a pulse that started at `start`: the bits before the one it will be, read
    // from pulses a second apart.
    ghost predicate RunOpen(start: nat)
      reads `bitIndex, `run, bits
    {
      && |run| == bitIndex <= bits.Length
      && (forall i | 0 <= i < |run| :: bits[i] == run[i].value)
      && Seconds(run)
      && (run != [] ==> OneSecondOn(start - run[|run| - 1].start))
    }

    // Between pulses, the last of which ended by `limit`. Its width is only known
    // modulo 2^32 until the next pulse starts.
    ghost predicate RunClosed(limit: nat)
      reads `bitIndex, `run, `prevStart, bits
    {
      && 0 < |run| == bitIndex + 1 <= bits.Length
      && (forall i | 0 <= i < |run| :: bits[i] == run[i].value)
      && Seconds(run[..|run| - 1])
      && var p := run[|run| - 1];
         && p.start == prevStart && p.start <= p.end <= limit
         && ReadsAs((p.end - p.start) % U32, p.value)
         && (|run| > 1 ==> OneSecondOn(p.start - run[|run| - 2].start))
    }

    lemma ClosedLater(limit: nat, later: nat)
      requires limit <= later
      ensures RunClosed(limit) ==> RunClosed(later)
    {
    }

    ghost predicate ValidRun()
      reads `bitIndex, `havePrev, `run, `inPulse, `prevStart, `edges, bits
    {
      && bits.Length == FRAME_BITS
      && -1 <= bitIndex < FRAME_BITS
      && (bitIndex >= 0 ==> havePrev && edges != [] && if inPulse then RunOpen(prevStart) else RunClosed(edges[|edges| - 1].at))
    }

    ghost function Pending(): Taken
      reads `timeReady, `outTime, `outMark
    {
      if timeReady then TimeAt(outTime, outMark) else NoTime
    }

    ghost function State(): Reception
      reads `havePrev, `prevStart, `bitIndex, `run, `frames, `timeReady, `outTime, `outMark
    {
      Reception(havePrev, prevStart, bitIndex, run, frames, Pending())
    }

    ghost function Receiver(): Line
      reads `haveLevel, `level, `cand, `candSince, `pulseStart,
            `havePrev, `prevStart, `bitIndex, `run, `frames, `timeReady, `outTime, `outMark
    {
      Line(haveLevel, level, cand, candSince, pulseStart, State())
    }

    ghost predicate ValidFrames()
      reads `frames, `havePrevFrame, `prevFrameMark, `prevFrameMinutes, `timeReady, `outIndex, `outTime, `outMark
    {
      && (forall i | 0 <= i < |frames| :: Validated(frames[i]))
      && (havePrevFrame <==> frames != [])
      && (havePrevFrame ==>
            var f := frames[|frames| - 1];
            && prevFrameMark == f.mark && prevFrameMinutes == LinearMinutes(Utc(f)))
      && (timeReady ==>
            && 0 < outIndex < |frames|
            && Agree(frames[outIndex - 1], frames[outIndex])
            && outTime == Utc(frames[outIndex]) && outMark == frames[outIndex].mark)
    }

    ghost predicate MarkPast()
      reads `havePrevFrame, `havePrev, `prevFrameMark, `prevStart
    {
      havePrevFrame ==> havePrev && prevFrameMark <= prevStart
    }

    ghost predicate Valid()
      reads this, bits
    {
      ValidEdges() && ValidRun() && ValidFrames() && MarkPast()
    }

    // dcf77_reset()
    constructor (pulseIsHigh: bool)
      ensures Valid() && fresh(bits) && this.pulseIsHigh == pulseIsHigh
      ensures bitIndex == -1 && !timeReady && edges == [] && samples == [] && frames == []
    {
      this.pulseIsHigh := pulseIsHigh;
      haveLevel, level, cand, candSince := false, false, false, 0;
      inPulse, havePrev, pulseStart, prevStart := false, false, 0, 0;
      bits := new bool[FRAME_BITS](_ => false);
      bitIndex := -1;
      havePrevFrame, prevFrameMinutes, prevFrameMark := false, 0, 0;
      timeReady, outTime, outMark := false, Time(0, 0, 0, 0, 0, 0, 0), 0;
      now, samples, candIndex, edges, run, frames, outIndex := 0, [], 0, [], [], [], 0;
    }

    // Whether a frame that reads `minutes` agrees with the stored one.
    method Pairs(mark: nat, minutes: nat, ghost f: Frame) returns (agree: bool)
      requires ValidFrames() && (havePrevFrame ==> prevFrameMark <= mark)
      requires f.mark == mark && minutes == LinearMinutes(Utc(f))
      ensures agree <==> frames != [] && Agree(frames[|frames| - 1], f)
    {
      hide LinearMinutes, RoundedMinutes, Utc, Validated;
      if !havePrevFrame { return false; }
      var elapsedMin := RoundedMinutes(mark - prevFrameMark);
      agree := 1 <= elapsedMin <= PAIR_MAX_MINUTES && minutes == (prevFrameMinutes + elapsedMin) % U32;
    }

    // A frame that decodes: believed if it agrees with the stored one, and stored.
    method Keep(mark: nat, utc: Time, ghost f: Frame)
      requires ValidFrames() && (havePrevFrame ==> prevFrameMark <= mark)
      requires Validated(f) && f.mark == mark && utc == Utc(f)
      modifies this`havePrevFrame, this`prevFrameMinutes, this`prevFrameMark, this`timeReady, this`outTime, this`outMark,
               this`frames, this`outIndex
      ensures ValidFrames() && havePrevFrame && prevFrameMark == mark
      ensures frames == old(frames) + [f]
      ensures Pending() == if old(frames) != [] && Agree(old(frames)[|old(frames)| - 1], f)
              then TimeAt(utc, mark) else old(Pending())
    {
      hide LinearMinutes, Agree, Utc, Validated;
      var minutes := LinearMinutes(utc);
      var agree := Pairs(mark, minutes, f);
      if agree {
        outTime := utc;
        outMark := mark;
        timeReady := true;
        outIndex := |frames|;
      }
      prevFrameMinutes := minutes;
      prevFrameMark := mark;
      havePrevFrame := true;
      frames := frames + [f];
    }

    // A full frame at its minute mark. One that does not decode changes nothing:
    // the stored good frame stays, and so does a time not yet taken.
    method FrameComplete(mark: nat)
      requires ValidFrames() && bits.Length == FRAME_BITS
      requires havePrevFrame ==> prevFrameMark <= mark
      requires Complete(Frame(mark, bits[..], run))
      modifies this`havePrevFrame, this`prevFrameMinutes, this`prevFrameMark, this`timeReady, this`outTime, this`outMark,
               this`frames, this`outIndex
      ensures ValidFrames() && (havePrevFrame ==> prevFrameMark <= mark)
      ensures State() == OnFrame(old(State()), Frame(mark, bits[..], run))
    {
      hide Decode, LinearMinutes, Complete, Agree;
      var r := DecodeFrame(bits);
      if r.Ok? {
        Keep(mark, r.utc, Frame(mark, bits[..], run));
      }
    }

    // The missing second-59 pulse: the frame just collected is complete, and the
    // next one starts here.
    method MinuteMark(t: nat)
      requires ValidFrames() && bits.Length == FRAME_BITS && -1 <= bitIndex < FRAME_BITS
      requires havePrevFrame ==> prevFrameMark <= t
      requires MARK_MIN_MS <= t - prevStart <= MARK_MAX_MS
      requires bitIndex >= 0 ==> RunClosed(t) && Seconds(run)
      modifies this`bitIndex, this`run,
               this`havePrevFrame, this`prevFrameMinutes, this`prevFrameMark, this`timeReady, this`outTime, this`outMark,
               this`frames, this`outIndex
      ensures ValidFrames() && (havePrevFrame ==> prevFrameMark <= t)
      ensures State() == (if old(bitIndex) == FRAME_BITS - 1 then OnFrame(old(State()), Frame(t, Values(old(run)), old(run)))
                         else old(State()))
                         .(index := 0, run := [])
    {
      hide Decode, LinearMinutes, RoundedMinutes, Agree, Utc, Validated, ReadsAs, ValidFrames, OneSecondOn, Seconds;
      if bitIndex == FRAME_BITS - 1 {
        assert Complete(Frame(t, bits[..], run));
        assert bits[..] == Values(run);
        FrameComplete(t);
      }
      bitIndex := 0;
      run := [];
    }

    // The gap since the last pulse: a minute mark, the next second, or alignment lost.
    method NoteGap(t: nat)
      requires ValidFrames() && bits.Length == FRAME_BITS && -1 <= bitIndex < FRAME_BITS
      requires havePrev && prevStart <= t && (havePrevFrame ==> prevFrameMark <= prevStart)
      requires bitIndex >= 0 ==> RunClosed(t)
      modifies this`bitIndex, this`run,
               this`havePrevFrame, this`prevFrameMinutes, this`prevFrameMark, this`timeReady, this`outTime, this`outMark,
               this`frames, this`outIndex
      ensures ValidFrames() && (havePrevFrame ==> prevFrameMark <= t) && -1 <= bitIndex < FRAME_BITS
      ensures bitIndex >= 0 ==> RunOpen(t)
      ensures State() == OnGap(old(State()), t)
    {
      hide ValidFrames, ReadsAs, Seconds, OnFrame, Values;
      NoSeconds();
      var gap := t - prevStart;
      if bitIndex >= 0 && gap <= MARK_MAX_MS { LastPulseReads(run, t); }
      if MARK_MIN_MS <= gap <= MARK_MAX_MS {
        MinuteMark(t);
      } else if SEC_MIN_MS <= gap <= SEC_MAX_MS {
        if bitIndex >= 0 {
          bitIndex := bitIndex + 1;
          if bitIndex >= FRAME_BITS { bitIndex := -1; }
        }
      } else {
        bitIndex := -1;
      }
    }

    method NotePulseStart(t: nat)
      requires ValidFrames() && MarkPast() && bits.Length == FRAME_BITS && -1 <= bitIndex < FRAME_BITS
      requires havePrev ==> prevStart <= t
      requires bitIndex >= 0 ==> havePrev && RunClosed(t)
      modifies this`bitIndex, this`run, this`prevStart, this`havePrev,
               this`havePrevFrame, this`prevFrameMinutes, this`prevFrameMark, this`timeReady, this`outTime, this`outMark,
               this`frames, this`outIndex
      ensures ValidFrames() && MarkPast()
      ensures havePrev && prevStart == t && -1 <= bitIndex < FRAME_BITS
      ensures bitIndex >= 0 ==> RunOpen(prevStart)
      ensures State() == OnStart(old(State()), t)
    {
      hide Seconds, OneSecondOn, OnGap, Agree, Utc, Validated, LinearMinutes;
      if havePrev { NoteGap(t); }
      prevStart := t;
      havePrev := true;
    }

    method NotePulseEnd(t: nat)
      requires bits.Length == FRAME_BITS && -1 <= bitIndex < FRAME_BITS && pulseStart <= t
      requires bitIndex >= 0 ==> pulseStart == prevStart && RunOpen(prevStart)
      modifies this`bitIndex, this`run, bits
      ensures bitIndex == old(bitIndex) || bitIndex == -1
      ensures bitIndex >= 0 ==> RunClosed(t)
      ensures State() == OnEnd(old(State()), pulseStart, t)
    {
      hide RunOpen, RunClosed;
      var width := (t - pulseStart) % U32;
      var value := -1;
      if BIT0_MIN_MS <= width < BIT0_MAX_MS { value := 0; }
      else if BIT1_MIN_MS <= width <= BIT1_MAX_MS { value := 1; }
      assert value >= 0 <==> ReadsAs(width, false) || ReadsAs(width, true);
      if value < 0 {
        bitIndex := -1;
      } else if 0 <= bitIndex < FRAME_BITS {
        StoreBit(t, value == 1);
      }
    }

    method StoreBit(t: nat, value: bool)
      requires bits.Length == FRAME_BITS && 0 <= bitIndex < FRAME_BITS
      requires pulseStart == prevStart <= t && RunOpen(prevStart) && ReadsAs((t - pulseStart) % U32, value)
      modifies this`run, bits
      ensures RunClosed(t) && run == old(run) + [Pulse(pulseStart, t, value)]
    {
      hide Seconds, OneSecondOn, ReadsAs;
      ghost var before := run;
      bits[bitIndex] := value;
      run := run + [Pulse(pulseStart, t, value)];
      assert run[..bitIndex] == before;
    }

    // One sample. A transition is confirmed exactly when the line has left the
    // debounced level, every sample since has read the new one, and the first
    // of them is DEBOUNCE_MS old; it is dated by that first sample.
    method Feed(rawLevel: bool, t: nat)
      requires Valid() && now <= t
      modifies this, bits
      ensures Valid() && now == t
      ensures samples == old(samples) + [Edge(t, rawLevel == pulseIsHigh)]
      ensures edges == old(edges) ||
              (edges == old(edges) + [Edge(candSince, cand)] && Held(samples, candIndex, cand, candSince)
               && t - candSince >= DEBOUNCE_MS)
      ensures edges != old(edges) <==>
              old(samples) != [] && old(cand) != old(level) && (rawLevel == pulseIsHigh) == old(cand)
              && t - old(candSince) >= DEBOUNCE_MS
      ensures level == if old(samples) == [] then rawLevel == pulseIsHigh else if edges == old(edges) then old(level) else cand
      ensures State() == if edges == old(edges) then old(State())
                         else if level then OnStart(old(State()), candSince)
                         else OnEnd(old(State()), old(pulseStart), candSince)
      ensures Receiver() == OnSample(old(Receiver()), rawLevel == pulseIsHigh, t)
    {
      hide ValidRun, ValidFrames, MarkPast, State, OnStart, OnEnd, Debounced, Held;
      var active := if pulseIsHigh then rawLevel else !rawLevel;
      if !haveLevel {
        FirstSample(active, t);
      } else {
        var held := Sample(active, t);
        if held { Confirm(); }
      }
    }

    method FirstSample(active: bool, t: nat)
      requires Valid() && !haveLevel && now <= t
      modifies `now, `samples, `haveLevel, `level, `cand, `candSince, `candIndex, `inPulse
      ensures Valid() && now == t && samples == [Edge(t, active)] && level == cand == active
      ensures haveLevel && candSince == t
    {
      hide ValidFrames, MarkPast, RunOpen, RunClosed, Debounced, Held;
      HeldAppend([], 0, active, t, Edge(t, active));
      assert [] + [Edge(t, active)] == [Edge(t, active)];
      haveLevel := true;
      level := active;
      cand := active;
      candSince := t;
      inPulse := active;
      now, samples, candIndex := t, [Edge(t, active)], 0;
    }

    // The sample into the debounce; true when the candidate level has held.
    method Sample(active: bool, t: nat) returns (held: bool)
      requires Valid() && haveLevel && now <= t
      modifies `now, `samples, `cand, `candSince, `candIndex
      ensures Valid() && now == t && samples == old(samples) + [Edge(t, active)]
      ensures Held(samples, candIndex, cand, candSince)
      ensures cand == active && candSince == if active == old(cand) then old(candSince) else t
      ensures held <==> cand != level && t - candSince >= DEBOUNCE_MS
    {
      hide ValidRun, ValidFrames, MarkPast, Debounced, Held;
      HeldAppend(samples, candIndex, cand, candSince, Edge(t, active));
      now := t;
      samples := samples + [Edge(t, active)];
      if active != cand {
        cand := active;
        candSince := t;
        candIndex := |samples| - 1;
        return false;
      }
      held := cand != level && t - candSince >= DEBOUNCE_MS;
    }

    // The candidate level held: a pulse starts or ends where it began.
    method Confirm()
      requires Valid() && haveLevel && cand != level && now - candSince >= DEBOUNCE_MS
      modifies `level, `edges, `pulseStart, `inPulse, `bitIndex, `run, `prevStart, `havePrev, bits,
               `havePrevFrame, `prevFrameMinutes, `prevFrameMark, `timeReady, `outTime, `outMark, `frames, `outIndex
      ensures Valid() && level == cand && edges == old(edges) + [Edge(candSince, cand)]
      ensures State() == if level then OnStart(old(State()), candSince) else OnEnd(old(State()), old(pulseStart), candSince)
      ensures pulseStart == if level then candSince else old(pulseStart)
    {
      hide ValidEdges, ValidRun, ValidFrames, MarkPast, State, OnStart, OnEnd;
      if cand { Rise(); } else { Fall(); }
    }

    method Rise()
      requires Valid() && haveLevel && cand && !level && now - candSince >= DEBOUNCE_MS
      modifies `level, `edges, `pulseStart, `inPulse, `bitIndex, `run, `prevStart, `havePrev,
               `havePrevFrame, `prevFrameMinutes, `prevFrameMark, `timeReady, `outTime, `outMark, `frames, `outIndex
      ensures Valid() && level == cand && edges == old(edges) + [Edge(candSince, cand)]
      ensures State() == OnStart(old(State()), candSince) && pulseStart == candSince
    {
      hide ValidFrames, MarkPast, RunOpen, RunClosed, Debounced, Held, State, OnStart, OnEnd, Seconds, Pending;
      DebouncedAppend(edges, Edge(candSince, cand));
      ClosedLater(if edges == [] then 0 else edges[|edges| - 1].at, candSince);
      level := cand;
      edges := edges + [Edge(candSince, level)];
      OpenPulse(candSince);
    }

    // A pulse begins.
    method OpenPulse(at: nat)
      requires ValidFrames() && MarkPast() && bits.Length == FRAME_BITS && -1 <= bitIndex < FRAME_BITS
      requires havePrev ==> prevStart <= at
      requires bitIndex >= 0 ==> havePrev && RunClosed(at)
      modifies this`pulseStart, this`inPulse, this`bitIndex, this`run, this`prevStart, this`havePrev,
               this`havePrevFrame, this`prevFrameMinutes, this`prevFrameMark, this`timeReady, this`outTime, this`outMark,
               this`frames, this`outIndex
      ensures ValidFrames() && MarkPast()
      ensures inPulse && havePrev && pulseStart == prevStart == at && -1 <= bitIndex < FRAME_BITS
      ensures bitIndex >= 0 ==> RunOpen(prevStart)
      ensures State() == OnStart(old(State()), at)
    {
      hide ValidFrames, MarkPast, RunOpen, RunClosed, State, OnStart;
      pulseStart := at;
      inPulse := true;
      NotePulseStart(at);
    }

    method Fall()
      requires Valid() && haveLevel && !cand && level && now - candSince >= DEBOUNCE_MS
      modifies `level, `edges, `inPulse, `bitIndex, `run, bits
      ensures Valid() && level == cand && edges == old(edges) + [Edge(candSince, cand)]
      ensures State() == OnEnd(old(State()), pulseStart, candSince)
    {
      hide ValidFrames, MarkPast, RunOpen, RunClosed, Debounced, Held, State, OnStart, OnEnd;
      DebouncedAppend(edges, Edge(candSince, cand));
      level := cand;
      edges := edges + [Edge(candSince, level)];
      if inPulse {
        inPulse := false;
        NotePulseEnd(candSince);
      }
    }

    // dcf77_take_time(): a time is handed out once, and two decoded frames that
    // agree stand behind it.
    method TakeTime() returns (r: Taken)
      requires Valid()
      modifies this`timeReady
      ensures Valid() && !timeReady && r == old(Pending())
      ensures r.TimeAt? ==>
                && 0 < outIndex < |frames|
                && Agree(frames[outIndex - 1], frames[outIndex])
                && r.utc == Utc(frames[outIndex]) && r.mark == frames[outIndex].mark
    {
      hide Decode, Agree, Utc, Validated;
      if !timeReady { return NoTime; }
      r := TimeAt(outTime, outMark);
      timeReady := false;
    }
  }

  // The next pulse being near, the last one's width was not cut to 32 bits.
  lemma LastPulseReads(run: seq<Pulse>, t: nat)
    requires run != [] && Seconds(run[..|run| - 1])
    requires var p := run[|run| - 1];
             p.start <= p.end <= t && t - p.start <= MARK_MAX_MS && ReadsAs((p.end - p.start) % U32, p.value)
    requires |run| > 1 ==> OneSecondOn(run[|run| - 1].start - run[|run| - 2].start)
    ensures Seconds(run)
  {
    var n := |run| - 1;
    forall i | 0 <= i < |run|
      ensures ReadsAs(run[i].end - run[i].start, run[i].value)
    {
      if i < n { assert run[..n][i] == run[i]; }
    }
    forall i | 0 < i < |run|
      ensures OneSecondOn(run[i].start - run[i - 1].start)
    {
      if i < n { assert run[..n][i] == run[i] && run[..n][i - 1] == run[i - 1]; }
    }
  }
}
