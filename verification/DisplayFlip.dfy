// The flip protocol of the double-buffered display (drivers/dsi_esp32p4.c): the
// terminal's passes, the frame end (from the interrupt on one hart or a poll on
// another) and the scan-out's stop and start, each a step, interleaved
// in any order. What holds the scan lock in the source is one step here.
module DisplayFlip {
  import opened Common

  // How far a pass of the terminal, or a stop of the scan-out, has come.
  datatype Phase =
    | Idle
    | Looked(saw: bool)                          // g_flip_pending read, without the lock
    | Taken(rearm: bool)                         // the flip taken back, under it
    | Drawing(back: Index, rearm: bool, n: nat)
    | Flagged                                    // the scan-out's stop asked for
    | Stopping(f0: nat)                          // waiting for a frame end after f0
    | Halted | Unflagged | Dropped               // channel off, flag cleared, flip dropped
    | Starting                                   // the first transfer begun

  datatype State = State(
    front: Index, pending: bool, scanning: bool, stopAtEnd: bool,
    done: bool, error: bool,                     // the channel's status
    channel: Option<Index>,                      // the buffer being transferred
    item: Index,                                 // the buffer the link item names
    frames: nat, flips: nat, errors: nat,
    phase: Phase,
    image: seq<nat>,                             // what each buffer holds
    // history
    begun: nat,                                  // what the buffer held when its transfer began
    ends: nat,                                   // transfers completed
    whole: seq<bool>,                            // no pass is part way through this buffer
    armed: nat, takenBack: nat, dropped: nat,
    late: nat,                                   // stops that left a frame end untaken
    lost: nat,                                   // frame ends a start has forgotten
    doubled: nat)                                // starts of a running channel

  datatype Step =
    | TransferDone | TransferError               // the channel
    | Interrupt | Poll                           // the frame end's two callers
    | Look | TakeBack | Begin | Write(picture: nat, unit: bool) | Finish
    | StopRequest | StopWait | StopDone | StopTimeout | Unflag | Drop | StopEnd
    | Start | StartEnd

  function Restart(s: State): State {
    s.(channel := Some(s.item), begun := if |s.image| == 2 then s.image[s.item] else 0)
  }

  // gdma_frame_end_locked()
  function FrameEnd(s: State): State {
    var c := s.(done := false, error := false, errors := if s.error then s.errors + 1 else s.errors);
    if !s.done then c
    else
      var f := c.(frames := c.frames + 1);
      if f.stopAtEnd then f
      else if f.pending then Restart(f.(front := 1 - f.front, item := 1 - f.front, pending := false, flips := f.flips + 1))
      else Restart(f)
  }

  // dsi_lcd_flip()
  function Flip(s: State): State {
    if !s.scanning then s else s.(pending := true, armed := if s.pending then s.armed else s.armed + 1)
  }

  // gdma_stop(), when the wait for a frame end is over.
  function Halt(s: State): State {
    s.(channel := None, phase := Halted)
  }

  function One(b: bool): nat { if b then 1 else 0 }

  predicate Enabled(s: State, step: Step) {
    match step
    case TransferDone => s.channel.Some?
    case TransferError => s.channel.Some?
    case Interrupt => true
    case Poll => true
    case Look => s.phase.Idle?
    case TakeBack => s.phase.Looked?
    case Begin => s.phase.Taken?
    case Write(_, _) => s.phase.Drawing?
    case Finish => s.phase.Drawing?
    case StopRequest => s.phase.Idle? && s.scanning
    case StopWait => s.phase.Flagged?
    case StopDone => s.phase.Stopping? && s.frames != s.phase.f0
    case StopTimeout => s.phase.Stopping?
    case Unflag => s.phase.Halted?
    case Drop => s.phase.Unflagged?
    case StopEnd => s.phase.Dropped?
    case Start => s.phase.Idle? && !s.scanning
    case StartEnd => s.phase.Starting?
  }

  function Next(s: State, step: Step): State
    requires |s.image| == |s.whole| == 2 && Enabled(s, step)
  {
    match step
    case TransferDone => s.(channel := None, done := true, ends := s.ends + 1)
    case TransferError => s.(error := true)
    case Interrupt => FrameEnd(s)
    case Poll => if s.done || s.error then FrameEnd(s) else s
    case Look => s.(phase := Looked(s.pending))
    case TakeBack =>
      if !s.phase.saw then s.(phase := Taken(false))
      else s.(phase := Taken(s.pending), pending := false,
              takenBack := if s.pending then s.takenBack + 1 else s.takenBack)
    case Begin =>
      s.(phase := Drawing(1 - s.front, s.phase.rearm, 0), whole := s.whole[1 - s.front := false])
    case Write(picture, unit) =>
      s.(image := s.image[s.phase.back := picture], phase := s.phase.(n := if unit then s.phase.n + 1 else s.phase.n))
    case Finish =>
      var f := s.(phase := Idle, whole := s.whole[s.phase.back := true]);
      if s.phase.n > 0 || s.phase.rearm then Flip(f) else f
    case StopRequest => s.(phase := Flagged, stopAtEnd := true)
    case StopWait => s.(phase := Stopping(s.frames))
    case StopDone => Halt(s)
    case StopTimeout => Halt(s)
    case Unflag => s.(phase := Unflagged, stopAtEnd := false, late := s.late + One(s.done))
    case Drop => s.(phase := Dropped, pending := false, dropped := s.dropped + One(s.pending))
    case StopEnd => s.(phase := Idle, scanning := false)
    case Start =>
      Restart(s.(phase := Starting, item := s.front, done := false, error := false,
                 lost := s.lost + One(s.done), doubled := s.doubled + One(s.channel.Some?)))
    case StartEnd => s.(phase := Idle, scanning := true)
  }

  predicate Init(s: State) {
    && !s.pending && !s.scanning && !s.stopAtEnd && !s.done && !s.error && s.channel.None? && s.phase.Idle?
    && s.frames == s.flips == s.errors == s.ends == s.armed == s.takenBack == s.dropped == s.late == s.lost == s.doubled == 0
    && s.item == s.front && |s.image| == 2 && s.whole == [true, true]
  }

  // ---------------------------------------------------------- the invariant

  // What the channel transfers is the front buffer, as it was when the transfer
  // began, and no pass is in it.
  predicate Steady(s: State)
    requires |s.image| == |s.whole| == 2
  {
    s.channel.Some? ==>
      s.channel.value == s.front && s.image[s.front] == s.begun && s.whole[s.front]
  }

  // While the scan-out runs, a transfer runs or has just ended; a frame end the stop
  // waited for was the last.
  predicate Alive(s: State) {
    && s.item == s.front && !(s.channel.Some? && s.done)
    && (s.scanning && !s.stopAtEnd && !s.phase.Unflagged? && !s.phase.Dropped? ==> s.channel.Some? || s.done)
    && (s.phase.Starting? ==> s.channel.Some? || s.done)
    && (s.phase.Stopping? && s.frames != s.phase.f0 ==> s.channel.None? && !s.done)
    && (s.phase.Halted? ==> s.channel.None?)
  }

  // The scan-out is stopped, or nearly, and something of it is still to come.
  predicate Outstanding(s: State) {
    && (s.phase.Unflagged? || s.phase.Dropped? || (!s.scanning && !s.phase.Starting?))
    && (s.channel.Some? || s.done)
  }

  // Each transfer that ended was taken by one frame end, was forgotten, or is still to
  // be; a stop that leaves one untaken costs one such end, or one transfer that is
  // begun a second time, at the next start.
  predicate Ended(s: State) {
    && s.ends == s.frames + s.lost + One(s.done)
    && s.late == s.lost + s.doubled + One(Outstanding(s))
  }

  predicate Task(s: State)
    requires |s.whole| == 2
  {
    && s.stopAtEnd == (s.phase.Flagged? || s.phase.Stopping? || s.phase.Halted?)
    && (s.stopAtEnd || s.phase.Unflagged? || s.phase.Dropped? ==> s.scanning) && (s.phase.Starting? ==> !s.scanning)
    && (s.pending ==> s.scanning && (s.phase.Idle? || s.stopAtEnd || s.phase.Unflagged? || (s.phase.Looked? && s.phase.saw)))
    && (s.phase.Drawing? ==> s.phase.back == 1 - s.front)
    && (forall b: Index :: !s.whole[b] <==> s.phase.Drawing? && b == s.phase.back)
  }

  // Every armed flip was taken by one frame end, taken back by one pass, dropped
  // by a stop, or is still to come.
  predicate Counted(s: State) {
    s.armed == s.flips + s.takenBack + s.dropped + One(s.pending)
  }

  predicate Inv(s: State) {
    |s.image| == |s.whole| == 2 && Steady(s) && Alive(s) && Ended(s) && Task(s) && Counted(s)
  }

  lemma StepKeeps(s: State, step: Step)
    requires Inv(s) && Enabled(s, step)
    ensures Inv(Next(s, step))
  {
    if step.Interrupt? || step.Poll? {
      FrameEndKeeps(s);
    } else if step.Look? || step.TakeBack? || step.Begin? {
      PassKeeps(s, step);
    } else if step.Write? || step.Finish? {
      DrawingKeeps(s, step);
    } else {
      ScanKeeps(s, step);
    }
  }

  lemma FrameEndKeeps(s: State)
    requires Inv(s)
    ensures Inv(FrameEnd(s))
  {
  }

  lemma PassKeeps(s: State, step: Step)
    requires Inv(s) && Enabled(s, step) && (step.Look? || step.TakeBack? || step.Begin?)
    ensures Inv(Next(s, step))
  {
  }

  lemma DrawingKeeps(s: State, step: Step)
    requires Inv(s) && Enabled(s, step) && (step.Write? || step.Finish?)
    ensures Inv(Next(s, step))
  {
  }

  lemma ScanKeeps(s: State, step: Step)
    requires Inv(s) && Enabled(s, step) && !step.Interrupt? && !step.Poll?
    requires !step.Look? && !step.TakeBack? && !step.Begin? && !step.Write? && !step.Finish?
    ensures Inv(Next(s, step))
  {
  }

  // ------------------------------------------------------------------ runs

  ghost predicate Possible(s: State, run: seq<Step>)
    requires Inv(s)
    decreases |run|
  {
    run == [] || (Enabled(s, run[0]) && (StepKeeps(s, run[0]); Possible(Next(s, run[0]), run[1..])))
  }

  ghost function After(s: State, run: seq<Step>): (t: State)
    requires Inv(s) && Possible(s, run)
    ensures Inv(t)
    decreases |run|
  {
    if run == [] then s else StepKeeps(s, run[0]); After(Next(s, run[0]), run[1..])
  }

  // In every interleaving: the buffer being drawn is not the one being scanned
  // out, nor one that the next frame end will turn to.
  lemma NeverScannedWhileDrawn(s0: State, run: seq<Step>)
    requires Init(s0) && Possible(s0, run) && After(s0, run).phase.Drawing?
    ensures var s := After(s0, run);
            s.channel != Some(s.phase.back) && s.item != s.phase.back && !s.pending
  {
  }

  // The picture under a transfer is whole, and stays what it was when it began.
  lemma NoTearing(s0: State, run: seq<Step>)
    requires Init(s0) && Possible(s0, run) && After(s0, run).channel.Some?
    ensures var s := After(s0, run);
            s.image[s.channel.value] == s.begun && s.whole[s.channel.value]
  {
  }

  // Nothing swaps the buffers while a pass has its back buffer.
  lemma {:induction false} NoSwapInPass(s: State, run: seq<Step>)
    requires Inv(s) && Possible(s, run) && (s.phase.Taken? || s.phase.Drawing?)
    requires forall i | 0 <= i < |run| :: !run[i].Finish?
    ensures var t := After(s, run); t.front == s.front && !t.pending && (t.phase.Taken? || t.phase.Drawing?)
    decreases |run|
  {
    if run != [] {
      StepKeeps(s, run[0]);
      NoSwapInPass(Next(s, run[0]), run[1..]);
    }
  }

  // Taking the flip back takes exactly a pending one, and remembers it.
  lemma TakenBack(s: State)
    requires Inv(s) && s.phase.Looked?
    ensures var t := Next(s, TakeBack); t.phase == Taken(s.pending) && !t.pending && t.takenBack == s.takenBack + One(s.pending)
  {
  }

  ghost predicate Draws(run: seq<Step>) {
    exists i | 0 <= i < |run| :: run[i].Write? && run[i].unit
  }

  // When it ends, a pass leaves a flip armed exactly if the scan-out is on and it took
  // one back or drew something.
  lemma {:induction false} PassArms(s: State, run: seq<Step>)
    requires Inv(s) && Possible(s, run) && (s.phase.Taken? || s.phase.Drawing?)
    requires forall i | 0 <= i < |run| :: !run[i].Finish?
    requires After(s, run).phase.Drawing?
    ensures Next(After(s, run), Finish).pending <==>
            s.scanning && (s.phase.rearm || (s.phase.Drawing? && s.phase.n > 0) || Draws(run))
    decreases |run|
  {
    if run != [] {
      var next := Next(s, run[0]);
      StepKeeps(s, run[0]);
      PassArms(next, run[1..]);
      hide Inv, Possible, After;
      assert Draws(run) <==> (run[0].Write? && run[0].unit) || Draws(run[1..]) by {
        assert forall i | 0 < i < |run| :: run[i] == run[1..][i - 1];
      }
    }
  }

  // The interrupt and the poll may both come for one frame end: the second finds
  // nothing to do.
  lemma FrameEndOnce(s: State)
    ensures FrameEnd(FrameEnd(s)) == FrameEnd(s)
  {
  }

  // Each error is counted once, by a frame end, or forgotten by a start.
  lemma ErrorsCounted(s: State, step: Step)
    requires |s.image| == |s.whole| == 2 && Enabled(s, step)
    ensures var t := Next(s, step);
            t.errors + One(t.error) + One(step.Start? && s.error) ==
            s.errors + One(s.error) + One(step.TransferError? && !s.error)
  {
    if step.Interrupt? || step.Poll? {
      FrameEndErrors(s);
      hide FrameEnd;
    } else if step.Look? || step.TakeBack? || step.Begin? || step.Write? || step.Finish? {
      PassErrors(s, step);
    }
  }

  lemma PassErrors(s: State, step: Step)
    requires |s.image| == |s.whole| == 2 && Enabled(s, step)
    requires step.Look? || step.TakeBack? || step.Begin? || step.Write? || step.Finish?
    ensures Next(s, step).errors == s.errors && Next(s, step).error == s.error
  {
  }

  lemma FrameEndErrors(s: State)
    ensures FrameEnd(s).errors == s.errors + One(s.error) && !FrameEnd(s).error
  {
  }

  // Each transfer that ended is counted once, by one frame end, or forgotten by a
  // start, and no frame end restarts a running channel. What stops cost by giving up
  // on a frame end is exact: one forgotten end or one transfer begun twice each.
  lemma EachEndOnce(s0: State, run: seq<Step>)
    requires Init(s0) && Possible(s0, run)
    ensures var s := After(s0, run);
            && s.ends == s.frames + s.lost + One(s.done)
            && (FrameEnd(s).frames == s.frames + 1 <==> s.ends == s.frames + s.lost + 1)
            && (FrameEnd(s).channel != s.channel ==> s.channel.None?)
            && s.lost + s.doubled <= s.late <= s.lost + s.doubled + 1
            && (s.phase.Idle? && !s.scanning ==> ((s.channel.Some? || s.done) <==> s.late == s.lost + s.doubled + 1))
  {
  }

  // Which nothing is if no stop does: an idle scan-out is then off.
  lemma PromptRuns(s0: State, run: seq<Step>)
    requires Init(s0) && Possible(s0, run)
    ensures var s := After(s0, run);
            s.late == 0 ==>
              && s.frames <= s.ends <= s.frames + 1 && s.doubled == 0
              && (s.phase.Idle? && !s.scanning ==> s.channel.None? && !s.done)
  {
  }

  // An armed flip is on the glass from the next frame end on.
  lemma FlipTaken(s0: State, run: seq<Step>, poll: bool)
    requires Init(s0) && Possible(s0, run)
    requires var s := After(s0, run); s.pending && !s.stopAtEnd && s.channel.Some?
    ensures var s := After(s0, run);
            var t := Next(Next(s, TransferDone), if poll then Poll else Interrupt);
            t.channel == Some(1 - s.front) && t.front == 1 - s.front && !t.pending && t.image == s.image && t.flips == s.flips + 1
  {
  }

  // And such a frame end comes: while the scan-out runs a transfer does, or one has
  // ended and its frame end takes the flip.
  lemma FlipComes(s0: State, run: seq<Step>, poll: bool)
    requires Init(s0) && Possible(s0, run)
    requires var s := After(s0, run); s.pending && !s.stopAtEnd && !s.phase.Unflagged? && s.channel.None?
    ensures var s := After(s0, run);
            var t := Next(s, if poll then Poll else Interrupt);
            t.channel == Some(1 - s.front) && t.front == 1 - s.front && !t.pending && t.flips == s.flips + 1
  {
  }

  lemma FlipsAccounted(s0: State, run: seq<Step>)
    requires Init(s0) && Possible(s0, run)
    ensures var s := After(s0, run);
            s.flips <= s.armed && s.armed - s.flips - s.takenBack - s.dropped == One(s.pending)
  {
  }

  // Giving up too soon: the frame end that comes after starts the channel again, with
  // the flip that was to be dropped,
  lemma LateFrameEnd(s: State)
    requires Inv(s) && s.phase.Halted? && s.done
    ensures var t := Next(Next(s, Unflag), Interrupt);
            && t.channel == Some(t.front) && t.front == (if s.pending then 1 - s.front else s.front)
            && t.phase.Unflagged? && !t.pending && t.dropped == s.dropped && t.doubled == s.doubled
  {
  }

  // and the next start finds it running.
  lemma LateStart(s: State)
    requires Inv(s) && s.phase.Unflagged? && s.channel.Some?
    ensures var t := Next(Next(s, Drop), StopEnd);
            !t.scanning && t.channel == s.channel && Next(t, Start).doubled == s.doubled + 1
  {
  }

  // A frame end before the flag is cleared starts nothing, and the flip is dropped.
  lemma FrameEndInTime(s: State)
    requires Inv(s) && s.phase.Halted? && s.done
    ensures var t := Next(Next(s, Interrupt), Unflag);
            && t.channel.None? && t.late == s.late
            && Next(t, Interrupt).channel.None? && Next(Next(t, Interrupt), Drop).dropped == s.dropped + One(s.pending)
  {
  }

  // From any state in which the scan-out runs, a run that gives up too soon.
  lemma StopsLate(s: State)
    requires Inv(s) && s.phase.Idle? && s.scanning && s.channel.Some?
    ensures var run := [StopRequest, StopWait, TransferDone, StopTimeout];
            Possible(s, run) && After(s, run).phase.Halted? && After(s, run).done
  {
    hide Steady, Alive, Ended, Task, Counted;
    var s1 := Next(s, StopRequest);
    StepKeeps(s, StopRequest);
    var s2 := Next(s1, StopWait);
    StepKeeps(s1, StopWait);
    var s3 := Next(s2, TransferDone);
    StepKeeps(s2, TransferDone);
    StepKeeps(s3, StopTimeout);
    hide Inv;
    FirstStep(s3, StopTimeout, []);
    FirstStep(s2, TransferDone, [StopTimeout]);
    FirstStep(s1, StopWait, [TransferDone, StopTimeout]);
    FirstStep(s, StopRequest, [StopWait, TransferDone, StopTimeout]);
  }

  // And one from the beginning.
  lemma LateReached(s0: State)
    requires Init(s0)
    ensures var run := [Start, StartEnd, StopRequest, StopWait, TransferDone, StopTimeout];
            Possible(s0, run) && After(s0, run).phase.Halted? && After(s0, run).done
  {
    InitHolds(s0);
    var s1 := Next(s0, Start);
    var s2 := Next(s1, StartEnd);
    var rest := [StopRequest, StopWait, TransferDone, StopTimeout];
    StopsLate(s2);
    FirstStep(s1, StartEnd, rest);
    FirstStep(s0, Start, [StartEnd] + rest);
    assert [Start] + ([StartEnd] + rest) == [Start, StartEnd, StopRequest, StopWait, TransferDone, StopTimeout];
  }

  lemma InitHolds(s: State)
    requires Init(s)
    ensures Inv(s)
  {
  }

  lemma FirstStep(s: State, step: Step, rest: seq<Step>)
    requires Inv(s) && Enabled(s, step) && Inv(Next(s, step)) && Possible(Next(s, step), rest)
    ensures Possible(s, [step] + rest) && After(s, [step] + rest) == After(Next(s, step), rest)
  {
    assert ([step] + rest)[1..] == rest;
  }

  // A frame end between the stop's two lines is not the one it waits for: no other
  // comes, the wait ends by its time limit, and that does no harm.
  lemma MissedFrameEnd(s: State)
    requires Inv(s) && s.phase.Flagged? && s.channel.None? && !s.done
    ensures var t := Next(s, StopWait);
            && !Enabled(t, StopDone) && !Enabled(t, TransferDone) && Next(t, Interrupt).frames == t.frames
            && Next(Next(t, StopTimeout), Unflag).late == s.late
  {
  }
}
