// The DCF-77 receiver on a clean signal, from samples to a time: two whole minutes,
// each pulse and each pause held for the debounce time, with glitches shorter than
// that in the rest of it, however it is sampled.
module Dcf77Signal {
  import opened Arith
  import opened Common
  import opened Dcf77Decoder
  import opened Dcf77Frame

  // The receiver after a stretch of samples.
  function Through(l: Line, s: seq<Edge>): Line {
    if s == [] then l else OnSample(Through(l, s[..|s| - 1]), s[|s| - 1].level, s[|s| - 1].at)
  }

  lemma {:induction false} ThroughBoth(l: Line, s: seq<Edge>, t: seq<Edge>)
    ensures Through(l, s + t) == Through(Through(l, s), t)
  {
    hide OnSample;
    if t == [] {
      assert s + t == s;
    } else {
      var n := |t| - 1;
      ThroughBoth(l, s, t[..n]);
      assert (s + t)[..|s| + n] == s + t[..n];
    }
  }

  ghost predicate InOrder(s: seq<Edge>) {
    forall i, j | 0 <= i < j < |s| :: s[i].at <= s[j].at
  }

  // Samples of one level, first to last spanning the debounce time.
  ghost predicate Steady(s: seq<Edge>, level: bool) {
    s != [] && InOrder(s) && s[|s| - 1].at - s[0].at >= DEBOUNCE_MS && forall i | 0 <= i < |s| :: s[i].level == level
  }

  // The receiver has settled on a level.
  ghost predicate Settled(l: Line, level: bool) {
    l.have && l.level == l.cand == level
  }

  // A change of level is confirmed once, by whichever sample is late enough, and is
  // dated by the first.
  lemma {:induction false} Stretch(l: Line, level: bool, s: seq<Edge>)
    requires Settled(l, !level) && s != [] && InOrder(s) && forall i | 0 <= i < |s| :: s[i].level == level
    ensures var c := l.(cand := level, since := s[0].at);
            Through(l, s) == if s[|s| - 1].at - s[0].at < DEBOUNCE_MS then c else Confirmed(c)
  {
    var n := |s| - 1;
    if n == 0 {
      assert Through(l, s[..0]) == l;
    } else {
      assert s[..n][0] == s[0] && s[..n][n - 1] == s[n - 1];
      Stretch(l, level, s[..n]);
      hide OnStart, OnEnd;
      assert s[n - 1].at <= s[n].at;
    }
  }

  // -------------------------------------------------------------- glitches

  // Samples i to j, all of the other level.
  ghost predicate Run(s: seq<Edge>, i: nat, j: nat, level: bool)
    requires j <= |s|
  {
    i < j && forall k | i <= k < j :: s[k].level != level
  }

  // Samples that read `level` but for glitches: no run of the other level spans the
  // debounce time.
  ghost predicate Glitchy(s: seq<Edge>, level: bool) {
    InOrder(s) && forall i, j | 0 <= i < j <= |s| && Run(s, i, j, level) :: s[j - 1].at - s[i].at < DEBOUNCE_MS
  }

  ghost predicate EndsAt(s: seq<Edge>, level: bool) {
    s == [] || s[|s| - 1].level == level
  }

  // Where the run of the other level that ends the samples begins.
  ghost function Trailing(s: seq<Edge>, level: bool): (i: nat)
    ensures i <= |s| && (i == |s| <==> EndsAt(s, level)) && (i < |s| ==> Run(s, i, |s|, level))
  {
    if EndsAt(s, level) then |s| else Trailing(s[..|s| - 1], level)
  }

  lemma TrailingShort(s: seq<Edge>, level: bool)
    requires Glitchy(s, level) && s != [] && !EndsAt(s, level)
    ensures Glitchy(s[..|s| - 1], level) && s[|s| - 1].at - s[Trailing(s, level)].at < DEBOUNCE_MS
  {
    GlitchyBefore(s, level);
  }

  lemma GlitchyBefore(s: seq<Edge>, level: bool)
    requires Glitchy(s, level) && s != []
    ensures Glitchy(s[..|s| - 1], level)
  {
    var r := s[..|s| - 1];
    forall i, j | 0 <= i < j <= |r| && Run(r, i, j, level)
      ensures r[j - 1].at - r[i].at < DEBOUNCE_MS
    {
      assert Run(s, i, j, level);
    }
  }

  // However many glitches a settled receiver sees, it confirms none of them.
  lemma {:induction false} Immune(l: Line, level: bool, s: seq<Edge>)
    requires Settled(l, level) && Glitchy(s, level)
    ensures var m := Through(l, s);
            && m == l.(cand := m.cand, since := m.since) && (m.cand == level <==> EndsAt(s, level))
            && (m.cand != level ==> m.since == s[Trailing(s, level)].at)
  {
    if s != [] {
      var n := |s| - 1;
      GlitchyBefore(s, level);
      Immune(l, level, s[..n]);
      if !EndsAt(s, level) { TrailingShort(s, level); }
      hide OnStart, OnEnd, Confirmed, Glitchy;
    }
  }

  // One glitch: back at its level, the receiver is as it was, but for the date.
  lemma Glitch(l: Line, level: bool, s: seq<Edge>, back: Edge)
    requires Settled(l, level) && s != [] && InOrder(s + [back]) && back.level == level
    requires Run(s, 0, |s|, level) && s[|s| - 1].at - s[0].at < DEBOUNCE_MS
    ensures Through(l, s + [back]) == l.(since := back.at)
  {
    assert InOrder(s) by { assert forall i | 0 <= i < |s| :: (s + [back])[i] == s[i]; }
    Stretch(l, !level, s);
    assert (s + [back])[..|s|] == s;
  }

  // A level that holds for the debounce time, and then but for glitches.
  ghost predicate Holds(s: seq<Edge>, level: bool) {
    s != [] && s[0].level == level && exists n: nat | n <= |s| :: HeldFor(s, n, level)
  }

  ghost predicate HeldFor(s: seq<Edge>, n: nat, level: bool)
    requires n <= |s|
  {
    Steady(s[..n], level) && Glitchy(s[n..], level) && EndsAt(s[n..], level)
  }

  // A level that holds is confirmed, dated by its first sample, and kept.
  lemma HoldsThrough(l: Line, level: bool, s: seq<Edge>)
    requires Settled(l, !level) && Holds(s, level)
    ensures var m := Through(l, s);
            Settled(m, level) && m == Confirmed(l.(cand := level, since := s[0].at)).(since := m.since)
  {
    hide OnStart, OnEnd;
    var n: nat :| n <= |s| && HeldFor(s, n, level);
    Stretch(l, level, s[..n]);
    Immune(Through(l, s[..n]), level, s[n..]);
    ThroughBoth(l, s[..n], s[n..]);
    assert s[..n] + s[n..] == s && s[..n][0] == s[0];
  }

  lemma SteadyHolds(s: seq<Edge>, level: bool)
    requires Steady(s, level)
    ensures Holds(s, level)
  {
    assert s[..|s|] == s && s[|s|..] == [];
    assert HeldFor(s, |s|, level);
  }

  // ------------------------------------------------------------------ pulses

  // A pulse and the pause after it, as sampled.
  datatype Burst = Burst(on: seq<Edge>, off: seq<Edge>, value: bool)

  ghost predicate Clean(b: Burst) {
    Holds(b.on, true) && Holds(b.off, false) && b.on[0].at <= b.off[0].at
  }

  function PulseOf(b: Burst): Pulse
    requires b.on != [] && b.off != []
  {
    Pulse(b.on[0].at, b.off[0].at, b.value)
  }

  lemma BurstIsPulse(l: Line, b: Burst)
    requires Settled(l, false) && Clean(b)
    ensures var m := Through(l, b.on + b.off);
            Settled(m, false) && m.rx == AfterPulse(l.rx, PulseOf(b))
  {
    hide OnStart, OnEnd, Holds;
    ThroughBoth(l, b.on, b.off);
    HoldsThrough(l, true, b.on);
    HoldsThrough(Through(l, b.on), false, b.off);
  }

  ghost predicate AllClean(bs: seq<Burst>) {
    forall i | 0 <= i < |bs| :: Clean(bs[i])
  }

  function Samples(bs: seq<Burst>): seq<Edge> {
    if bs == [] then [] else Samples(bs[..|bs| - 1]) + (bs[|bs| - 1].on + bs[|bs| - 1].off)
  }

  function Pulses(bs: seq<Burst>): (run: seq<Pulse>)
    requires forall i | 0 <= i < |bs| :: bs[i].on != [] && bs[i].off != []
    ensures |run| == |bs| && forall i | 0 <= i < |bs| :: run[i] == PulseOf(bs[i])
  {
    seq(|bs|, i requires 0 <= i < |bs| => PulseOf(bs[i]))
  }

  lemma {:induction false} BurstsArePulses(l: Line, bs: seq<Burst>)
    requires Settled(l, false) && AllClean(bs)
    ensures var m := Through(l, Samples(bs));
            Settled(m, false) && m.rx == AfterPulses(l.rx, Pulses(bs))
  {
    hide Clean, AfterPulse, Settled;
    if bs == [] {
    } else {
      var n := |bs| - 1;
      assert Clean(bs[n]);
      BurstsArePulses(l, bs[..n]);
      Filled(bs);
      assert Pulses(bs)[..n] == Pulses(bs[..n]);
      ThroughBoth(l, Samples(bs[..n]), bs[n].on + bs[n].off);
      BurstIsPulse(Through(l, Samples(bs[..n])), bs[n]);
    }
  }

  lemma Filled(bs: seq<Burst>)
    requires AllClean(bs)
    ensures forall i | 0 <= i < |bs| :: bs[i].on != [] && bs[i].off != []
  {
  }

  // ----------------------------------------------------------------- minutes

  // One minute's 59 pulses, as sent for time t of a zone.
  ghost predicate Minute(bs: seq<Burst>, t: Time, zone: int) {
    && |bs| == FRAME_BITS && AllClean(bs)
    && (forall i | 0 <= i < |bs| :: bs[i].on != [] && bs[i].off != [])
    && Seconds(Pulses(bs))
    && Sendable(t) && 2000 <= t.year <= 2099 && t.sec == t.ms == 0
    && Zone(zone) && Announces(Values(Pulses(bs)), t, zone)
  }

  ghost predicate MarkGap(gap: int) { MARK_MIN_MS <= gap <= MARK_MAX_MS }

  lemma {:induction false} SecondsSpan(run: seq<Pulse>, n: nat)
    requires Seconds(run) && n < |run|
    ensures SEC_MIN_MS * n <= run[n].start - run[0].start <= SEC_MAX_MS * n
  {
    if n > 0 {
      SecondsSpan(run, n - 1);
      assert OneSecondOn(run[n].start - run[n - 1].start);
    }
  }

  lemma CleanEnds(bs: seq<Burst>, t: Time, zone: int)
    requires Minute(bs, t, zone)
    ensures |bs| == FRAME_BITS && forall i | 0 <= i < |bs| :: bs[i].on != [] && bs[i].off != []
    ensures var run := Pulses(bs); |run| == FRAME_BITS && Seconds(run) && forall i | 0 <= i < |run| :: run[i].start <= run[i].end
  {
    hide Seconds, Announces;
    forall i | 0 <= i < |bs|
      ensures Pulses(bs)[i].start <= Pulses(bs)[i].end
    {
      assert Clean(bs[i]);
    }
  }

  // A clean minute, closed by a mark, is one frame more; it says t less its zone's
  // offset.
  lemma OneMinute(a: Reception, bs: seq<Burst>, t: Time, zone: int, mark: nat)
    requires Minute(bs, t, zone) && a.havePrev
    requires MarkGap(bs[0].on[0].at - a.prevStart) && MarkGap(mark - bs[FRAME_BITS - 1].on[0].at)
    ensures var run := Pulses(bs); var f := Frame(mark, Values(run), run);
            var before, after := OnStart(a, bs[0].on[0].at), AfterPulses(a, run);
            && Validated(f) && Epoch(Utc(f)) == Epoch(t) - 60 * zone && ValidTime(Utc(f))
            && after.havePrev && after.prevStart == bs[FRAME_BITS - 1].on[0].at
            && OnStart(after, mark).frames == before.frames + [f]
            && OnStart(after, mark).ready == if before.frames != [] && Agree(before.frames[|before.frames| - 1], f)
                                                then TimeAt(Utc(f), mark) else before.ready
  {
    hide Decode, Agree, AfterPulse, AfterPulses, OnStart, Values, Minute, Epoch, ValidTime, Seconds, Complete;
    CleanEnds(bs, t, zone);
    MinuteSays(bs, t, zone);
    var run := Pulses(bs);
    SameFrames(a, run[0]);
    WholeMinute(a, run, mark);
    AlignedPulses(a, run);
  }

  lemma MinuteSays(bs: seq<Burst>, t: Time, zone: int)
    requires Minute(bs, t, zone)
    ensures (forall i | 0 <= i < |bs| :: bs[i].on != [] && bs[i].off != [])
    ensures var d := Decode(Values(Pulses(bs))); d.Ok? && Epoch(d.utc) == Epoch(t) - 60 * zone && ValidTime(d.utc)
  {
    hide Decode, Announces, Values, Epoch, ValidTime, Seconds, AllClean;
    Decodes(Values(Pulses(bs)), t, zone);
  }

  lemma Decodes(b: seq<bool>, t: Time, zone: int)
    requires |b| == FRAME_BITS && Sendable(t) && 2000 <= t.year <= 2099 && t.sec == t.ms == 0
    requires Zone(zone) && Announces(b, t, zone)
    ensures Decode(b).Ok? && Epoch(Decode(b).utc) == Epoch(t) - 60 * zone && ValidTime(Decode(b).utc)
  {
    hide Decode, Announces, Epoch, ValidTime;
    DecodeAnnounced(b, t, zone);
    DecodedTime(b);
    assert t.(sec := 0, ms := 0) == t;
  }

  lemma SameFrames(a: Reception, p: Pulse)
    ensures AfterPulse(a, p).frames == OnStart(a, p.start).frames && AfterPulse(a, p).ready == OnStart(a, p.start).ready
  {
    hide OnStart;
  }

  // Two clean minutes in a row give the second one's time, also when the clocks go
  // forward or back between them: then the local times are 61 minutes apart, or 59 the
  // other way.
  lemma TwoMinutes(a: Reception, first: seq<Burst>, second: seq<Burst>, t: Time, tz: int, u: Time, uz: int, mark: nat)
    requires Minute(first, t, tz) && Minute(second, u, uz) && Epoch(u) - 60 * uz == Epoch(t) - 60 * tz + 60
    requires a.havePrev && MarkGap(first[0].on[0].at - a.prevStart)
    requires MarkGap(second[0].on[0].at - first[FRAME_BITS - 1].on[0].at) && MarkGap(mark - second[FRAME_BITS - 1].on[0].at)
    ensures var r := OnStart(AfterPulses(AfterPulses(a, Pulses(first)), Pulses(second)), mark).ready;
            r.TimeAt? && r.mark == mark && Epoch(r.utc) == Epoch(u) - 60 * uz && ValidTime(r.utc)
  {
    hide Minute, OnStart, AfterPulses, Epoch, ValidTime, Utc, Validated, MinutesBetween, Values, Agree, Seconds;
    CleanEnds(first, t, tz);
    CleanEnds(second, u, uz);
    var m := AfterPulses(a, Pulses(first));
    var start := second[0].on[0].at;
    OneMinute(a, first, t, tz, start);
    OneMinute(m, second, u, uz, mark);
    SecondsSpan(Pulses(second), FRAME_BITS - 1);
    OneMinuteOn(mark - start);
    var f, g := Frame(start, Values(Pulses(first)), Pulses(first)), Frame(mark, Values(Pulses(second)), Pulses(second));
    AgreeMeans(f, g);
    assert Epoch(Utc(g)) == Epoch(Utc(f)) + 60 * 1;
    assert Agree(f, g);
  }

  lemma OneMinuteOn(elapsed: nat)
    requires 30000 <= elapsed < 90000
    ensures MinutesBetween(elapsed, 1)
  {
    QuotientIs(elapsed, 60000 * U32, 0, elapsed);
  }

  // ------------------------------------------------------------ the receiver

  method Receive(d: Decoder, s: seq<Edge>)
    requires d.Valid() && InOrder(s) && (s != [] ==> d.now <= s[0].at)
    modifies d, d.bits
    ensures d.Valid() && d.Receiver() == Through(old(d.Receiver()), s)
    ensures d.now == if s == [] then old(d.now) else s[|s| - 1].at
  {
    hide Decoder.Valid, OnSample;
    for i := 0 to |s|
      invariant d.Valid() && d.Receiver() == Through(old(d.Receiver()), s[..i])
      invariant d.now == if i == 0 then old(d.now) else s[i - 1].at
    {
      d.Feed(if s[i].level then d.pulseIsHigh else !d.pulseIsHigh, s[i].at);
      assert s[..i + 1][..i] == s[..i];
    }
    assert s[..|s|] == s;
  }

  // A settled receiver that has seen a pulse is given two whole minutes of clean
  // signal and the pulse after them: it has the time.
  method ReceiveTime(d: Decoder, first: seq<Burst>, second: seq<Burst>, last: seq<Edge>,
                     ghost t: Time, ghost tz: int, ghost u: Time, ghost uz: int)
      returns (r: Taken)
    requires d.Valid() && Settled(d.Receiver(), false) && d.havePrev
    requires Minute(first, t, tz) && Minute(second, u, uz) && Epoch(u) - 60 * uz == Epoch(t) - 60 * tz + 60 && Holds(last, true)
    requires MarkGap(first[0].on[0].at - d.prevStart) && MarkGap(second[0].on[0].at - first[FRAME_BITS - 1].on[0].at)
    requires MarkGap(last[0].at - second[FRAME_BITS - 1].on[0].at)
    requires var s := Samples(first) + Samples(second) + last; InOrder(s) && d.now <= s[0].at
    modifies d, d.bits
    ensures d.Valid() && r.TimeAt? && r.mark == last[0].at && Epoch(r.utc) == Epoch(u) - 60 * uz && ValidTime(r.utc)
  {
    ghost var l := d.Receiver();
    Heard(l, first, second, last, t, tz, u, uz);
    Receive(d, Samples(first) + Samples(second) + last);
    hide Decoder.Valid, Minute, Settled, Through, Epoch, ValidTime, Samples, InOrder, Agree;
    assert d.Receiver().rx.ready == d.Pending();
    r := d.TakeTime();
  }

  lemma Heard(l: Line, first: seq<Burst>, second: seq<Burst>, last: seq<Edge>, t: Time, tz: int, u: Time, uz: int)
    requires Settled(l, false) && l.rx.havePrev
    requires Minute(first, t, tz) && Minute(second, u, uz) && Epoch(u) - 60 * uz == Epoch(t) - 60 * tz + 60 && Holds(last, true)
    requires MarkGap(first[0].on[0].at - l.rx.prevStart) && MarkGap(second[0].on[0].at - first[FRAME_BITS - 1].on[0].at)
    requires MarkGap(last[0].at - second[FRAME_BITS - 1].on[0].at)
    ensures var r := Through(l, Samples(first) + Samples(second) + last).rx.ready;
            r.TimeAt? && r.mark == last[0].at && Epoch(r.utc) == Epoch(u) - 60 * uz && ValidTime(r.utc)
  {
    TwoMinutes(l.rx, first, second, t, tz, u, uz, last[0].at);
    var s, s2 := Samples(first), Samples(second);
    var m := Through(l, s);
    hide OnStart, OnEnd, Epoch, ValidTime, Announces, Seconds, Through, Samples, AfterPulses, Clean;
    BurstsArePulses(l, first);
    BurstsArePulses(m, second);
    ThroughBoth(l, s, s2);
    ThroughBoth(l, s + s2, last);
    HoldsThrough(Through(m, s2), true, last);
  }

  // ------------------------------------------------------------ a broadcast

  // One bit as it is sent: 100 ms of carrier reduction for a 0, 200 ms for a 1,
  // sampled four times.
  function Second(start: nat, value: bool): Burst {
    var end := start + if value then 200 else 100;
    Burst([Edge(start, true), Edge(start + 50, true)], [Edge(end, false), Edge(end + 50, false)], value)
  }

  function Sent(bits: seq<bool>, start: nat): seq<Burst> {
    seq(|bits|, i requires 0 <= i < |bits| => Second(start + 1000 * i, bits[i]))
  }

  lemma SentBurst(start: nat, value: bool)
    ensures Clean(Second(start, value)) && PulseOf(Second(start, value)) == SecondOf(start, value)
  {
    SteadyHolds(Second(start, value).on, true);
    SteadyHolds(Second(start, value).off, false);
  }

  function SecondOf(start: nat, value: bool): Pulse {
    Pulse(start, start + if value then 200 else 100, value)
  }

  // Bursts that carry bits, one a second, however they were sampled.
  ghost predicate Carries(bs: seq<Burst>, bits: seq<bool>, start: nat) {
    && |bs| == |bits| && AllClean(bs)
    && forall i | 0 <= i < |bs| :: bs[i].on != [] && bs[i].off != [] && PulseOf(bs[i]) == SecondOf(start + 1000 * i, bits[i])
  }

  lemma SentCarries(bits: seq<bool>, start: nat)
    ensures Carries(Sent(bits, start), bits, start)
  {
    hide Clean, PulseOf;
    var bs := Sent(bits, start);
    forall i | 0 <= i < |bs|
      ensures Clean(bs[i]) && bs[i].on != [] && bs[i].off != [] && PulseOf(bs[i]) == SecondOf(start + 1000 * i, bits[i])
    {
      SentBurst(start + 1000 * i, bits[i]);
    }
  }

  // A frame that announces t, sent second by second, is a minute of it.
  lemma SentMinute(bs: seq<Burst>, bits: seq<bool>, start: nat, t: Time, zone: int)
    requires Carries(bs, bits, start)
    requires |bits| == FRAME_BITS && Zone(zone) && Announces(bits, t, zone)
    requires Sendable(t) && 2000 <= t.year <= 2099 && t.sec == t.ms == 0
    ensures Minute(bs, t, zone)
  {
    hide Announces, Sendable, AllClean, PulseOf;
    assert Values(Pulses(bs)) == bits;
  }

  lemma InOrderBoth(s: seq<Edge>, t: seq<Edge>, at: nat)
    requires InOrder(s) && InOrder(t)
    requires (forall i | 0 <= i < |s| :: s[i].at <= at) && (forall i | 0 <= i < |t| :: at <= t[i].at)
    ensures InOrder(s + t)
  {
  }

  lemma {:induction false} SentInOrder(bits: seq<bool>, start: nat)
    ensures var s := Samples(Sent(bits, start));
            && InOrder(s) && (forall i | 0 <= i < |s| :: start <= s[i].at <= start + 1000 * |bits|)
            && (bits != [] ==> s != [] && s[0].at == start)
  {
    if bits != [] {
      var n := |bits| - 1;
      var at := start + 1000 * n;
      SentInOrder(bits[..n], start);
      assert Sent(bits, start)[..n] == Sent(bits[..n], start);
      var b := Second(at, bits[n]);
      assert Sent(bits, start)[n] == b;
      assert Samples(Sent(bits, start)) == Samples(Sent(bits[..n], start)) + (b.on + b.off);
      InOrderBoth(Samples(Sent(bits[..n], start)), b.on + b.off, at);
      if n == 0 { assert Samples(Sent(bits[..n], start)) == []; }
    }
  }

  // From the encoder through the air to the decoder: frames built for t and for the
  // minute after it, sent from a minute mark on, are received as the later time, less
  // the two hours of summer time.
  method Broadcast(d: Decoder, t: Time, u: Time, start: nat) returns (r: Taken)
    requires d.Valid() && Settled(d.Receiver(), false) && d.havePrev && d.now <= start && start == d.prevStart + 2000
    requires Sendable(t) && 2000 <= t.year <= 2099 && t.sec == t.ms == 0
    requires Sendable(u) && 2000 <= u.year <= 2099 && u.sec == u.ms == 0 && Epoch(u) == Epoch(t) + 60
    modifies d, d.bits
    ensures d.Valid() && r.TimeAt? && r.mark == start + 120000 && Epoch(r.utc) == Epoch(u) - 7200 && ValidTime(r.utc)
  {
    hide Announces, Epoch, ValidTime, Decoder.Valid, Settled, Minute, Sendable, Samples, Sent, Carries, Holds;
    var a := new bool[FRAME_BITS];
    BuildFrame(a, t);
    var b := new bool[FRAME_BITS];
    BuildFrame(b, u);
    var first, second := Sent(a[..], start), Sent(b[..], start + 60000);
    var last := [Edge(start + 120000, true), Edge(start + 120050, true)];
    SentCarries(a[..], start);
    SentCarries(b[..], start + 60000);
    SentMinute(first, a[..], start, t, 120);
    SentMinute(second, b[..], start + 60000, u, 120);
    SteadyHolds(last, true);
    SentStarts(a[..], start);
    SentStarts(b[..], start + 60000);
    SentInOrder(a[..], start);
    SentInOrder(b[..], start + 60000);
    InOrderBoth(Samples(first), Samples(second), start + 60000);
    InOrderBoth(Samples(first) + Samples(second), last, start + 120000);
    r := ReceiveTime(d, first, second, last, t, 120, u, 120);
  }

  lemma SentStarts(bits: seq<bool>, start: nat)
    ensures |Sent(bits, start)| == |bits|
    ensures forall i | 0 <= i < |bits| ::
              var b := Sent(bits, start)[i]; b.on != [] && b.off != [] && b.on[0].at == start + 1000 * i
  {
  }
}
