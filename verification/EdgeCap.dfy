// Timestamped edges of one pin (drivers/edgecap.c): the handler's rate check and
// storm cut-off, the ring it pushes into, and the consumer that pops it and brings
// a stormed pin back. Times are microseconds below 2^64 and never go back. The
// handler interrupts the consumer anywhere: each method that takes lists of edges
// lets it run, for those edges, where the comments say.
module EdgeCap {
  import opened Arith
  import opened Common

  const STORM_PER_SEC: nat := 2000
  const REARM_MS_MIN: nat := 2000
  const REARM_MS_MAX: nat := 60000
  const CALM_US: nat := 300 * 1000000
  const SECOND: nat := 1000000
  const U64: nat := 0x1_0000_0000_0000_0000

  datatype Edge = Edge(t: nat, level: bool)

  // The edges that come in while edgecap_pop() runs: after it reads the clock, after
  // it tests `stormed`, after it tests the time, and before and after it looks into
  // the ring.
  datatype Gaps = Gaps(read: seq<Edge>, tested: seq<Edge>, timed: seq<Edge>, checked: seq<Edge>, looked: seq<Edge>)
  {
    ghost function All(): seq<Edge> { read + (tested + timed) + (checked + looked) }
  }

  // A time the pin was shut off: when, for how many ms, and how many edges had been
  // accepted by then.
  datatype Trip = Trip(t: nat, backoff: nat, edges: nat)

  function Doubled(ms: nat): nat {
    if ms * 2 > REARM_MS_MAX then REARM_MS_MAX else ms * 2
  }

  ghost predicate Backoff(ms: nat) { ms in {2000, 4000, 8000, 16000, 32000, 60000} }

  // The 64-bit time from `at` to `now`.
  function Since(now: nat, at: nat): nat { (now - at) % U64 }

  lemma BackoffIs(ms: nat)
    requires Backoff(ms)
    ensures REARM_MS_MIN <= ms <= REARM_MS_MAX && Backoff(Doubled(ms))
  {
  }

  lemma SinceIs(now: nat, at: nat)
    requires now < U64 && at < U64
    ensures Since(now, at) == if at <= now then now - at else U64 - (at - now)
  {
  }

  // A wait for `wait` microseconds that is tested on the wrapped difference ends too
  // soon if and only if what it waits from lies after the clock's reading (by so
  // little that the difference wraps to no less than the wait).
  lemma DueExact(now: nat, at: nat, wait: nat)
    requires now < U64 && at < U64
    ensures (Since(now, at) >= wait ==> at + wait <= now) <==> at <= now || U64 - (at - now) < wait
  {
    SinceIs(now, at);
  }

  // The count of a window's edges that an edge at `now` makes, and whether it is a
  // 64th within the time 64 edges take at 2001 a second: 31984 microseconds.
  function NextCount(winStart: nat, winCount: nat, now: nat): nat {
    if now - winStart >= SECOND then 1 else winCount + 1
  }

  predicate TooFast(count: nat, span: nat) {
    count % 64 == 0 && (STORM_PER_SEC + 1) * span <= 64 * SECOND
  }

  // The rate, truncated to whole edges a second, is over the limit just then: from
  // 2000 up to 2001 a second it is not.
  lemma RateExceeds(span: nat)
    ensures (span == 0 || 64 * SECOND / span > STORM_PER_SEC) <==> (STORM_PER_SEC + 1) * span <= 64 * SECOND
    ensures (STORM_PER_SEC + 1) * span <= 64 * SECOND <==> span <= 31984
  {
    if span != 0 {
      var q := 64 * SECOND / span;
      Quotient(64 * SECOND, span);
      if q > STORM_PER_SEC {
        Times(span, STORM_PER_SEC + 1, q);
      } else {
        Times(span, q + 1, STORM_PER_SEC + 1);
        Plus(span, q, 1);
      }
    }
  }

  // ------------------------------------------------------- what a run must look like

  ghost predicate Sorted(s: seq<nat>) {
    forall i, j | 0 <= i < j < |s| :: s[i] <= s[j]
  }

  // Of any 4001 edges accepted one after the other the last is a second or more
  // after the first.
  ghost predicate Spread(s: seq<nat>) {
    forall i, j | 0 <= i < |s| && j == i + 2 * STORM_PER_SEC && j < |s| :: s[i] + SECOND <= s[j]
  }

  // So 4001 edges or more never fit in less than a second.
  lemma SecondHolds(s: seq<nat>, i: nat, j: nat)
    requires Sorted(s) && Spread(s) && i + 2 * STORM_PER_SEC <= j < |s|
    ensures s[i] + SECOND <= s[j]
  {
    var k := i + 2 * STORM_PER_SEC;
    assert s[i] + SECOND <= s[k];
  }

  // No edge is accepted between a trip and the end of its back-off.
  ghost predicate Quiet(s: seq<nat>, trips: seq<Trip>) {
    forall k, j | 0 <= k < |trips| && trips[k].edges <= j < |s| :: trips[k].t + 1000 * trips[k].backoff <= s[j]
  }

  // The back-offs: `first` ms, or 2 s, at first, then doubled up to a minute, or 2 s
  // again if the last trip was more than 300 s ago.
  ghost predicate Backoffs(trips: seq<Trip>, first: nat) {
    && (|trips| > 0 ==> trips[0].backoff in {first, REARM_MS_MIN})
    && (forall k, n | 0 <= k < |trips| && n == k + 1 && n < |trips| :: Follows(trips[k], trips[n]))
  }

  ghost predicate Follows(a: Trip, b: Trip) {
    && a.t + 1000 * a.backoff <= b.t
    && (b.backoff == Doubled(a.backoff) || (b.backoff == REARM_MS_MIN && a.t + CALM_US < b.t))
  }

  lemma {:induction false} BackoffRange(trips: seq<Trip>, first: nat, k: nat)
    requires Backoffs(trips, first) && Backoff(first) && k < |trips|
    ensures Backoff(trips[k].backoff)
  {
    if k > 0 {
      BackoffRange(trips, first, k - 1);
      assert Follows(trips[k - 1], trips[k]);
    }
  }

  // A back-off that k trips in a row have doubled, but for the limit.
  function Grown(ms: nat, k: nat): nat {
    if k == 0 then ms else 2 * Grown(ms, k - 1)
  }

  // Trips that follow each other within 300 s double it each time, up to a minute.
  lemma {:induction false} BackoffGrows(trips: seq<Trip>, first: nat, k: nat)
    requires Backoffs(trips, first) && Backoff(first) && k < |trips|
    requires forall i, j | 0 <= i < k && j == i + 1 :: trips[j].t <= trips[i].t + CALM_US
    ensures var g := Grown(trips[0].backoff, k); trips[k].backoff == if g > 60000 then 60000 else g
  {
    BackoffRange(trips, first, k);
    if k > 0 {
      BackoffRange(trips, first, k - 1);
      BackoffGrows(trips, first, k - 1);
      assert Follows(trips[k - 1], trips[k]);
    }
  }

  ghost predicate AllBy(s: seq<nat>, t: nat) {
    forall k | 0 <= k < |s| :: s[k] <= t
  }

  // This window's edges, those of the one before, and the rest, a second or more
  // before this window.
  ghost predicate Windows(s: seq<nat>, prevFrom: nat, winFrom: nat, winStart: nat, winCount: nat, clock: nat) {
    && winStart <= clock && AllBy(s, clock)
    && prevFrom <= winFrom <= |s| && winFrom - prevFrom <= STORM_PER_SEC
    && |s| - winFrom <= winCount && |s| - winFrom <= STORM_PER_SEC
    && (forall k | 0 <= k < winFrom :: s[k] <= winStart)
    && (forall k | 0 <= k < prevFrom :: s[k] + SECOND <= winStart)
  }

  // A new window, when all before the last one is a second old.
  lemma Rolled(s: seq<nat>, prevFrom: nat, winFrom: nat, winStart: nat, winCount: nat, clock: nat, now: nat)
    requires Windows(s, prevFrom, winFrom, winStart, winCount, clock) && clock <= now
    ensures Windows(s, prevFrom, winFrom, winStart, winCount, now)
    ensures winStart + SECOND <= now ==> Windows(s, winFrom, |s|, now, 0, now)
  {
  }

  lemma Rearmed(s: seq<nat>, prevFrom: nat, winFrom: nat, winStart: nat, winCount: nat, clock: nat, stormAt: nat, now: nat)
    requires Windows(s, prevFrom, winFrom, winStart, winCount, clock)
    requires AllBy(s, stormAt) && stormAt + SECOND <= now <= clock
    ensures Windows(s, winFrom, |s|, now, 0, clock)
  {
  }

  lemma CountedOne(s: seq<nat>, prevFrom: nat, winFrom: nat, winStart: nat, winCount: nat, now: nat)
    requires Windows(s, prevFrom, winFrom, winStart, winCount, now)
    ensures Windows(s, prevFrom, winFrom, winStart, winCount + 1, now) && |s| - winFrom < winCount + 1
    ensures AllBy(s, now)
  {
  }

  // One more edge accepted: the edge 4000 before it is from two windows ago.
  lemma AcceptedOne(s: seq<nat>, prevFrom: nat, winFrom: nat, winStart: nat, winCount: nat, now: nat)
    requires Windows(s, prevFrom, winFrom, winStart, winCount, now) && |s| - winFrom < winCount <= STORM_PER_SEC
    requires Sorted(s) && Spread(s)
    ensures Windows(s + [now], prevFrom, winFrom, winStart, winCount, now)
    ensures Sorted(s + [now]) && Spread(s + [now])
  {
  }

  // The trips so far, and the state they leave the pin in.
  ghost predicate History(trips: seq<Trip>, first: nat, edges: nat, stormed: bool, stormAt: nat, rearmMs: nat, clock: nat) {
    && Backoffs(trips, first) && Backoff(first) && Backoff(rearmMs) && stormAt <= clock
    && (trips == [] ==> rearmMs in {first, REARM_MS_MIN} && !stormed)
    && (forall k | 0 <= k < |trips| :: trips[k].edges <= edges)
    && (forall k | 0 <= k < |trips| && (k < |trips| - 1 || !stormed) :: trips[k].t + 1000 * trips[k].backoff <= clock)
    && (trips != [] ==>
          var last := trips[|trips| - 1];
          && last.t == stormAt
          && if stormed then rearmMs == last.backoff && last.edges == edges
             else rearmMs == Doubled(last.backoff) || (rearmMs == REARM_MS_MIN && last.t + CALM_US < clock))
  }

  lemma Tripped(trips: seq<Trip>, first: nat, edges: nat, stormAt: nat, rearmMs: nat, clock: nat)
    requires History(trips, first, edges, false, stormAt, rearmMs, clock)
    ensures History(trips + [Trip(clock, rearmMs, edges)], first, edges, true, clock, rearmMs, clock)
  {
    var trip := Trip(clock, rearmMs, edges);
    if trips != [] {
      assert Follows(trips[|trips| - 1], trip);
    }
  }

  // The pin may be on again only when the last back-off is over.
  lemma BackOn(trips: seq<Trip>, first: nat, edges: nat, stormAt: nat, rearmMs: nat, clock: nat)
    requires History(trips, first, edges, true, stormAt, rearmMs, clock) && stormAt + 1000 * rearmMs <= clock
    ensures History(trips, first, edges, false, stormAt, Doubled(rearmMs), clock)
  {
  }

  lemma Later(trips: seq<Trip>, first: nat, edges: nat, more: nat, stormAt: nat, rearmMs: nat, clock: nat, now: nat)
    requires History(trips, first, edges, false, stormAt, rearmMs, clock) && clock <= now && edges <= more
    ensures History(trips, first, more, false, stormAt, rearmMs, now)
    ensures stormAt + CALM_US < now ==> History(trips, first, more, false, stormAt, REARM_MS_MIN, now)
  {
  }

  lemma LaterOff(trips: seq<Trip>, first: nat, edges: nat, stormAt: nat, rearmMs: nat, clock: nat, now: nat)
    requires History(trips, first, edges, true, stormAt, rearmMs, clock) && clock <= now
    ensures History(trips, first, edges, true, stormAt, rearmMs, now)
  {
  }

  // The last trip's back-off made the least one.
  function Shortened(trips: seq<Trip>): seq<Trip>
    requires trips != []
  {
    trips[..|trips| - 1] + [trips[|trips| - 1].(backoff := REARM_MS_MIN)]
  }

  lemma ShortenedSays(trips: seq<Trip>)
    requires trips != []
    ensures |Shortened(trips)| == |trips| && Shortened(trips)[..|trips| - 1] == trips[..|trips| - 1]
  {
  }

  ghost predicate CalmBefore(trips: seq<Trip>, t: nat) {
    |trips| < 2 || trips[|trips| - 2].t + CALM_US < t
  }

  lemma CalmIs(trips: seq<Trip>, trip: Trip, stormAt: nat)
    requires trips != [] ==> trips[|trips| - 1].t == stormAt
    requires stormAt + CALM_US < trip.t
    ensures CalmBefore(trips + [trip], trip.t)
  {
  }

  // After a calm time the rule holds.
  lemma Forgiven(trips: seq<Trip>, first: nat, edges: nat, stormAt: nat, rearmMs: nat, clock: nat)
    requires History(trips, first, edges, true, stormAt, rearmMs, clock) && CalmBefore(trips, stormAt)
    ensures History(Shortened(trips), first, edges, true, stormAt, REARM_MS_MIN, clock)
  {
    var n := |trips|;
    if n >= 2 {
      assert Follows(trips[n - 2], trips[n - 1]);
      assert Follows(trips[n - 2], Shortened(trips)[n - 1]);
    }
  }

  lemma Within(trips: seq<Trip>, first: nat, edges: nat, stormed: bool, stormAt: nat, rearmMs: nat, clock: nat)
    requires History(trips, first, edges, stormed, stormAt, rearmMs, clock)
    ensures Backoff(rearmMs) && stormAt <= clock
    ensures trips != [] ==> trips[|trips| - 1].t == stormAt
    ensures stormed ==> trips != [] && trips[|trips| - 1] == Trip(stormAt, rearmMs, edges)
  {
  }

  // A history begun anew by a race: with the pin on, or off with its last trip's
  // back-off shortened.
  lemma Anew(stormAt: nat, rearmMs: nat, clock: nat, now: nat)
    requires Backoff(rearmMs) && stormAt <= clock && now <= clock
    ensures History([], rearmMs, 0, false, stormAt, rearmMs, clock) && Windows([], 0, 0, now, 0, clock)
    ensures Sorted([]) && Spread([]) && Quiet([], [])
  {
  }

  lemma AnewOff(trips: seq<Trip>, first: nat, edges: nat, stormAt: nat, rearmMs: nat, clock: nat)
    requires History(trips, first, edges, true, stormAt, rearmMs, clock)
    ensures History([Shortened(trips)[|trips| - 1]], first, edges, true, stormAt, REARM_MS_MIN, clock)
  {
  }

  // An accepted edge comes after every back-off there was.
  lemma QuietNext(s: seq<nat>, trips: seq<Trip>, first: nat, stormAt: nat, rearmMs: nat, now: nat)
    requires Quiet(s, trips) && History(trips, first, |s|, false, stormAt, rearmMs, now)
    ensures Quiet(s + [now], trips)
  {
  }

  lemma QuietTrip(s: seq<nat>, trips: seq<Trip>, trip: Trip)
    requires Quiet(s, trips) && trip.edges == |s|
    ensures Quiet(s, trips + [trip])
  {
  }

  lemma QuietShortened(s: seq<nat>, trips: seq<Trip>, first: nat, stormAt: nat, rearmMs: nat, clock: nat)
    requires Quiet(s, trips) && History(trips, first, |s|, true, stormAt, rearmMs, clock)
    ensures Quiet(s, Shortened(trips)) && Quiet(s, [Shortened(trips)[|trips| - 1]])
  {
  }

  // -------------------------------------------------------------- ring positions

  function Wrap(i: nat, cap: nat): (r: nat)
    requires i < 2 * cap
    ensures r < cap && r == i % cap
  {
    if i < cap then i else WrapMod(i, cap); i - cap
  }

  lemma WrapMod(i: nat, cap: nat)
    requires cap <= i < 2 * cap
    ensures i % cap == i - cap
  {
  }

  // A queue of room for n edges after some were offered.
  function Offered(q: seq<Edge>, n: nat, edges: seq<Edge>): seq<Edge> {
    if edges == [] then q
    else
      var r := Offered(q, n, edges[..|edges| - 1]);
      if |r| == n then r else r + [edges[|edges| - 1]]
  }

  lemma OfferedNone(q: seq<Edge>, n: nat)
    ensures Offered(q, n, []) == q
  {
  }

  lemma OfferedOne(q: seq<Edge>, n: nat, edges: seq<Edge>, e: Edge)
    ensures Offered(q, n, edges + [e]) == Offered(q, n, edges) + if |Offered(q, n, edges)| == n then [] else [e]
  {
    assert (edges + [e])[..|edges|] == edges;
  }

  lemma {:induction false} OfferedOn(q: seq<Edge>, n: nat, a: seq<Edge>, b: seq<Edge>)
    ensures Offered(Offered(q, n, a), n, b) == Offered(q, n, a + b)
  {
    if b == [] {
      assert a + b == a;
    } else {
      OfferedOn(q, n, a, b[..|b| - 1]);
      assert (a + b)[..|a + b| - 1] == a + b[..|b| - 1];
    }
  }

  // Edges in the order of their times, none before `from`.
  ghost predicate Ordered(from: nat, edges: seq<Edge>) {
    && (forall i | 0 <= i < |edges| :: from <= edges[i].t < U64)
    && (forall i, j | 0 <= i < j < |edges| :: edges[i].t <= edges[j].t)
  }

  ghost function LastTime(from: nat, edges: seq<Edge>): nat {
    if edges == [] then from else edges[|edges| - 1].t
  }

  lemma OrderedAt(from: nat, edges: seq<Edge>, i: nat)
    requires Ordered(from, edges) && i < |edges|
    ensures LastTime(from, edges[..i]) <= edges[i].t < U64 && LastTime(from, edges[..i + 1]) == edges[i].t
    ensures from <= edges[i].t
  {
  }

  lemma OrderedSplit(from: nat, a: seq<Edge>, b: seq<Edge>)
    requires Ordered(from, a + b)
    ensures Ordered(from, a) && Ordered(LastTime(from, a), b) && from <= LastTime(from, a)
    ensures LastTime(from, a + b) == LastTime(LastTime(from, a), b)
  {
    assert forall i | 0 <= i < |a| :: (a + b)[i] == a[i];
    assert forall i | 0 <= i < |b| :: (a + b)[|a| + i] == b[i];
  }

  ghost function Stamps(edges: seq<Edge>): seq<nat> { seq(|edges|, i requires 0 <= i < |edges| => edges[i].t) }

  lemma StampsOne(edges: seq<Edge>)
    ensures if edges == [] then Stamps(edges) == [] else Stamps(edges) == Stamps(edges[..|edges| - 1]) + [edges[|edges| - 1].t]
  {
  }

  lemma StampsOn(a: seq<Edge>, b: seq<Edge>)
    ensures Stamps(a + b) == Stamps(a) + Stamps(b)
  {
  }

  lemma {:induction false} OfferedKeeps(q: seq<Edge>, n: nat, edges: seq<Edge>)
    ensures q <= Offered(q, n, edges)
  {
    if edges != [] { OfferedKeeps(q, n, edges[..|edges| - 1]); }
  }

  // A 32-bit counter of n events.
  ghost predicate Counts(c: nat, n: nat) { c == n % U32 }

  lemma CountsOne(c: nat, n: nat)
    requires Counts(c, n)
    ensures Counts((c + 1) % U32, n + 1)
  {
  }

  class EdgeCap {
    const buf: array<Edge>
    var head: nat
    var tail: nat
    var dropped: nat
    var total: nat
    var active: bool
    var stormed: bool
    var winStart: nat
    var winCount: nat
    var stormAt: nat
    var storms: nat
    var stormRate: nat
    var rearmMs: nat
    var chunkStart: nat
    var lastRate: nat
    // history
    ghost var pushed: nat
    ghost var popped: nat
    ghost var lost: nat
    ghost var clock: nat               // the last time seen
    ghost var accepted: seq<nat>       // when each edge that was pushed came
    ghost var winFrom: nat             // the first of them in this window
    ghost var prevFrom: nat            // and in the one before
    ghost var trips: seq<Trip>
    ghost var first: nat               // the back-off the first of them may have
    ghost var races: nat               // how often the last four were begun anew

    // ---------------------------------------------------------------- the ring

    ghost predicate RingOk()
      reads `head, `tail, `dropped, `total, `pushed, `popped, `lost
    {
      && 2 <= buf.Length && head < buf.Length && tail < buf.Length
      && Counts(total, pushed) && Counts(dropped, lost)
      && pushed == popped + Queued() + lost
    }

    function Queued(): nat
      requires head < buf.Length && tail < buf.Length
      reads `head, `tail
    {
      if tail <= head then head - tail else head + buf.Length - tail
    }

    // The unread edges, oldest first.
    ghost function Queue(): seq<Edge>
      requires head < buf.Length && tail < buf.Length
      reads `head, `tail, buf
    {
      if tail <= head then buf[tail..head] else buf[tail..] + buf[..head]
    }

    // edgecap_push(): a full ring drops the new edge.
    method Push(t: nat, level: bool)
      requires RingOk()
      modifies buf, `head, `total, `dropped, `pushed, `lost
      ensures RingOk() && pushed == old(pushed) + 1
      ensures if old(Queued()) == buf.Length - 1
              then Queue() == old(Queue()) && lost == old(lost) + 1
              else Queue() == old(Queue()) + [Edge(t, level)] && lost == old(lost)
    {
      hide Counts;
      ghost var was := Queue();
      var next := Wrap(head + 1, buf.Length);
      CountsOne(total, pushed);
      total := (total + 1) % U32;
      pushed := pushed + 1;
      if next == tail {
        CountsOne(dropped, lost);
        dropped := (dropped + 1) % U32;
        lost := lost + 1;
        return;
      }
      buf[head] := Edge(t, level);
      head := next;
      assert Queue() == was + [Edge(t, level)];
    }

    // edgecap_pop()'s read of the oldest edge, which the handler may follow with more.
    method Peek() returns (out: Option<Edge>)
      requires RingOk()
      ensures out == if Queue() == [] then None else Some(Queue()[0])
    {
      if tail == head { return None; }
      assert Queue()[0] == buf[tail];
      out := Some(buf[tail]);
    }

    // And its move past that edge.
    method Advance()
      requires RingOk() && Queue() != []
      modifies `tail, `popped
      ensures RingOk() && Queue() == old(Queue())[1..] && popped == old(popped) + 1
    {
      hide Counts;
      ghost var was := Queue();
      tail := Wrap(tail + 1, buf.Length);
      popped := popped + 1;
      assert Queue() == was[1..];
    }

    // Several edges pushed: as many as fit.
    method PushAll(edges: seq<Edge>)
      requires RingOk()
      modifies buf, `head, `total, `dropped, `pushed, `lost
      ensures RingOk() && Queue() == Offered(old(Queue()), buf.Length - 1, edges)
    {
      hide Queue;
      for i := 0 to |edges|
        invariant RingOk() && Queue() == Offered(old(Queue()), buf.Length - 1, edges[..i])
      {
        QueueLength();
        Push(edges[i].t, edges[i].level);
        assert edges[..i + 1][..i] == edges[..i];
      }
      assert edges[..|edges|] == edges;
    }

    lemma QueueLength()
      requires RingOk()
      ensures |Queue()| == Queued()
    {
    }

    // The handler and the consumer share the ring without a lock. Wherever edges
    // come in while one is being taken, it is the oldest that is taken, and the
    // others and the new ones stay in order.
    method TakeInterrupted(first: seq<Edge>, second: seq<Edge>) returns (out: Option<Edge>)
      requires RingOk()
      modifies buf, `head, `total, `dropped, `pushed, `lost, `tail, `popped
      ensures RingOk()
      ensures var q := Offered(old(Queue()), buf.Length - 1, first);
              if q == [] then out == None && Queue() == Offered([], buf.Length - 1, second)
              else out == Some(q[0]) && Queue() == Offered(q, buf.Length - 1, second)[1..]
    {
      hide Queue;
      PushAll(first);
      out := Peek();
      ghost var q := Queue();
      PushAll(second);
      OfferedKeeps(q, buf.Length - 1, second);
      if out.Some? { Advance(); }
    }

    // ------------------------------------------------------------ the rate check

    ghost predicate WindowOk()
      reads `winStart, `winCount, `clock, `accepted, `winFrom, `prevFrom, `stormed, `stormAt, `active
    {
      active == !stormed && Windows(accepted, prevFrom, winFrom, winStart, winCount, clock)
      && (stormed ==> AllBy(accepted, stormAt))
    }

    ghost predicate StormOk()
      reads `stormed, `stormAt, `storms, `rearmMs, `clock, `trips, `accepted, `first, `races
    {
      && |trips| <= storms && (races == 0 ==> storms == |trips| && first == REARM_MS_MIN)
      && History(trips, first, |accepted|, stormed, stormAt, rearmMs, clock)
    }

    // Kept by every step. Its claims on `accepted` and `trips` are about all edges and
    // trips since the last race, a re-arm check that a trip came into.
    ghost predicate Valid()
      reads this
    {
      && RingOk() && WindowOk() && StormOk() && chunkStart <= clock < U64 && (stormed || winCount <= STORM_PER_SEC)
      && Sorted(accepted) && Spread(accepted) && Quiet(accepted, trips)
    }

    // edgecap_attach(), with the storage the caller brings.
    constructor (storage: array<Edge>)
      requires 2 <= storage.Length
      ensures Valid() && buf == storage && accepted == [] && trips == [] && active && Queue() == []
      ensures races == pushed == clock == winStart == winCount == chunkStart == 0 && rearmMs == REARM_MS_MIN && !stormed
    {
      buf := storage;
      head, tail, dropped, total := 0, 0, 0, 0;
      active, stormed, winStart, winCount, stormAt, storms, stormRate := true, false, 0, 0, 0, 0, 0;
      rearmMs, chunkStart, lastRate := REARM_MS_MIN, 0, 0;
      pushed, popped, lost, clock := 0, 0, 0, 0;
      accepted, winFrom, prevFrom, trips, first, races := [], 0, 0, [], REARM_MS_MIN, 0;
    }

    // A new one-second window begins with the first edge after the last has ended.
    method RollWindow(now: nat)
      requires WindowOk() && !stormed && clock <= now
      modifies `winStart, `winCount, `winFrom, `prevFrom, `clock
      ensures WindowOk() && clock == now && winStart <= now
      ensures if now - old(winStart) >= SECOND then winCount == 0 && winStart == now
              else winCount == old(winCount) && winStart == old(winStart)
    {
      Rolled(accepted, prevFrom, winFrom, winStart, winCount, clock, now);
      hide Windows, AllBy;
      clock := now;
      if now - winStart >= SECOND {
        winStart := now;
        winCount := 0;
        prevFrom, winFrom := winFrom, |accepted|;
      }
    }

    // The rate over the last 64 edges, looked at once in 64.
    method ChunkRate(now: nat) returns (tooFast: bool)
      requires chunkStart <= now
      modifies `chunkStart, `lastRate
      ensures chunkStart == if winCount % 64 == 0 then now else old(chunkStart)
      ensures tooFast <==> TooFast(winCount, now - old(chunkStart))
      ensures tooFast <==> winCount % 64 == 0 && now - old(chunkStart) <= 31984
      ensures var span := now - old(chunkStart);
              winCount % 64 == 0 ==>
                if span == 0 then lastRate == 0xFFFFFFFF else span * lastRate <= 64000000 < span * (lastRate + 1)
    {
      RateExceeds(now - chunkStart);
      tooFast := false;
      if winCount % 64 == 0 {
        var span := now - chunkStart;
        RateExceeds(span);
        chunkStart := now;
        if span != 0 {
          Quotient(64 * SECOND, span);
          Plus(span, 64 * SECOND / span, 1);
        }
        lastRate := if span != 0 then 64 * SECOND / span else 0xFFFFFFFF;
        tooFast := lastRate > STORM_PER_SEC;
      }
    }

    ghost method Accept(now: nat)
      requires WindowOk() && StormOk() && !stormed && now == clock && |accepted| - winFrom < winCount <= STORM_PER_SEC
      requires Sorted(accepted) && Spread(accepted) && Quiet(accepted, trips)
      modifies `accepted
      ensures accepted == old(accepted) + [now]
      ensures WindowOk() && StormOk() && Sorted(accepted) && Spread(accepted) && Quiet(accepted, trips)
    {
      hide History, Quiet, Windows, AllBy, Sorted, Spread;
      AcceptedOne(accepted, prevFrom, winFrom, winStart, winCount, now);
      QuietNext(accepted, trips, first, stormAt, rearmMs, now);
      Later(trips, first, |accepted|, |accepted| + 1, stormAt, rearmMs, clock, clock);
      accepted := accepted + [now];
    }

    method NoteRate(now: nat)
      requires winStart <= now
      modifies `stormRate
      ensures lastRate != 0 ==> stormRate == lastRate
      ensures var span := now - winStart + 1;
              lastRate == 0 ==> span * stormRate <= winCount * SECOND < span * (stormRate + 1)
    {
      Quotient(winCount * SECOND, now - winStart + 1);
      Plus(now - winStart + 1, winCount * SECOND / (now - winStart + 1), 1);
      stormRate := if lastRate != 0 then lastRate else winCount * SECOND / (now - winStart + 1);
    }

    // The storm cut-off: the pin is off from now on.
    method ShutOff(now: nat)
      requires WindowOk() && StormOk() && !stormed && now == clock && winStart <= now && Quiet(accepted, trips)
      modifies `stormRate, `stormAt, `storms, `stormed, `active, `trips
      ensures WindowOk() && StormOk() && stormed && Quiet(accepted, trips)
      ensures trips == old(trips) + [Trip(now, rearmMs, |accepted|)] && stormAt == now && storms == old(storms) + 1
    {
      hide History, Quiet, Windows, AllBy;
      CountedOne(accepted, prevFrom, winFrom, winStart, winCount, now);
      NoteRate(now);
      Tripped(trips, first, |accepted|, stormAt, rearmMs, clock);
      QuietTrip(accepted, trips, Trip(now, rearmMs, |accepted|));
      trips := trips + [Trip(now, rearmMs, |accepted|)];
      stormAt := now;
      storms := storms + 1;
      stormed := true;
      active := false;
    }

    // The edge counted in its window, and the rate looked at.
    method CountEdge(now: nat) returns (tooFast: bool)
      requires WindowOk() && StormOk() && !stormed && clock <= now && chunkStart <= clock
      modifies `winStart, `winCount, `winFrom, `prevFrom, `clock, `chunkStart, `lastRate
      ensures WindowOk() && StormOk() && clock == now && chunkStart <= now && winStart <= now && |accepted| - winFrom < winCount
      ensures winStart == if now - old(winStart) >= SECOND then now else old(winStart)
      ensures chunkStart == if winCount % 64 == 0 then now else old(chunkStart)
      ensures winCount == NextCount(old(winStart), old(winCount), now) && (tooFast <==> TooFast(winCount, now - old(chunkStart)))
    {
      hide History, Windows, AllBy, TooFast;
      Later(trips, first, |accepted|, |accepted|, stormAt, rearmMs, clock, now);
      RollWindow(now);
      CountedOne(accepted, prevFrom, winFrom, winStart, winCount, now);
      winCount := winCount + 1;
      tooFast := ChunkRate(now);
    }

    // An edge within the limits.
    method Keep(now: nat, level: bool)
      requires RingOk() && WindowOk() && StormOk() && !stormed && now == clock && chunkStart <= clock < U64
      requires |accepted| - winFrom < winCount <= STORM_PER_SEC && Sorted(accepted) && Spread(accepted) && Quiet(accepted, trips)
      modifies `accepted, buf, `head, `total, `dropped, `pushed, `lost
      ensures Valid() && accepted == old(accepted) + [now] && pushed == old(pushed) + 1
      ensures Queue() == old(Queue()) + if old(Queued()) == buf.Length - 1 then [] else [Edge(now, level)]
    {
      hide History, Sorted, Spread, Quiet, Counts, Windows, AllBy;
      Accept(now);
      Push(now, level);
    }

    // An edge of a pin that is on: pushed, unless it trips the cut-off.
    method TakeEdge(now: nat, level: bool)
      requires Valid() && !stormed && clock <= now < U64
      modifies `winStart, `winCount, `winFrom, `prevFrom, `clock, `chunkStart, `lastRate, `stormRate, `stormAt, `storms, `stormed,
               `active, `trips, `accepted, buf, `head, `total, `dropped, `pushed, `lost
      ensures Valid() && clock == now
      ensures winCount == NextCount(old(winStart), old(winCount), now)
      ensures winStart == if now - old(winStart) >= SECOND then now else old(winStart)
      ensures chunkStart == if winCount % 64 == 0 then now else old(chunkStart)
      ensures stormed <==> TooFast(winCount, now - old(chunkStart)) || winCount > STORM_PER_SEC
      ensures !stormed ==>
                && accepted == old(accepted) + [now] && pushed == old(pushed) + 1
                && trips == old(trips) && stormAt == old(stormAt) && storms == old(storms)
                && Queue() == old(Queue()) + if old(Queued()) == buf.Length - 1 then [] else [Edge(now, level)]
      ensures stormed ==>
                && accepted == old(accepted) && trips == old(trips) + [Trip(now, rearmMs, |accepted|)]
                && pushed == old(pushed) && stormAt == now && storms == old(storms) + 1 && Queue() == old(Queue())
    {
      hide History, Sorted, Spread, Quiet, Counts, Windows, AllBy, TooFast, NextCount;
      var tooFast := CountEdge(now);
      if tooFast || winCount > STORM_PER_SEC {
        ShutOff(now);
      } else {
        Keep(now, level);
      }
    }

    // Time goes by: what the handler does for a pin that is off.
    ghost method Wait(now: nat)
      requires Valid() && clock <= now < U64
      modifies `clock
      ensures Valid() && clock == now
    {
      hide History, Sorted, Spread, Quiet, Counts, Windows, AllBy;
      if stormed {
        LaterOff(trips, first, |accepted|, stormAt, rearmMs, clock, now);
      } else {
        Later(trips, first, |accepted|, |accepted|, stormAt, rearmMs, clock, now);
      }
      Rolled(accepted, prevFrom, winFrom, winStart, winCount, clock, now);
      clock := now;
    }

    // The handler, for an edge of this pin: ignored while the pin is off. A window is a
    // second from its first edge on; every 64th edge looks at the time since the last.
    method OnEdge(now: nat, level: bool)
      requires Valid() && clock <= now < U64
      modifies this, buf
      ensures Valid() && clock == now && rearmMs == old(rearmMs) && first == old(first) && races == old(races)
      ensures old(stormed) ==>
                && accepted == old(accepted) && pushed == old(pushed) && trips == old(trips) && stormed && Queue() == old(Queue())
                && stormAt == old(stormAt) && storms == old(storms)
      ensures !old(stormed) ==>
                && winCount == (if now < old(winStart) + 1000000 then old(winCount) + 1 else 1)
                && winStart == (if now < old(winStart) + 1000000 then old(winStart) else now)
                && chunkStart == (if winCount % 64 == 0 then now else old(chunkStart))
                && (stormed <==> (winCount % 64 == 0 && now - old(chunkStart) <= 31984) || winCount > 2000)
      ensures !old(stormed) && !stormed ==>
                && accepted == old(accepted) + [now] && pushed == old(pushed) + 1
                && trips == old(trips) && stormAt == old(stormAt) && storms == old(storms)
                && Queue() == old(Queue()) + if old(Queued()) == buf.Length - 1 then [] else [Edge(now, level)]
      ensures !old(stormed) && stormed ==>
                && accepted == old(accepted) && trips == old(trips) + [Trip(now, rearmMs, |accepted|)]
                && pushed == old(pushed) && stormAt == now && storms == old(storms) + 1 && Queue() == old(Queue())
    {
      hide History, Sorted, Spread, Quiet, Counts, Windows, AllBy;
      RateExceeds(now - chunkStart);
      if active {
        TakeEdge(now, level);
      } else {
        Wait(now);
      }
    }

    // The handler, run for some edges: it takes them up to the one that trips the
    // cut-off, if one does.
    method Handle(edges: seq<Edge>) returns (ghost got: seq<Edge>)
      requires Valid() && Ordered(clock, edges)
      modifies this, buf
      ensures Valid() && clock == LastTime(old(clock), edges) && old(clock) <= clock
      ensures rearmMs == old(rearmMs) && first == old(first) && races == old(races)
      ensures got <= edges && (!stormed ==> got == edges) && (old(stormed) ==> stormed && got == [])
      ensures accepted == old(accepted) + Stamps(got) && Queue() == Offered(old(Queue()), buf.Length - 1, got)
      ensures stormed == old(stormed) ==> stormAt == old(stormAt) && storms == old(storms) && trips == old(trips)
      ensures stormed != old(stormed) ==>
                && old(clock) <= stormAt <= clock && storms == old(storms) + 1
                && trips == old(trips) + [Trip(stormAt, rearmMs, |accepted|)]
    {
      hide Valid, Queue, Stamps, Ordered, Offered;
      got := [];
      InRing();
      StampsOne([]);
      OfferedNone(Queue(), buf.Length - 1);
      for i := 0 to |edges|
        invariant Valid() && clock == LastTime(old(clock), edges[..i]) && old(clock) <= clock
        invariant head < buf.Length && tail < buf.Length
        invariant rearmMs == old(rearmMs) && first == old(first) && races == old(races)
        invariant got <= edges[..i] && (!stormed ==> got == edges[..i]) && (old(stormed) ==> stormed && got == [])
        invariant accepted == old(accepted) + Stamps(got)
        invariant Queue() == Offered(old(Queue()), buf.Length - 1, got)
        invariant stormed == old(stormed) ==> stormAt == old(stormAt) && storms == old(storms) && trips == old(trips)
        invariant stormed != old(stormed) ==>
                    && old(clock) <= stormAt <= clock && storms == old(storms) + 1
                    && trips == old(trips) + [Trip(stormAt, rearmMs, |accepted|)]
      {
        OrderedAt(old(clock), edges, i);
        assert edges[..i + 1] == edges[..i] + [edges[i]];
        got := HandleOne(edges[i], old(Queue()), got);
      }
      assert edges[..|edges|] == edges;
    }

    lemma InRing()
      requires Valid()
      ensures head < buf.Length && tail < buf.Length
    {
    }

    // One of them, after `got` of a queue that was `q`.
    method HandleOne(e: Edge, ghost q: seq<Edge>, ghost got: seq<Edge>) returns (ghost more: seq<Edge>)
      requires Valid() && clock <= e.t < U64 && Queue() == Offered(q, buf.Length - 1, got)
      modifies this, buf
      ensures Valid() && head < buf.Length && tail < buf.Length && clock == e.t
      ensures rearmMs == old(rearmMs) && first == old(first) && races == old(races) && (old(stormed) ==> stormed)
      ensures more == (if stormed then got else got + [e])
      ensures !stormed ==> Stamps(more) == Stamps(got) + [e.t]
      ensures accepted == old(accepted) + if stormed then [] else [e.t]
      ensures Queue() == Offered(q, buf.Length - 1, more)
      ensures stormed == old(stormed) ==> stormAt == old(stormAt) && storms == old(storms) && trips == old(trips)
      ensures stormed != old(stormed) ==>
                stormAt == clock && storms == old(storms) + 1 && trips == old(trips) + [Trip(clock, rearmMs, |accepted|)]
    {
      hide History, Sorted, Spread, Quiet, Counts, Windows, AllBy, Queue, Stamps, Offered;
      more := got;
      QueueLength();
      OnEdge(e.t, e.level);
      if !stormed {
        more := got + [e];
        StampsOne(more);
        OfferedOne(q, buf.Length - 1, got, e);
      }
    }

    // ------------------------------------------------------- edgecap_rearm_check()

    // The history goes on, or is begun anew.
    ghost method BackOnBy(now: nat)
      requires WindowOk() && StormOk() && stormed && now <= clock && (stormAt <= now ==> stormAt + 1000 * rearmMs <= now)
      requires Sorted(accepted) && Spread(accepted) && Quiet(accepted, trips)
      modifies `winFrom, `prevFrom, `accepted, `trips, `first, `races
      ensures |trips| <= storms && (races == 0 ==> storms == |trips| && first == REARM_MS_MIN)
      ensures History(trips, first, |accepted|, false, stormAt, Doubled(rearmMs), clock)
      ensures Windows(accepted, prevFrom, winFrom, now, 0, clock)
      ensures Sorted(accepted) && Spread(accepted) && Quiet(accepted, trips)
      ensures if stormAt <= now then accepted == old(accepted) && trips == old(trips)
                    && first == old(first) && races == old(races)
              else accepted == [] && trips == [] && first == Doubled(rearmMs) && races == old(races) + 1
    {
      hide History, Sorted, Spread, Quiet, Windows, AllBy, Backoff, Doubled;
      Within(trips, first, |accepted|, stormed, stormAt, rearmMs, clock);
      if stormAt <= now {
        BackoffIs(rearmMs);
        BackOn(trips, first, |accepted|, stormAt, rearmMs, clock);
        Rearmed(accepted, prevFrom, winFrom, winStart, winCount, clock, stormAt, now);
        prevFrom, winFrom := winFrom, |accepted|;
      } else {
        BackoffIs(rearmMs);
        Anew(stormAt, Doubled(rearmMs), clock, now);
        accepted, trips, first, races := [], [], Doubled(rearmMs), races + 1;
        prevFrom, winFrom := 0, 0;
      }
    }

    // Its stormed branch, with a clock read some time ago: the pin is back on when the
    // wrapped difference says so. After a trip since the reading that is at once.
    method Rearm(now: nat)
      requires Valid() && stormed && now <= clock
      modifies `rearmMs, `winStart, `winCount, `chunkStart, `stormed, `active, `winFrom, `prevFrom,
               `accepted, `trips, `first, `races
      ensures Valid()
      ensures stormed <==> Since(now, stormAt) < 1000 * old(rearmMs)
      ensures (!stormed ==> stormAt + 1000 * old(rearmMs) <= now) <==>
              stormAt <= now || U64 - (stormAt - now) < 1000 * old(rearmMs)
      ensures stormed ==> rearmMs == old(rearmMs)
      ensures !stormed ==> rearmMs == Doubled(old(rearmMs)) && winStart == chunkStart == now && winCount == 0
      ensures stormed || stormAt <= now ==>
                accepted == old(accepted) && trips == old(trips) && first == old(first) && races == old(races)
      ensures !stormed && now < stormAt ==> accepted == [] && trips == [] && first == rearmMs && races == old(races) + 1
    {
      hide History, Sorted, Spread, Quiet, Counts, Windows, AllBy, Backoff, Doubled;
      Within(trips, first, |accepted|, stormed, stormAt, rearmMs, clock);
      SinceIs(now, stormAt);
      DueExact(now, stormAt, 1000 * rearmMs);
      if Since(now, stormAt) >= rearmMs * 1000 { SwitchOn(now); }
    }

    method SwitchOn(now: nat)
      requires WindowOk() && StormOk() && stormed && now <= clock && (stormAt <= now ==> stormAt + 1000 * rearmMs <= now)
      requires Sorted(accepted) && Spread(accepted) && Quiet(accepted, trips)
      modifies `rearmMs, `winStart, `winCount, `chunkStart, `stormed, `active, `winFrom, `prevFrom,
               `accepted, `trips, `first, `races
      ensures WindowOk() && StormOk() && !stormed
      ensures Sorted(accepted) && Spread(accepted) && Quiet(accepted, trips)
      ensures rearmMs == Doubled(old(rearmMs)) && winStart == chunkStart == now && winCount == 0
      ensures if stormAt <= now then accepted == old(accepted) && trips == old(trips)
                    && first == old(first) && races == old(races)
              else accepted == [] && trips == [] && first == rearmMs && races == old(races) + 1
    {
      hide History, Sorted, Spread, Quiet, Windows, AllBy;
      BackOnBy(now);
      var next := rearmMs * 2;
      rearmMs := if next > REARM_MS_MAX then REARM_MS_MAX else next;
      winStart := now;
      chunkStart := now;
      winCount := 0;
      stormed := false;
      active := true;
    }

    // Its other branch's write, once the test has passed: a trip may have come since
    // the test, or, as a race, before it and after the clock was read.
    method ForgiveNow(ghost raced: bool)
      requires Valid() && (raced ==> stormed) && (!stormed ==> stormAt + CALM_US < clock)
      requires stormed && !raced ==> CalmBefore(trips, stormAt)
      modifies `rearmMs, `trips, `races
      ensures Valid() && rearmMs == REARM_MS_MIN && races == old(races) + if raced then 1 else 0
      ensures trips == if raced then [Shortened(old(trips))[|old(trips)| - 1]]
                       else if stormed then Shortened(old(trips)) else old(trips)
    {
      hide History, Sorted, Spread, Quiet, Counts, Windows, AllBy, Shortened, CalmBefore;
      Within(trips, first, |accepted|, stormed, stormAt, rearmMs, clock);
      if stormed {
        ShortenedSays(trips);
        QuietShortened(accepted, trips, first, stormAt, rearmMs, clock);
        if raced {
          AnewOff(trips, first, |accepted|, stormAt, rearmMs, clock);
          trips, races := [Shortened(trips)[|trips| - 1]], races + 1;
        } else {
          Forgiven(trips, first, |accepted|, stormAt, rearmMs, clock);
          trips := Shortened(trips);
        }
      } else {
        Later(trips, first, |accepted|, |accepted|, stormAt, rearmMs, clock, clock);
      }
      rearmMs := REARM_MS_MIN;
    }

    // The test of the time, the edges after it, and the write.
    method ForgiveIf(now: nat, timed: seq<Edge>) returns (ghost got: seq<Edge>)
      requires Valid() && now <= clock && (if stormed then now <= stormAt else stormAt <= now) && Ordered(clock, timed)
      modifies this, buf
      ensures Valid() && clock == LastTime(old(clock), timed)
      ensures accepted == old(accepted) + Stamps(got) && Queue() == Offered(old(Queue()), buf.Length - 1, got)
      ensures first == old(first) && (!stormed ==> got == timed) && (old(stormed) ==> stormed && got == [])
      ensures storms == old(storms) + (if stormed == old(stormed) then 0 else 1)
      ensures stormed == old(stormed) ==> stormAt == old(stormAt)
      ensures old(stormed) && storms != 0 && old(rearmMs) > REARM_MS_MIN && Since(now, stormAt) > CALM_US ==>
                rearmMs == REARM_MS_MIN && races == old(races) + 1
      ensures races != old(races) ==> old(stormed) && now < stormAt && rearmMs == REARM_MS_MIN
      ensures races == old(races) ==>
                old(trips) <= trips && |trips| == |old(trips)| + if stormed == old(stormed) then 0 else 1
      ensures !stormed ==> rearmMs == if storms != 0 && stormAt + CALM_US < now then REARM_MS_MIN else old(rearmMs)
    {
      hide History, Sorted, Spread, Quiet, Counts, Windows, AllBy, Ordered, Stamps, Queue, Offered, Shortened, CalmBefore, Since,
           Backoff, LastTime;
      Within(trips, first, |accepted|, stormed, stormAt, rearmMs, clock);
      SinceIs(now, stormAt);
      var calm := rearmMs > REARM_MS_MIN && storms != 0 && Since(now, stormAt) > CALM_US;
      got := Handle(timed);
      if calm {
        if stormed && !old(stormed) { CalmIs(old(trips), trips[|trips| - 1], old(stormAt)); }
        if stormed { ShortenedSays(trips); }
        ForgiveNow(old(stormed));
      }
    }

    // That branch whole: a running pin's back-off is forgiven a long time after its
    // last trip.
    method Forgive(now: nat, tested: seq<Edge>, timed: seq<Edge>) returns (ghost got: seq<Edge>)
      requires Valid() && !stormed && stormAt <= now <= clock && Ordered(clock, tested + timed)
      modifies this, buf
      ensures Valid() && clock == LastTime(old(clock), tested + timed)
      ensures accepted == old(accepted) + Stamps(got) && Queue() == Offered(old(Queue()), buf.Length - 1, got)
      ensures first == old(first) && storms == old(storms) + if stormed then 1 else 0
      ensures races != old(races) ==> stormed && now < stormAt && rearmMs == REARM_MS_MIN
      ensures races == old(races) ==> old(trips) <= trips && |trips| == |old(trips)| + if stormed then 1 else 0
      ensures !stormed ==>
                && got == tested + timed && stormAt == old(stormAt)
                && rearmMs == if storms != 0 && stormAt + CALM_US < now then REARM_MS_MIN else old(rearmMs)
    {
      hide History, Sorted, Spread, Quiet, Counts, Windows, AllBy, Ordered, Stamps, Queue, Offered, Since;
      OrderedSplit(clock, tested, timed);
      ghost var early := Handle(tested);
      got := ForgiveIf(now, timed);
      StampsOn(early, got);
      OfferedOn(old(Queue()), buf.Length - 1, early, got);
      got := early + got;
    }

    // edgecap_rearm_check(), with the edges that come in after it reads the clock,
    // after it tests `stormed` and after it tests the time.
    method RearmCheck(now: nat, read: seq<Edge>, tested: seq<Edge>, timed: seq<Edge>) returns (ghost got: seq<Edge>)
      requires Valid() && clock <= now < U64 && Ordered(now, read + (tested + timed))
      modifies this, buf
      ensures Valid() && clock == LastTime(now, read + (tested + timed)) && old(storms) <= storms
      ensures Queue() == Offered(old(Queue()), buf.Length - 1, got)
      ensures races == old(races) ==> accepted == old(accepted) + Stamps(got) && old(trips) <= trips && first == old(first)
      ensures storms == old(storms) ==>
                && races == old(races) && trips == old(trips) && stormAt == old(stormAt)
                && (stormed <==> old(stormed) && now < stormAt + 1000 * old(rearmMs))
                && rearmMs == (if old(stormed) then if stormed then old(rearmMs) else Doubled(old(rearmMs))
                               else if storms != 0 && stormAt + CALM_US < now then REARM_MS_MIN else old(rearmMs))
    {
      hide History, Sorted, Spread, Quiet, Counts, Windows, AllBy, Ordered, Stamps, Queue, Offered, Since, Doubled;
      OrderedSplit(now, read, tested + timed);
      Within(trips, first, |accepted|, stormed, stormAt, rearmMs, clock);
      SinceIs(now, stormAt);
      Wait(now);
      got := Handle(read);
      ghost var early := got;
      if !stormed {
        got := Forgive(now, tested, timed);
      } else {
        got := RearmOff(now, tested, timed);
      }
      StampsOn(early, got);
      OfferedOn(old(Queue()), buf.Length - 1, early, got);
      got := early + got;
    }

    // Its branch for a pin that is off.
    method RearmOff(now: nat, tested: seq<Edge>, timed: seq<Edge>) returns (ghost got: seq<Edge>)
      requires Valid() && stormed && now <= clock && Ordered(clock, tested + timed)
      modifies this, buf
      ensures Valid() && clock == LastTime(old(clock), tested + timed) && old(storms) <= storms
      ensures Queue() == Offered(old(Queue()), buf.Length - 1, got)
      ensures races == old(races) ==> accepted == old(accepted) + Stamps(got) && old(trips) <= trips && first == old(first)
      ensures old(stormAt) <= now ==> races == old(races)
      ensures storms == old(storms) ==>
                && stormAt == old(stormAt) && (stormed <==> Since(now, stormAt) < 1000 * old(rearmMs))
                && rearmMs == (if stormed then old(rearmMs) else Doubled(old(rearmMs)))
      ensures storms == old(storms) && races == old(races) ==> trips == old(trips)
    {
      hide History, Sorted, Spread, Quiet, Counts, Windows, AllBy, Ordered, Stamps, Queue, Since, Doubled;
      OrderedSplit(clock, tested, timed);
      StampsOne([]);
      got := Handle(tested);
      Rearm(now);
      got := Handle(timed);
    }

    // The rest of edgecap_pop(), with the edges before and after its look at the ring.
    method TakeAmid(checked: seq<Edge>, looked: seq<Edge>)
      returns (out: Option<Edge>, ghost got: seq<Edge>, ghost late: seq<Edge>)
      requires Valid() && Ordered(clock, checked + looked)
      modifies this, buf
      ensures Valid() && clock == LastTime(old(clock), checked + looked)
      ensures rearmMs == old(rearmMs) && first == old(first) && races == old(races) && old(trips) <= trips
      ensures var q := Offered(old(Queue()), buf.Length - 1, got);
              if q == [] then out == None && Queue() == Offered([], buf.Length - 1, late)
              else out == Some(q[0]) && Queue() == Offered(q, buf.Length - 1, late)[1..]
      ensures accepted == old(accepted) + Stamps(got + late) && old(storms) <= storms
      ensures storms == old(storms) ==> trips == old(trips) && stormAt == old(stormAt) && stormed == old(stormed)
    {
      hide History, Sorted, Spread, Quiet, Counts, Windows, AllBy, Ordered, Stamps, Queue, Queued, Offered, LastTime;
      OrderedSplit(clock, checked, looked);
      got := Handle(checked);
      out, late := TakeLooked(looked);
      StampsOn(got, late);
    }

    method TakeLooked(looked: seq<Edge>) returns (out: Option<Edge>, ghost late: seq<Edge>)
      requires Valid() && Ordered(clock, looked)
      modifies this, buf
      ensures Valid() && clock == LastTime(old(clock), looked)
      ensures rearmMs == old(rearmMs) && first == old(first) && races == old(races) && old(trips) <= trips
      ensures var q := old(Queue());
              if q == [] then out == None && Queue() == Offered([], buf.Length - 1, late)
              else out == Some(q[0]) && Queue() == Offered(q, buf.Length - 1, late)[1..]
      ensures accepted == old(accepted) + Stamps(late) && old(storms) <= storms
      ensures storms == old(storms) ==> trips == old(trips) && stormAt == old(stormAt) && stormed == old(stormed)
    {
      hide History, Sorted, Spread, Quiet, Counts, Windows, AllBy, Ordered, Stamps, Queue, Queued, Offered, LastTime;
      ghost var q := Queue();
      out := Peek();
      late := Handle(looked);
      OfferedKeeps(q, buf.Length - 1, late);
      if out.Some? { Advance(); }
    }

    // edgecap_pop()
    method Pop(now: nat, gaps: Gaps) returns (out: Option<Edge>, ghost got: seq<Edge>, ghost late: seq<Edge>)
      requires Valid() && clock <= now < U64 && Ordered(now, gaps.All())
      modifies this, buf
      ensures Valid() && clock == LastTime(now, gaps.All())
      ensures var q := Offered(old(Queue()), buf.Length - 1, got);
              if q == [] then out == None && Queue() == Offered([], buf.Length - 1, late)
              else out == Some(q[0]) && Queue() == Offered(q, buf.Length - 1, late)[1..]
      ensures races == old(races) ==>
                accepted == old(accepted) + Stamps(got + late) && old(trips) <= trips && first == old(first)
      ensures storms == old(storms) ==>
                && races == old(races) && trips == old(trips) && stormAt == old(stormAt)
                && (stormed <==> old(stormed) && now < stormAt + 1000 * old(rearmMs))
    {
      hide History, Sorted, Spread, Quiet, Counts, Windows, AllBy, Ordered, Stamps, Queue, Offered, Doubled;
      OrderedSplit(now, gaps.read + (gaps.tested + gaps.timed), gaps.checked + gaps.looked);
      ghost var early := RearmCheck(now, gaps.read, gaps.tested, gaps.timed);
      out, got, late := TakeAmid(gaps.checked, gaps.looked);
      OfferedOn(old(Queue()), buf.Length - 1, early, got);
      StampsOn(early, got + late);
      assert early + got + late == early + (got + late);
      got := early + got;
    }

    // -------------------------------------------------------------------- races

    // A trip after the clock's reading, and the pin is back on at once.
    method TripInside(now: nat, later: nat, level: bool)
      requires Valid() && !stormed && winCount == STORM_PER_SEC
      requires clock <= now < later < winStart + SECOND && later < U64
      modifies this, buf
      ensures Valid() && !stormed && stormAt == later && storms == old(storms) + 1 && races == old(races) + 1
    {
      hide History, Sorted, Spread, Quiet, Counts, AllBy, TooFast, Queue, Since;
      Within(trips, first, |accepted|, stormed, stormAt, rearmMs, clock);
      Wait(now);
      OnEdge(later, level);
      BackoffIs(rearmMs);
      SinceIs(now, later);
      Rearm(now);
    }

    // 64 edges a microsecond apart come after the reading: 63 are taken, and the pin
    // is on again.
    method Burst(now: nat)
      requires Valid() && !stormed && winCount == 0 && clock <= now && now + 64 < U64
      requires now + 64 < winStart + SECOND && now + 64 <= chunkStart + 31984
      modifies this, buf
      ensures Valid() && !stormed && winCount == 0 && winStart == chunkStart == now && clock == now + 64
      ensures pushed == old(pushed) + 63 && races == old(races) + 1
    {
      hide History, Sorted, Spread, Quiet, Counts, Windows, AllBy, Queue, Since;
      Within(trips, first, |accepted|, stormed, stormAt, rearmMs, clock);
      BackoffIs(rearmMs);
      Wait(now);
      for i := 0 to 64
        invariant Valid() && clock == now + i && rearmMs == old(rearmMs) && races == old(races)
        invariant winCount == i && winStart == old(winStart) && (i < 64 ==> chunkStart == old(chunkStart))
        invariant stormed == (i == 64) && pushed == old(pushed) + (if i < 64 then i else 63) && (stormed ==> stormAt == clock)
      {
        OnEdge(now + i + 1, true);
      }
      SinceIs(now, stormAt);
      Rearm(now);
    }

    // So from the start on, n re-arm checks can each let through 63 edges in 65
    // microseconds.
    static method Flood(storage: array<Edge>, n: nat) returns (pin: EdgeCap)
      requires 2 <= storage.Length && 65 * n < U64
      modifies storage
      ensures fresh(pin) && pin.buf == storage && pin.Valid() && !pin.stormed
      ensures pin.clock == 65 * n && pin.pushed == 63 * n && pin.races == n
    {
      hide History, Sorted, Spread, Quiet, Counts, Windows, AllBy;
      pin := new EdgeCap(storage);
      for i := 0 to n
        invariant fresh(pin) && pin.buf == storage && pin.Valid() && !pin.stormed && pin.winCount == 0
        invariant pin.clock == 65 * i && pin.pushed == 63 * i && pin.races == i
        invariant pin.winStart == pin.chunkStart == if i == 0 then 0 else 65 * i - 64
      {
        pin.Burst(65 * i + 1);
      }
    }
  }
}
