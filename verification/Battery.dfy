// The battery's state of charge (drivers/battery.c): a voltage estimate over the
// discharge curve, a count of the charge that flowed, and their blend. Levels are
// in parts per million.
module Battery {
  import opened Arith

  const FULL: int := 1000000
  const GAP_MS: int := 60000

  type Level = v: int | 0 <= v <= FULL

  // The resting-voltage curve: thousandths of the empty..full span, and of charge,
  // fifty thousandths apart.
  const CURVE_U: seq<int> :=
    [0, 508, 575, 592, 608, 625, 642, 658, 667, 683, 700, 708, 725, 758, 792, 817, 850, 900, 925, 958, 1000]
  const CURVE_N: nat := 21

  function U(i: nat): int
    requires i < CURVE_N
  {
    CURVE_U[i] * 1000
  }

  function S(i: nat): int { i * 50 * 1000 }

  lemma CurveRises(i: nat, j: nat)
    requires i < j < CURVE_N
    ensures U(i) < U(j)
    decreases j
  {
    if i < j - 1 { CurveRises(i, j - 1); }
  }

  lemma CurveEnds()
    ensures U(0) == 0 && U(CURVE_N - 1) == 1000000 && S(0) == 0 && S(CURVE_N - 1) == FULL
  {
  }

  // The level at u between two knots.
  function Between(i: nat, u: int): int
    requires 0 < i < CURVE_N && U(i - 1) < U(i)
  {
    S(i - 1) + TruncDiv((S(i) - S(i - 1)) * (u - U(i - 1)), U(i) - U(i - 1))
  }

  // The first knot at or past u, from knot i on.
  function Knot(u: int, i: nat): (k: nat)
    requires 0 < i < CURVE_N && U(i - 1) < u <= U(CURVE_N - 1)
    ensures i <= k < CURVE_N && U(k - 1) < u <= U(k)
    decreases CURVE_N - i
  {
    if u <= U(i) then i else Knot(u, i + 1)
  }

  lemma KnotRises(u: int, v: int, i: nat)
    requires 0 < i < CURVE_N && U(i - 1) < u <= v <= U(CURVE_N - 1)
    ensures Knot(u, i) <= Knot(v, i)
    decreases CURVE_N - i
  {
    if u > U(i) { KnotRises(u, v, i + 1); }
  }

  // The curve at u.
  function Curve(u: int): int {
    if u <= 0 then 0 else if u >= 1000000 then FULL
    else CurveEnds(); var k := Knot(u, 1); CurveRises(k - 1, k); Between(k, u)
  }

  lemma Portion(w: int, v: int, d: int)
    requires 0 <= w <= v <= d && 0 < d
    ensures 0 <= TruncDiv(50000 * w, d) <= TruncDiv(50000 * v, d) <= 50000
  {
    QuotientRises(50000 * w, 50000 * v, d);
    QuotientRises(50000 * v, 50000 * d, d);
    Quotient(50000 * w, d);
    WholeQuotient(50000, d);
  }

  lemma BetweenKnots(i: nat, u: int, v: int)
    requires 0 < i < CURVE_N && U(i - 1) < u <= v <= U(i)
    ensures S(i - 1) <= Between(i, u) <= Between(i, v) <= S(i)
  {
    Portion(u - U(i - 1), v - U(i - 1), U(i) - U(i - 1));
  }

  // The curve rises, from empty to full.
  lemma CurveMonotone(u: int, v: int)
    requires u <= v
    ensures 0 <= Curve(u) <= Curve(v) <= FULL
  {
    hide U, Between, TruncDiv, Knot;
    CurveEnds();
    if 0 < v < 1000000 {
      var k := Knot(v, 1);
      BetweenKnots(k, v, v);
      if 0 < u {
        KnotRises(u, v, 1);
        var j := Knot(u, 1);
        if j == k { BetweenKnots(k, u, v); } else { BetweenKnots(j, u, u); }
      }
    } else if 0 < u < 1000000 {
      BetweenKnots(Knot(u, 1), u, u);
    }
  }

  lemma {:induction false} KnotAt(i: nat, j: nat)
    requires 0 < j <= i < CURVE_N && U(j - 1) < U(i) <= U(CURVE_N - 1)
    ensures Knot(U(i), j) == i
    decreases i - j
  {
    hide U;
    if j < i {
      CurveRises(j, i);
      KnotAt(i, j + 1);
    }
  }

  // It goes through every knot.
  lemma CurveAtKnot(i: nat)
    requires 0 < i < CURVE_N
    ensures Curve(U(i)) == S(i)
  {
    hide U;
    CurveEnds();
    CurveRises(0, i);
    CurveRises(i - 1, i);
    if i < CURVE_N - 1 {
      CurveRises(i, CURVE_N - 1);
      KnotAt(i, 1);
      hide Between;
      BetweenEnds(i);
    }
  }

  lemma UNotNegative(i: nat)
    requires i < CURVE_N
    ensures 0 <= U(i)
  {
  }

  lemma BetweenEnds(i: nat)
    requires 0 < i < CURVE_N && U(i - 1) < U(i)
    ensures Between(i, U(i)) == S(i)
  {
    hide U;
    WholeQuotient(50000, U(i) - U(i - 1));
  }

  // Between two knots the level is on the straight line between them, cut to a whole
  // ppm.
  lemma CurveChord(i: nat, u: int)
    requires 0 < i < CURVE_N && U(i - 1) < u <= U(i)
    ensures var c, d := Curve(u) - S(i - 1), U(i) - U(i - 1);
            0 <= c && d * c <= 50000 * (u - U(i - 1)) < d * (c + 1)
  {
    hide U;
    CurveEnds();
    CurveRises(i - 1, i);
    if i < CURVE_N - 1 { CurveRises(i, CURVE_N - 1); }
    if i > 1 { CurveRises(0, i - 1); }
    KnotFrom(u, i, 1);
    var d := U(i) - U(i - 1);
    Quotient(50000 * (u - U(i - 1)), d);
    Plus(d, 50000 * (u - U(i - 1)) / d, 1);
    if u >= 1000000 {
      BetweenEnds(i);
    }
  }

  lemma {:induction false} KnotFrom(u: int, i: nat, j: nat)
    requires 0 < j <= i < CURVE_N && U(j - 1) < u <= U(CURVE_N - 1) && U(i - 1) < u <= U(i)
    ensures Knot(u, j) == i
    decreases i - j
  {
    hide U;
    if j < i {
      if j < i - 1 { CurveRises(j, i - 1); }
      KnotFrom(u, i, j + 1);
    }
  }

  // The segments tried one by one.
  method OnCurve(u: int) returns (soc: int)
    requires 0 < u < 1000000
    ensures soc == Curve(u)
  {
    hide U, Between;
    CurveEnds();
    for i := 1 to CURVE_N
      invariant U(i - 1) < u && (i < CURVE_N ==> Knot(u, 1) == Knot(u, i))
    {
      if u <= U(i) {
        CurveRises(i - 1, i);
        return Between(i, u);
      }
    }
    soc := FULL;
  }

  datatype Params = Params(emptyMv: int, fullMv: int, rintMohm: nat, capacityMah: nat) {
    // Thousandths of thousandths of the span from empty to full.
    function Position(ocv: int): int
      requires emptyMv < fullMv
    {
      TruncDiv((ocv - emptyMv) * 1000000, fullMv - emptyMv)
    }

    // The level a resting voltage says; 0 of a span that is none.
    function Soc(ocv: int): int {
      if fullMv <= emptyMv then 0 else Curve(Position(ocv))
    }

    lemma SocMonotone(a: int, b: int)
      requires a <= b
      ensures 0 <= Soc(a) <= Soc(b) <= FULL
    {
      hide Curve;
      if emptyMv < fullMv {
        TruncationRises((a - emptyMv) * 1000000, (b - emptyMv) * 1000000, fullMv - emptyMv);
        CurveMonotone(Position(a), Position(b));
      }
    }

    // Full from the full voltage up, empty from the empty one down.
    lemma SocEnds(ocv: int)
      ensures emptyMv < fullMv && ocv >= fullMv ==> Soc(ocv) == FULL
      ensures fullMv <= emptyMv || ocv <= emptyMv ==> Soc(ocv) == 0
    {
      hide U, Knot, Between;
      var d := fullMv - emptyMv;
      if d > 0 {
        PositionMeans(ocv);
        WholeQuotient(1000000, d);
        if ocv >= fullMv { QuotientRises(1000000 * d, (ocv - emptyMv) * 1000000, d); }
      }
    }

    // How far up the span a voltage is, in millionths.
    lemma PositionMeans(ocv: int)
      requires emptyMv < fullMv
      ensures var d, p := fullMv - emptyMv, Position(ocv);
              if ocv >= emptyMv then d * p <= (ocv - emptyMv) * 1000000 < d * (p + 1)
              else d * (p - 1) < (ocv - emptyMv) * 1000000 <= d * p
      ensures ocv <= emptyMv ==> Position(ocv) <= 0
    {
      Truncated((ocv - emptyMv) * 1000000, fullMv - emptyMv);
    }

    // The curve's knots, laid over the pack's own span.
    lemma SocAtKnot(ocv: int, i: nat)
      requires emptyMv < fullMv && 0 < i < CURVE_N && (ocv - emptyMv) * 1000 == CURVE_U[i] * (fullMv - emptyMv)
      ensures Soc(ocv) == 50000 * i
    {
      UNotNegative(i);
      PositionAtKnot(ocv, U(i));
      CurveAtKnot(i);
    }

    lemma PositionAtKnot(ocv: int, u: nat)
      requires emptyMv < fullMv && (ocv - emptyMv) * 1000000 == u * (fullMv - emptyMv)
      ensures Position(ocv) == u
    {
      var d := fullMv - emptyMv;
      NatProduct(d, u);
      WholeQuotient(u, d);
      TruncatedNat(u * d, d);
    }

    // battery_soc_from_ocv_ppm()
    method SocFromOcv(ocv: int) returns (soc: int)
      ensures soc == Soc(ocv)
    {
      hide TruncDiv, Knot, Between;
      var span := fullMv - emptyMv;
      if span <= 0 { return 0; }
      var u := TruncDiv((ocv - emptyMv) * 1000000, span);
      if u <= 0 { return 0; }
      if u >= 1000000 { return FULL; }
      soc := OnCurve(u);
    }

    // The voltage without the drop over the pack's own resistance.
    function Resting(mv: int, ma: int): int {
      mv - TruncDiv(ma * rintMohm, 1000)
    }

    // A current of ma over rintMohm: a millivolt for each thousand of their product, up
    // while charging and down while discharging.
    lemma RestingMeans(mv: int, ma: int)
      ensures var drop := mv - Resting(mv, ma);
              if ma >= 0 then 1000 * drop <= ma * rintMohm < 1000 * (drop + 1)
              else 1000 * (drop - 1) < ma * rintMohm <= 1000 * drop
    {
      if ma >= 0 { NatProduct(rintMohm, ma); } else { NatProduct(rintMohm, -ma); }
      Truncated(ma * rintMohm, 1000);
    }
  }

  // ------------------------------------------------------------------ the blend

  // The cast of a C int64_t to int32_t.
  function Int32(x: int): int {
    (x + 0x8000_0000) % 0x1_0000_0000 - 0x8000_0000
  }

  // The charge that flowed, in ppm of the capacity.
  function Counted(ma: int, dt: int, capacityMah: nat): int {
    if capacityMah == 0 then 0 else Int32(TruncDiv(ma * dt * 10, capacityMah * 36))
  }

  // In ppm of so many mAh, of 3600 s each: what flowed in dt milliseconds, cut to a
  // whole ppm towards none.
  lemma CountedMeans(ma: int, dt: nat, capacityMah: nat, flow: int)
    requires 0 < capacityMah && flow == ma * dt
    requires -0x8000_0000 < TruncDiv(flow * 10, capacityMah * 36) < 0x8000_0000
    ensures var c, full := Counted(ma, dt, capacityMah), capacityMah * 3600000;
            if flow >= 0 then full * c <= flow * 1000000 < full * (c + 1)
            else full * (c - 1) < flow * 1000000 <= full * c
  {
    CutToPpm(flow, capacityMah);
    Int32Is(TruncDiv(flow * 10, capacityMah * 36));
    hide TruncDiv, Int32;
  }

  lemma Int32Is(x: int)
    requires -0x8000_0000 < x < 0x8000_0000
    ensures Int32(x) == x
  {
  }

  lemma CutToPpm(flow: int, capacityMah: nat)
    requires 0 < capacityMah
    ensures var c, full := TruncDiv(flow * 10, capacityMah * 36), capacityMah * 3600000;
            if flow >= 0 then full * c <= flow * 1000000 < full * (c + 1)
            else full * (c - 1) < flow * 1000000 <= full * c
  {
    var d := capacityMah * 36;
    var c := TruncDiv(flow * 10, d);
    Truncated(flow * 10, d);
    hide TruncDiv;
    Hundreds(d, c);
    Hundreds(d, c + 1);
    Hundreds(d, c - 1);
  }

  lemma Hundreds(d: int, c: int)
    ensures (100000 * d) * c == 100000 * (d * c)
  {
  }

  function Clamp(v: int): Level {
    if v < 0 then 0 else if v > FULL then FULL else v
  }

  // One step: the count, then 1/256 of the way to the voltage's level.
  function Step(soc: int, target: int, counted: int): Level {
    Clamp(soc + counted + TruncDiv(target - (soc + counted), 256))
  }

  function Max(a: int, b: int): int { if a < b then b else a }

  // A step's error is no more than the larger of the error before and 255 times
  // what was counted.
  lemma StepError(soc: int, target: Level, counted: int, bound: int, d: nat)
    requires Abs(soc - target) <= bound && Abs(counted) <= d && 255 * d <= bound
    ensures Abs(Step(soc, target, counted) - target) <= bound
  {
  }

  // Without a current the error shrinks by 1/256, truncated: by one at least from
  // 256 up, and below not at all.
  lemma StepShrinks(soc: int, target: Level)
    requires 0 <= soc <= FULL
    ensures Abs(Step(soc, target, 0) - target) == Abs(soc - target) - Abs(soc - target) / 256
    ensures Abs(soc - target) < 256 ==> Step(soc, target, 0) == soc
  {
  }

  // What is counted counts in full, and the rest of the error shrinks as it does
  // without a current, to the side it was on.
  lemma StepCounts(soc: int, target: Level, counted: int)
    requires 0 <= soc + counted <= FULL
    ensures var error, left := soc + counted - target, Step(soc, target, counted) - target;
            Abs(left) == Abs(error) - Abs(error) / 256 && (error >= 0 ==> left >= 0) && (error <= 0 ==> left <= 0)
  {
  }

  function Run(soc: int, target: int, counts: seq<int>): int {
    if counts == [] then soc else Step(Run(soc, target, counts[..|counts| - 1]), target, counts[|counts| - 1])
  }

  // Held at one voltage, with at most d ppm counted a step either way, the estimate
  // stays forever as near as it was, or within 255 * d.
  lemma {:induction false} StaysNear(soc: int, target: Level, counts: seq<int>, d: nat)
    requires forall i | 0 <= i < |counts| :: Abs(counts[i]) <= d
    ensures Abs(Run(soc, target, counts) - target) <= Max(Abs(soc - target), 255 * d)
  {
    if counts != [] {
      var r := counts[..|counts| - 1];
      StaysNear(soc, target, r, d);
      assert Abs(counts[|counts| - 1]) <= d;
      StepError(Run(soc, target, r), target, counts[|counts| - 1], Max(Abs(soc - target), 255 * d), d);
    }
  }

  // With no current it comes within 256 ppm, a ppm a step at least, and then rests.
  lemma {:induction false} Settles(soc: Level, target: Level, counts: seq<int>)
    requires forall i | 0 <= i < |counts| :: counts[i] == 0
    ensures 0 <= Run(soc, target, counts) <= FULL
    ensures Abs(Run(soc, target, counts) - target) <= Max(255, Abs(soc - target) - |counts|)
  {
    if counts != [] {
      var r := counts[..|counts| - 1];
      assert forall i | 0 <= i < |r| :: r[i] == counts[i];
      Settles(soc, target, r);
      StepShrinks(Run(soc, target, r), target);
    }
  }

  class Battery {
    const p: Params
    var started: bool
    var soc: int
    var lastMs: int
    var lastMv: int
    var lastMa: int

    ghost predicate Valid()
      reads this
    {
      0 <= soc <= FULL && 0 <= lastMs
    }

    constructor (p: Params)
      ensures Valid() && !started && this.p == p
    {
      this.p := p;
      started, soc, lastMs, lastMv, lastMa := false, 0, 0, 0, 0;
    }

    // battery_update(): a first sample, a clock that went back or a gap of over a
    // minute starts from the voltage; any other is a step.
    method Update(mv: int, ma: int, nowMs: nat)
      requires Valid()
      modifies this
      ensures Valid() && started && lastMs == nowMs && lastMv == mv && lastMa == ma
      ensures var target := p.Soc(p.Resting(mv, ma)); var dt := nowMs - old(lastMs);
              soc == if old(started) && 0 <= dt <= GAP_MS then Step(old(soc), target, Counted(ma, dt, p.capacityMah)) else target
    {
      hide Curve, TruncDiv;
      var target := p.SocFromOcv(p.Resting(mv, ma));
      p.SocMonotone(p.Resting(mv, ma), p.Resting(mv, ma));
      var dt := nowMs - lastMs;
      if !started || nowMs < lastMs || dt > GAP_MS {
        soc := target;
        started := true;
      } else {
        if p.capacityMah != 0 {
          soc := soc + Int32(TruncDiv(ma * dt * 10, p.capacityMah * 36));
        }
        soc := soc + TruncDiv(target - soc, 256);
        if soc < 0 { soc := 0; }
        if soc > FULL { soc := FULL; }
      }
      lastMs, lastMv, lastMa := nowMs, mv, ma;
    }
  }
}
