// The running sums behind the DCF-77 statistics (drivers/dcf77_p0log.c,
// drivers/dcf77_service.c): mean, variance and slope in integers, and the two
// square roots that turn a variance into a deviation.
module Stats {
  import opened Arith
  import opened Common

  const U64: nat := 0x1_0000_0000_0000_0000

  // ------------------------------------------------------------------- sums

  function Sum(s: seq<int>): int {
    if s == [] then 0 else Sum(s[..|s| - 1]) + s[|s| - 1]
  }

  function Dot(s: seq<int>, t: seq<int>): int
    requires |s| == |t|
  {
    if s == [] then 0 else Dot(s[..|s| - 1], t[..|t| - 1]) + s[|s| - 1] * t[|t| - 1]
  }

  lemma Snoc(s: seq<int>, t: seq<int>, x: int, y: int)
    requires |s| == |t|
    ensures Sum(s + [x]) == Sum(s) + x && Dot(s + [x], t + [y]) == Dot(s, t) + x * y
  {
    assert (s + [x])[..|s|] == s && (t + [y])[..|t|] == t;
  }

  // n times the sum of squares less the square of the sum: n * n times the variance.
  function Spread(s: seq<int>): int {
    |s| * Dot(s, s) - Sum(s) * Sum(s)
  }

  // The squared distances from x.
  function Distances(s: seq<int>, x: int): (r: int)
    ensures r >= 0
  {
    if s == [] then 0 else Distances(s[..|s| - 1], x) + (s[|s| - 1] - x) * (s[|s| - 1] - x)
  }

  lemma DistanceStep(n: int, a: int, q: int, x: int, y: int)
    ensures q - 2 * (x * a) + n * (x * x) + (y - x) * (y - x) == q + y * y - 2 * (x * (a + y)) + (n + 1) * (x * x)
  {
    assert (y - x) * (y - x) == y * y - 2 * (x * y) + x * x;
  }

  lemma {:induction false} DistancesAre(s: seq<int>, x: int)
    ensures Distances(s, x) == Dot(s, s) - 2 * (x * Sum(s)) + |s| * (x * x)
  {
    if s != [] {
      var r, y := s[..|s| - 1], s[|s| - 1];
      DistancesAre(r, x);
      DistanceStep(|r|, Sum(r), Dot(r, r), x, y);
    }
  }

  ghost predicate All(s: seq<int>, x: int) {
    forall i | 0 <= i < |s| :: s[i] == x
  }

  lemma {:induction false} DistancesNone(s: seq<int>, x: int)
    ensures Distances(s, x) == 0 <==> All(s, x)
  {
    if s != [] {
      var r, d := s[..|s| - 1], s[|s| - 1] - x;
      DistancesNone(r, x);
      PositiveSquare(d);
      assert s == r + [d + x];
    }
  }

  lemma SpreadStep(n: int, a: int, q: int, x: int)
    ensures (n + 1) * (q + x * x) - (a + x) * (a + x) == n * q - a * a + (q - 2 * (x * a) + n * (x * x))
  {
    assert (a + x) * (a + x) == a * a + 2 * (x * a) + x * x;
  }

  // Each further sample adds its squared distances from the ones before.
  lemma SpreadGrows(s: seq<int>, x: int)
    ensures Spread(s + [x]) == Spread(s) + Distances(s, x)
  {
    Snoc(s, s, x, x);
    DistancesAre(s, x);
    SpreadStep(|s|, Sum(s), Dot(s, s), x);
  }

  // The sum of squares is never less than Cauchy and Schwarz allow, and just that
  // only when all samples are one.
  lemma {:induction false} SpreadSign(s: seq<int>)
    ensures Spread(s) >= 0
    ensures Spread(s) == 0 <==> s == [] || All(s, s[0])
  {
    if s != [] {
      hide Spread;
      var r, x := s[..|s| - 1], s[|s| - 1];
      assert s == r + [x];
      SpreadSign(r);
      SpreadGrows(r, x);
      DistancesNone(r, x);
    }
  }

  // ------------------------------------------------------- mean and variance

  // What the two drivers report, from n samples: the mean truncated, the variance
  // with that mean, before it is clamped.
  function Mean(s: seq<int>): int
    requires s != []
  {
    TruncDiv(Sum(s), |s|)
  }

  function Variance(s: seq<int>): int
    requires s != []
  {
    TruncDiv(Dot(s, s), |s|) - Mean(s) * Mean(s)
  }

  lemma Regroup(n: int, k: int)
    ensures (n * k) * (n * k) == n * (n * (k * k))
  {
  }

  // n times the truncated mean, squared, against the square of the sum.
  lemma TruncatedSquare(a: int, n: nat)
    requires 0 < n
    ensures var m := TruncDiv(a, n); n * (n * (m * m)) <= a * a
  {
    var b: nat := if a < 0 then -a else a;
    Quotient(b, n);
    Magnitude(a, n);
    Squares(n * (b / n), b);
    Regroup(n, b / n);
  }

  lemma Magnitude(a: int, n: nat)
    requires 0 < n
    ensures var b := if a < 0 then -a else a; var m := TruncDiv(a, n);
            b * b == a * a && (b / n) * (b / n) == m * m
  {
  }

  lemma {:induction false} DotSelf(s: seq<int>)
    ensures Dot(s, s) >= 0
  {
    if s != [] {
      DotSelf(s[..|s| - 1]);
      PositiveSquare(s[|s| - 1]);
    }
  }

  // The clamp to 0 is never needed, though the mean is truncated.
  lemma VarianceSign(s: seq<int>)
    requires s != []
    ensures Variance(s) >= 0
  {
    hide TruncDiv;
    var n, m, q := |s|, Mean(s), Dot(s, s);
    SpreadSign(s);
    DotSelf(s);
    TruncatedSquare(Sum(s), n);
    Cancel(n, n * (m * m), q);
    PositiveSquare(m);
    Divided(n, m * m, q);
    TruncatedNat(q, n);
  }

  // What the mean's truncation leaves of the sum, and the mean square's of the sum
  // of squares.
  function MeanRest(s: seq<int>): int
    requires s != []
  {
    Sum(s) - |s| * Mean(s)
  }

  function SquareRest(s: seq<int>): int
    requires s != []
  {
    Dot(s, s) % |s|
  }

  lemma RestBounds(a: int, n: nat)
    requires 0 < n
    ensures var m := TruncDiv(a, n); var r := a - n * m; -(n as int) < r < n && (r > 0 ==> m >= 0) && (r < 0 ==> m <= 0)
  {
    Quotient(Abs(a), n);
  }

  lemma ExactAlgebra(n: int, q: int, k: int, f: int, m: int, r: int)
    requires q == n * f + k
    ensures n * (n * (f - m * m)) == n * q - (n * m + r) * (n * m + r) + 2 * (n * (m * r)) + r * r - n * k
  {
    Minus(n, f, m * m);
    Minus(n, n * f, n * (m * m));
    Plus(n, n * f, k);
    Regroup(n, m);
    assert (n * m + r) * (n * m + r) == (n * m) * (n * m) + 2 * (n * (m * r)) + r * r;
  }

  // What truncating costs, exactly (times n * n): a mean cut by r / n adds twice the
  // mean times the cut and the cut squared, and the mean square's own rest is lost.
  lemma VarianceExact(s: seq<int>)
    requires s != []
    ensures var n, m, r, k := |s|, Mean(s), MeanRest(s), SquareRest(s);
            && n * (n * Variance(s)) == Spread(s) + 2 * (n * (m * r)) + r * r - n * k
            && m * r >= 0 && -n < r < n && 0 <= k < n
  {
    hide TruncDiv, Dot, Sum;
    var n, q, m, r := |s|, Dot(s, s), Mean(s), MeanRest(s);
    DotSelf(s);
    TruncatedNat(q, n);
    Quotient(q, n);
    RestBounds(Sum(s), n);
    SignOf(m, r);
    ExactAlgebra(n, q, SquareRest(s), q / n, m, r);
  }

  lemma SignOf(m: int, r: int)
    requires (r > 0 ==> m >= 0) && (r < 0 ==> m <= 0)
    ensures m * r >= 0
  {
    if r >= 0 && m >= 0 { NatProduct(r, m); }
    else if r <= 0 && m <= 0 { NatProduct(-r, -m); assert m * r == (-m) * (-r); }
  }

  // A mean that is whole never overstates the variance: it is the true one's floor.
  lemma WholeMean(s: seq<int>)
    requires s != [] && MeanRest(s) == 0
    ensures Spread(s) - |s| * |s| < |s| * (|s| * Variance(s)) <= Spread(s)
  {
    hide Mean, MeanRest, SquareRest, Spread, Variance;
    VarianceExact(s);
    assert Mean(s) * 0 == 0 && |s| * 0 == 0;
    NatProduct(SquareRest(s), |s|);
    Times(|s|, SquareRest(s) + 1, |s|);
    Plus(|s|, SquareRest(s), 1);
  }

  // So the variance is reported less than one below and less than twice the mean's
  // size plus one above what it is (both times n * n).
  lemma VarianceError(s: seq<int>)
    requires s != []
    ensures var n, m := |s|, Abs(Mean(s));
            Spread(s) - n * n < n * (n * Variance(s)) < Spread(s) + n * (n * (2 * m + 1))
  {
    hide Mean, MeanRest, SquareRest, Spread, Variance;
    VarianceExact(s);
    var n, m, r, k := |s|, Mean(s), MeanRest(s), SquareRest(s);
    ErrorBounds(n, m, r, k);
  }

  lemma AbsProduct(m: int, r: int)
    requires m * r >= 0
    ensures m * r == Abs(m) * Abs(r) && r * r == Abs(r) * Abs(r)
  {
  }

  lemma RestUpper(n: nat, m: nat, r: nat)
    requires r < n
    ensures n * (m * r) <= n * (m * n) && r * r < n * n
  {
    Times(m, r, n);
    Times(n, m * r, m * n);
    Times(r, r, n);
    Times(n, r + 1, n);
    Plus(n, r, 1);
  }

  lemma Doubled(n: nat, m: nat)
    ensures n * (n * (2 * m + 1)) == 2 * (n * (m * n)) + n * n
  {
    Plus(n, 2 * m, 1);
    Plus(n, n * (2 * m), n);
    assert n * (2 * m) == 2 * (m * n);
    assert n * (2 * (m * n)) == 2 * (n * (m * n));
  }

  lemma Below(n: nat, k: nat)
    requires k < n
    ensures 0 <= n * k < n * n
  {
    Times(n, k + 1, n);
    Plus(n, k, 1);
    NatProduct(k, n);
  }

  lemma ErrorBounds(n: nat, m: int, r: int, k: int)
    requires 0 < n && m * r >= 0 && -(n as int) < r < n && 0 <= k < n
    ensures -(n * n) < 2 * (n * (m * r)) + r * r - n * k < n * (n * (2 * Abs(m) + 1))
  {
    AbsProduct(m, r);
    RestUpper(n, Abs(m), Abs(r));
    Doubled(n, Abs(m));
    Below(n, k);
    NatProduct(m * r, n);
    PositiveSquare(r);
  }

  // Two readings a millisecond apart, near a second: a deviation of 31 ms, not half
  // of one.
  lemma TruncationShows()
    ensures var s := [999, 1000];
            Mean(s) == 999 && Variance(s) == 999 && Spread(s) == 1 && IsRoot(31, Variance(s))
  {
    var s := [999, 1000];
    assert s[..1] == [999] && s[..1][..0] == [];
    assert Sum([999]) == 999 && Dot([999], [999]) == 998001;
    assert Sum(s) == 1999 && Dot(s, s) == 1998001;
  }

  // ------------------------------------------------------------ square roots

  predicate IsRoot(r: nat, v: nat) {
    r * r <= v < (r + 1) * (r + 1)
  }

  lemma RootUnique(r: nat, t: nat, v: nat)
    requires IsRoot(r, v) && IsRoot(t, v)
    ensures r == t
  {
    if r < t { Squares(r + 1, t); } else if t < r { Squares(t + 1, r); }
  }

  ghost predicate NotBelow(x: nat, v: nat) {
    v < (x + 1) * (x + 1)
  }

  function Newton(x: nat, v: nat): nat
    requires 0 < x
  {
    (x + v / x) / 2
  }

  // The same step in 64 bits.
  function Newton64(x: nat, v: nat): nat
    requires 0 < x
  {
    (x + v / x) % U64 / 2
  }

  function First64(v: nat): nat { (v + 1) % U64 / 2 }

  // One step of Newton's is not below the root; where it goes no lower, it is there.
  lemma NewtonStep(x: nat, v: nat)
    requires 0 < x
    ensures NotBelow(Newton(x, v), v) && (x <= Newton(x, v) ==> x * x <= v)
  {
    var q := v / x;
    var y := (x + q) / 2;
    Quotient(v, x);
    assert x + q + 1 <= 2 * (y + 1);
    Squares(x + q + 1, 2 * (y + 1));
    FourProduct(x, q + 1);
    Regroup(2, y + 1);
    Plus(x, q, 1);
    if x <= y {
      Scaled(x, q - x);
      Minus(x, q, x);
    }
  }

  // It fits 64 bits, short of the largest number.
  lemma NewtonFits(x: nat, v: nat)
    requires 0 < x <= v < U64 - 1 && NotBelow(x, v)
    ensures Newton64(x, v) == Newton(x, v) && Newton(x, v) > 0
  {
    Quotient(v, x);
    Divided(x, 1, v);
    NewtonSum(x, v / x, v);
  }

  lemma NewtonSum(x: nat, q: nat, v: nat)
    requires 0 < x <= v && x * q <= v && v < x * q + x && v < (x + 1) * (x + 1)
    ensures x + q <= v + 1
  {
    if x == v {
      if q >= 2 { Scaled(x, q - 1); Minus(x, q, 1); }
    } else {
      Grown(x);
      Scaled(x, q - (x + 2));
      Minus(x, q, x + 2);
      Bounded(x, q, v);
    }
  }

  lemma Grown(x: nat)
    ensures (x + 1) * (x + 1) == x * (x + 2) + 1
  {
  }

  lemma SelfQuotient(v: nat)
    requires 0 < v
    ensures v / v == 1
  {
  }

  // From x * q <= v and q <= x + 2.
  lemma Bounded(x: nat, q: nat, v: nat)
    requires 0 < x < v && x * q <= v && q <= x + 2
    ensures x + q <= v + 1
  {
    if q >= 2 {
      Scaled(x, q - 1);
      Minus(x, q, 1);
      FewerSum(x, q);
    }
  }

  lemma FewerSum(x: nat, q: nat)
    requires 0 < x && 0 < q
    ensures x + q <= x * q + 1
  {
    Minus(q - 1, x, 1);
    Minus(x, q, 1);
    NatProduct(x - 1, q - 1);
  }

  lemma FourProduct(a: int, b: int)
    ensures 4 * (a * b) <= (a + b) * (a + b)
  {
    PositiveSquare(a - b);
    assert (a - b) * (a - b) == a * a - 2 * (a * b) + b * b;
    assert (a + b) * (a + b) == a * a + 2 * (a * b) + b * b;
  }

  // A root of a 64-bit number has 32 bits.
  lemma RootFits(r: nat, v: nat)
    requires IsRoot(r, v) && v < U64
    ensures r < 0x1_0000_0000
  {
    if r >= 0x1_0000_0000 { Squares(0x1_0000_0000, r); }
  }

  datatype Root = Root(value: nat) | DivisionByZero

  // isqrt64(), in 64 bits: for the largest of them the first step wraps to 0, which
  // the next divides by.
  method Isqrt64(v: nat) returns (root: Root)
    requires v < U64
    ensures v < U64 - 1 ==> root.Root? && IsRoot(root.value, v) && root.value < 0x1_0000_0000
    ensures v == U64 - 1 ==> root == DivisionByZero
  {
    hide Newton, Newton64, First64, NotBelow, IsRoot;
    if v == 0 {
      RootOfNone();
      return Root(0);
    }
    var x, y := v, First64(v);
    NewtonFrom(v);
    while y < x
      invariant 0 < x <= v && (v == U64 - 1 ==> x == v && y == 0)
      invariant v < U64 - 1 ==> y == Newton(x, v) && NotBelow(x, v) && 0 < y
      decreases x
    {
      if v < U64 - 1 { NewtonStep(x, v); }
      x := y;
      if x == 0 { return DivisionByZero; }
      NewtonFits(x, v);
      y := Newton64(x, v);
    }
    NewtonStep(x, v);
    Arrived(x, v);
    RootFits(x, v);
    root := Root(x % 0x1_0000_0000);
  }

  lemma RootOfNone()
    ensures IsRoot(0, 0)
  {
  }

  lemma NewtonFrom(v: nat)
    requires 0 < v < U64
    ensures v < U64 - 1 ==> First64(v) == Newton(v, v) && NotBelow(v, v) && 0 < Newton(v, v)
    ensures v == U64 - 1 ==> First64(v) == 0
  {
    SelfQuotient(v);
    Grown(v);
    Scaled(v, v + 2);
  }

  lemma Arrived(x: nat, v: nat)
    requires NotBelow(x, v) && x * x <= v
    ensures IsRoot(x, v)
  {
  }

  // The square root dcf77_service_status() counts up to.
  method CountedRoot(v: nat) returns (r: nat)
    ensures IsRoot(r, v)
  {
    r := 0;
    while (r + 1) * (r + 1) <= v
      invariant r * r <= v
      decreases v - r * r
    {
      r := r + 1;
    }
  }

  // ---------------------------------------------------------------- the slope

  // Sums over a straight line k * y == p * x + b.
  lemma {:induction false} LineSums(xs: seq<int>, ys: seq<int>, k: int, p: int, b: int)
    requires |xs| == |ys| && forall i | 0 <= i < |xs| :: k * ys[i] == p * xs[i] + b
    ensures k * Sum(ys) == p * Sum(xs) + |xs| * b
    ensures k * Dot(xs, ys) == p * Dot(xs, xs) + b * Sum(xs)
  {
    if xs != [] {
      var n := |xs| - 1;
      assert forall i | 0 <= i < n :: k * ys[..n][i] == p * xs[..n][i] + b;
      LineSums(xs[..n], ys[..n], k, p, b);
      LineStep(xs[n], ys[n], k, p, b);
      Plus(k, Sum(ys[..n]), ys[n]);
      Plus(p, Sum(xs[..n]), xs[n]);
      Plus(k, Dot(xs[..n], ys[..n]), xs[n] * ys[n]);
      Plus(p, Dot(xs[..n], xs[..n]), xs[n] * xs[n]);
      Plus(b, Sum(xs[..n]), xs[n]);
      Plus(b, n, 1);
    }
  }

  lemma LineStep(x: int, y: int, k: int, p: int, b: int)
    requires k * y == p * x + b
    ensures k * (x * y) == p * (x * x) + b * x
  {
    assert k * (x * y) == x * (k * y);
    assert x * (p * x + b) == x * (p * x) + x * b;
  }

  // What the drift is computed from: the slope of y over x is Codrift over Spread.
  function Codrift(xs: seq<int>, ys: seq<int>): int
    requires |xs| == |ys|
  {
    |xs| * Dot(xs, ys) - Sum(xs) * Sum(ys)
  }

  // Each further sample adds, for every one before, the product of how far it is
  // from it in x and in y: the slope is that of the samples pair by pair, each pair
  // weighted by the square of its distance in x.
  function Products(xs: seq<int>, ys: seq<int>, x: int, y: int): int
    requires |xs| == |ys|
  {
    if xs == [] then 0
    else Products(xs[..|xs| - 1], ys[..|ys| - 1], x, y) + (xs[|xs| - 1] - x) * (ys[|ys| - 1] - y)
  }

  lemma ProductStep(n: int, a: int, b: int, q: int, x: int, y: int, u: int, v: int)
    ensures q - x * b - y * a + n * (x * y) + (u - x) * (v - y) ==
            q + u * v - x * (b + v) - y * (a + u) + (n + 1) * (x * y)
  {
    assert (u - x) * (v - y) == u * v - x * v - y * u + x * y;
  }

  lemma {:induction false} ProductsAre(xs: seq<int>, ys: seq<int>, x: int, y: int)
    requires |xs| == |ys|
    ensures Products(xs, ys, x, y) == Dot(xs, ys) - x * Sum(ys) - y * Sum(xs) + |xs| * (x * y)
  {
    if xs != [] {
      var n := |xs| - 1;
      ProductsAre(xs[..n], ys[..n], x, y);
      ProductStep(n, Sum(xs[..n]), Sum(ys[..n]), Dot(xs[..n], ys[..n]), x, y, xs[n], ys[n]);
    }
  }

  lemma CodriftStep(n: int, a: int, b: int, q: int, x: int, y: int, m: int, c: int, d: int, r: int)
    requires m == n + 1 && c == a + x && d == b + y && r == q + x * y
    ensures m * r - c * d == n * q - a * b + (q - x * b - y * a + n * (x * y))
  {
    assert (a + x) * (b + y) == a * b + a * y + x * b + x * y;
  }

  lemma CodriftGrows(xs: seq<int>, ys: seq<int>, x: int, y: int)
    requires |xs| == |ys|
    ensures Codrift([], []) == 0
    ensures Codrift(xs + [x], ys + [y]) == Codrift(xs, ys) + Products(xs, ys, x, y)
  {
    Snoc(xs, ys, x, y);
    Snoc(ys, xs, y, x);
    ProductsAre(xs, ys, x, y);
    var us, vs := xs + [x], ys + [y];
    CodriftStep(|xs|, Sum(xs), Sum(ys), Dot(xs, ys), x, y, |us|, Sum(us), Sum(vs), Dot(us, vs));
    hide Sum, Dot, Products;
  }

  lemma LineExact(xs: seq<int>, ys: seq<int>, k: int, p: int, b: int)
    requires |xs| == |ys| && forall i | 0 <= i < |xs| :: k * ys[i] == p * xs[i] + b
    ensures k * Codrift(xs, ys) == p * Spread(xs)
  {
    LineSums(xs, ys, k, p, b);
    LineAlgebra(|xs|, Sum(xs), Sum(ys), Dot(xs, xs), Dot(xs, ys), k, p, b);
  }

  lemma LineAlgebra(n: int, sx: int, sy: int, sxx: int, sxy: int, k: int, p: int, b: int)
    requires k * sy == p * sx + n * b && k * sxy == p * sxx + b * sx
    ensures k * (n * sxy - sx * sy) == p * (n * sxx - sx * sx)
  {
    Minus(k, n * sxy, sx * sy);
    Minus(p, n * sxx, sx * sx);
    assert k * (n * sxy) == n * (k * sxy);
    assert k * (sx * sy) == sx * (k * sy);
    Plus(n, p * sxx, b * sx);
    Plus(sx, p * sx, n * b);
    assert n * (p * sxx) == p * (n * sxx) && n * (b * sx) == sx * (n * b) && sx * (p * sx) == p * (sx * sx);
  }

  // Quotients of equal ratios truncate alike.
  lemma SameQuotient(a: int, b: int, c: int, d: int)
    requires 0 < b && 0 < d && d * a == c * b
    ensures TruncDiv(a, b) == TruncDiv(c, d)
  {
    if a >= 0 {
      SameSign(a, b, c, d);
      SameFloor(a, b, c, d);
    } else {
      SameSign(-a, b, -c, d);
      SameFloor(-a, b, -c, d);
      if c == 0 { Scaled(d, a); }
    }
  }

  lemma SameSign(a: nat, b: nat, c: int, d: nat)
    requires 0 < b && 0 < d && d * a == c * b
    ensures c >= 0
  {
    Scaled(b, c);
    NatProduct(a, d);
  }

  lemma SameFloor(a: nat, b: nat, c: nat, d: nat)
    requires 0 < b && 0 < d && d * a == c * b
    ensures a / b == c / d
  {
    Quotient(a, b);
    Quotient(c, d);
    FloorBelow(a, b, c, d);
    FloorBelow(c, d, a, b);
  }

  lemma FloorBelow(a: nat, b: nat, c: nat, d: nat)
    requires 0 < b && 0 < d && d * a == c * b
    ensures a / b <= c / d
  {
    var q := a / b;
    Quotient(a, b);
    Times(d, b * q, a);
    assert d * (b * q) == b * (d * q);
    assert c * b == b * c;
    Cancel(b, d * q, c);
    Divided(d, q, c);
  }

  // ------------------------------------------------------- the drivers' state

  const LIMIT: int := 0x8000_0000

  ghost predicate Small(s: seq<int>) {
    forall i | 0 <= i < |s| :: -LIMIT <= s[i] <= LIMIT
  }

  lemma {:induction false} SmallVariance(s: seq<int>)
    requires s != [] && Small(s)
    ensures Variance(s) < U64 - 1
  {
    hide TruncDiv;
    SmallDot(s);
    DotSelf(s);
    TruncatedNat(Dot(s, s), |s|);
    Quotient(Dot(s, s), |s|);
    Cancel(|s|, Dot(s, s) / |s|, LIMIT * LIMIT);
    PositiveSquare(Mean(s));
  }

  lemma {:induction false} SmallDot(s: seq<int>)
    requires Small(s)
    ensures Dot(s, s) <= |s| * (LIMIT * LIMIT)
  {
    if s != [] {
      var r, x := s[..|s| - 1], s[|s| - 1];
      SmallDot(r);
      Squares(if x < 0 then -x else x, LIMIT);
    }
  }

  // The error of DCF-77 time against the network's (p0log), or of its marks against
  // the GPS pulse (service): count, sums and extremes.
  class Running {
    var n: nat
    var sum: int
    var sumSq: int
    var min: int
    var max: int
    ghost var samples: seq<int>

    ghost predicate Valid()
      reads this
    {
      && n == |samples| && sum == Sum(samples) && sumSq == Dot(samples, samples)
      && (samples != [] ==> min in samples && max in samples && forall i | 0 <= i < n :: min <= samples[i] <= max)
    }

    constructor ()
      ensures Valid() && samples == []
    {
      n, sum, sumSq, min, max, samples := 0, 0, 0, 0, 0, [];
    }

    method Add(e: int)
      requires Valid()
      modifies this
      ensures Valid() && samples == old(samples) + [e]
    {
      hide Sum, Dot;
      Snoc(samples, samples, e, e);
      if n == 0 { min, max := e, e; }
      if e < min { min := e; }
      if e > max { max := e; }
      n := n + 1;
      sum := sum + e;
      sumSq := sumSq + e * e;
      samples := samples + [e];
    }

    // The mean and the variance, clamped as the source clamps it: in vain.
    method MeanVariance() returns (mean: int, variance: nat)
      requires Valid() && 0 < n
      ensures mean == Mean(samples) && variance == Variance(samples)
    {
      VarianceSign(samples);
      mean := TruncDiv(sum, n);
      var v := TruncDiv(sumSq, n) - mean * mean;
      if v < 0 { v := 0; }
      variance := v;
    }

    // dcf77_p0log_render(), of 32-bit samples.
    method Render() returns (mean: int, sd: Root)
      requires Valid() && 0 < n && Small(samples)
      ensures mean == Mean(samples) && sd.Root? && Variance(samples) >= 0 && IsRoot(sd.value, Variance(samples))
    {
      var variance;
      mean, variance := MeanVariance();
      SmallVariance(samples);
      sd := Isqrt64(variance);
    }

    // dcf77_service_status()
    method Status() returns (mean: int, sd: nat)
      requires Valid() && 0 < n
      ensures mean == Mean(samples) && Variance(samples) >= 0 && IsRoot(sd, Variance(samples))
    {
      var variance;
      mean, variance := MeanVariance();
      sd := CountedRoot(variance);
    }
  }

  // The drift of the local clock: offsets y against times x.
  class Drift {
    var n: nat
    var sumX: int
    var sumY: int
    var sumXX: int
    var sumXY: int
    ghost var xs: seq<int>
    ghost var ys: seq<int>

    ghost predicate Valid()
      reads this
    {
      n == |xs| == |ys| && sumX == Sum(xs) && sumY == Sum(ys) && sumXX == Dot(xs, xs) && sumXY == Dot(xs, ys)
    }

    constructor ()
      ensures Valid() && xs == []
    {
      n, sumX, sumY, sumXX, sumXY, xs, ys := 0, 0, 0, 0, 0, [], [];
    }

    method Add(x: int, y: int)
      requires Valid()
      modifies this
      ensures Valid() && xs == old(xs) + [x] && ys == old(ys) + [y]
    {
      Snoc(xs, xs, x, x);
      Snoc(xs, ys, x, y);
      Snoc(ys, ys, y, y);
      n := n + 1;
      sumX, sumY, sumXX, sumXY := sumX + x, sumY + y, sumXX + x * x, sumXY + x * y;
      xs, ys := xs + [x], ys + [y];
    }

    // The drift in tenths of a part per million: none of fewer than three samples,
    // or when all were taken at one time.
    method PpmTenths() returns (ppm: Option<int>)
      requires Valid()
      ensures ppm.None? <==> n < 3 || All(xs, xs[0])
      ensures ppm.Some? ==> Spread(xs) > 0 && ppm.value == TruncDiv(Codrift(xs, ys) * 10000, Spread(xs))
    {
      if n < 3 { return None; }
      SpreadSign(xs);
      var den := n * sumXX - sumX * sumX;
      var num := n * sumXY - sumX * sumY;
      if den == 0 { return None; }
      ppm := Some(TruncDiv(num * 10000, den));
    }
  }

  // Of samples on a straight line the drift is the line's own: p / k milliseconds a
  // second, in tenths of a ppm.
  lemma DriftExact(xs: seq<int>, ys: seq<int>, k: nat, p: int, b: int)
    requires |xs| == |ys| && 0 < k && Spread(xs) > 0
    requires forall i | 0 <= i < |xs| :: k * ys[i] == p * xs[i] + b
    ensures TruncDiv(Codrift(xs, ys) * 10000, Spread(xs)) == TruncDiv(p * 10000, k)
  {
    hide Sum, Dot, TruncDiv, Codrift, Spread;
    LineExact(xs, ys, k, p, b);
    assert k * (Codrift(xs, ys) * 10000) == (k * Codrift(xs, ys)) * 10000;
    assert p * 10000 * Spread(xs) == (p * Spread(xs)) * 10000;
    SameQuotient(Codrift(xs, ys) * 10000, Spread(xs), p * 10000, k);
  }
}
