// Bresenham lines (canvas1_line in drivers/canvas1.c).
module CanvasLine {
  import opened Arith
  import opened Bits
  import opened Canvas

  datatype LineState = LineState(x: int, y: int, err: int)

  // One step of the loop; dy is negative or zero.
  function LineNext(dx: int, dy: int, sx: int, sy: int, s: LineState): LineState {
    var e2 := 2 * s.err;
    var s1 := if e2 >= dy then s.(err := s.err + dy, x := s.x + sx) else s;
    if e2 <= dx then s1.(err := s1.err + dx, y := s1.y + sy) else s1
  }

  function LineAt(x0: int, y0: int, x1: int, y1: int, k: nat): LineState {
    var dx: int, dy: int := Abs(x1 - x0), Abs(y1 - y0);
    if k == 0 then LineState(x0, y0, dx - dy)
    else LineNext(dx, -dy, if x0 < x1 then 1 else -1, if y0 < y1 then 1 else -1, LineAt(x0, y0, x1, y1, k - 1))
  }

  function LineLength(x0: int, y0: int, x1: int, y1: int): nat {
    var dx, dy := Abs(x1 - x0), Abs(y1 - y0);
    if dx >= dy then dx else dy
  }

  // ------------------------------------------------------------ arithmetic

  // a / b rounded to the nearest integer, halves up.
  function Nearest(a: nat, b: nat): nat {
    if b == 0 then 0 else (2 * a + b) / (2 * b)
  }

  lemma NearestUnique(a: nat, b: nat, j: nat, jb: int)
    requires b > 0 && jb == j * b && b + 2 * (jb - a) > 0 && 2 * (jb - a) <= b
    ensures Nearest(a, b) == j
  {
    assert (2 * b) * j == 2 * jb;
    QuotientIs(2 * a + b, 2 * b, j, 2 * a + b - 2 * jb);
  }

  lemma NearestExact(a: nat, b: nat)
    requires a > 0
    ensures Nearest(a * b, a) == b
  {
    NearestUnique(a * b, a, b, b * a);
  }

  // ------------------------------------------------------ the error invariant

  // After i steps in x and j in y, k in all, with p == j * dx and q == i * dy:
  // err is exact, the major axis moved at every step, and the minor axis is at
  // most half a pixel from the line.
  ghost predicate Tracks(dx: nat, dy: nat, k: nat, i: nat, j: nat, err: int, p: int, q: int) {
    && err == p - q + dx - dy
    && (dx >= dy ==> i == k && if dx > 0 then 0 < 2 * (p - q) + dx <= 2 * dx else j == 0)
    && (dx < dy ==> j == k && 0 <= 2 * (p - q) + dy < 2 * dy)
  }

  lemma Distribute(i: int, d: int)
    ensures (i + 1) * d == i * d + d
  {
  }

  lemma {:induction false} LineTracks(x0: int, y0: int, x1: int, y1: int, k: nat)
    returns (i: nat, j: nat, p: int, q: int)
    requires k <= LineLength(x0, y0, x1, y1)
    ensures p == j * Abs(x1 - x0) && q == i * Abs(y1 - y0)
    ensures var s := LineAt(x0, y0, x1, y1, k);
            && s.x == (if x0 < x1 then x0 + i else x0 - i) && s.y == (if y0 < y1 then y0 + j else y0 - j)
            && Tracks(Abs(x1 - x0), Abs(y1 - y0), k, i, j, s.err, p, q)
  {
    if k == 0 {
      i, j, p, q := 0, 0, 0, 0;
    } else {
      i, j, p, q := LineTracks(x0, y0, x1, y1, k - 1);
      var s := LineAt(x0, y0, x1, y1, k - 1);
      Distribute(i, Abs(y1 - y0));
      Distribute(j, Abs(x1 - x0));
      if 2 * s.err + Abs(y1 - y0) >= 0 { i, q := i + 1, q + Abs(y1 - y0); }
      if 2 * s.err <= Abs(x1 - x0) { j, p := j + 1, p + Abs(x1 - x0); }
    }
  }

  lemma LineExactX(x0: int, y0: int, x1: int, y1: int, k: nat)
    requires k <= LineLength(x0, y0, x1, y1) && Abs(x1 - x0) >= Abs(y1 - y0)
    ensures var dx, dy := Abs(x1 - x0), Abs(y1 - y0);
            var j := Nearest(k * dy, dx);
            && LineAt(x0, y0, x1, y1, k).x == (if x0 < x1 then x0 + k else x0 - k)
            && LineAt(x0, y0, x1, y1, k).y == (if y0 < y1 then y0 + j else y0 - j)
            && 2 * Abs(j * dx - k * dy) <= dx
  {
    hide LineAt;
    var i, j, p, q := LineTracks(x0, y0, x1, y1, k);
    if Abs(x1 - x0) > 0 { NearestUnique(q, Abs(x1 - x0), j, p); }
  }

  lemma LineExactY(x0: int, y0: int, x1: int, y1: int, k: nat)
    requires k <= LineLength(x0, y0, x1, y1) && Abs(x1 - x0) < Abs(y1 - y0)
    ensures var dx, dy := Abs(x1 - x0), Abs(y1 - y0);
            var i := Nearest(k * dx, dy);
            && LineAt(x0, y0, x1, y1, k).x == (if x0 < x1 then x0 + i else x0 - i)
            && LineAt(x0, y0, x1, y1, k).y == (if y0 < y1 then y0 + k else y0 - k)
            && 2 * Abs(k * dx - i * dy) <= dy
  {
    hide LineAt;
    var i, j, p, q := LineTracks(x0, y0, x1, y1, k);
    NearestUnique(p, Abs(y1 - y0), i, q);
  }

  // Where step k of a line is: one pixel a step along the longer axis and, along
  // the shorter, the true line's position rounded to the nearest pixel -- at
  // most half a pixel off, a half going away from the start.
  lemma LineExact(x0: int, y0: int, x1: int, y1: int, k: nat)
    requires k <= LineLength(x0, y0, x1, y1)
    ensures var dx, dy := Abs(x1 - x0), Abs(y1 - y0);
            var i, j := if dx >= dy then k else Nearest(k * dx, dy), if dx >= dy then Nearest(k * dy, dx) else k;
            && LineAt(x0, y0, x1, y1, k).x == (if x0 < x1 then x0 + i else x0 - i)
            && LineAt(x0, y0, x1, y1, k).y == (if y0 < y1 then y0 + j else y0 - j)
            && 2 * Abs(j * dx - i * dy) <= LineLength(x0, y0, x1, y1)
  {
    hide LineAt, Nearest;
    if Abs(x1 - x0) >= Abs(y1 - y0) {
      LineExactX(x0, y0, x1, y1, k);
    } else {
      LineExactY(x0, y0, x1, y1, k);
    }
  }

  // The far end point is reached at the last step and not before.
  lemma LineEnds(x0: int, y0: int, x1: int, y1: int, k: nat)
    requires k <= LineLength(x0, y0, x1, y1)
    ensures (LineAt(x0, y0, x1, y1, k).x == x1 && LineAt(x0, y0, x1, y1, k).y == y1) <==> k == LineLength(x0, y0, x1, y1)
  {
    var dx, dy := Abs(x1 - x0), Abs(y1 - y0);
    LineExact(x0, y0, x1, y1, k);
    if dx >= dy {
      if dx > 0 { NearestExact(dx, dy); }
    } else {
      NearestExact(dy, dx);
    }
  }

  // ------------------------------------------------------------- the drawing

  // The pixels of the first n steps.
  ghost function LinePath(x0: int, y0: int, x1: int, y1: int, n: nat): seq<Point> {
    if n == 0 then []
    else
      var s := LineAt(x0, y0, x1, y1, n - 1);
      LinePath(x0, y0, x1, y1, n - 1) + [Point(s.x, s.y)]
  }

  lemma LineStep(x0: int, y0: int, x1: int, y1: int, k: nat, s: LineState)
    requires s == LineAt(x0, y0, x1, y1, k)
    ensures LinePath(x0, y0, x1, y1, k + 1) == LinePath(x0, y0, x1, y1, k) + [Point(s.x, s.y)]
    ensures LineAt(x0, y0, x1, y1, k + 1) ==
            LineNext(if x1 > x0 then x1 - x0 else x0 - x1, if y1 > y0 then y0 - y1 else y1 - y0,
                     if x0 < x1 then 1 else -1, if y0 < y1 then 1 else -1, s)
  {
  }

  // The loop's two tests and moves.
  method Advance(dx: int, dy: int, sx: int, sy: int, x0: int, y0: int, err0: int) returns (x: int, y: int, err: int)
    ensures LineState(x, y, err) == LineNext(dx, dy, sx, sy, LineState(x0, y0, err0))
  {
    x, y, err := x0, y0, err0;
    var e2 := 2 * err;
    if e2 >= dy { err, x := err + dy, x + sx; }
    if e2 <= dx { err, y := err + dx, y + sy; }
  }

  lemma LineBegins(c: Canvas, stride: nat, pattern: Pattern, x0: int, y0: int, x1: int, y1: int)
    ensures LineAt(x0, y0, x1, y1, 0) ==
            LineState(x0, y0, (if x1 > x0 then x1 - x0 else x0 - x1) + if y1 > y0 then y0 - y1 else y1 - y0)
    ensures forall px, py, before: bool :: Plot(c, stride, pattern, LinePath(x0, y0, x1, y1, 0), px, py, before) == before
  {
  }

  // Draws the steps 0..max(|dx|, |dy|), both ends included, and stops.
  method Line(c: Canvas, fb: array2<byte>, x0: int, y0: int, x1: int, y1: int, pattern: Pattern)
    requires Fits(c, fb)
    modifies fb
    ensures forall px, py | InBuffer(fb, px, py) ::
              Pixel(fb, px, py) ==
              Plot(c, fb.Length1, pattern, LinePath(x0, y0, x1, y1, LineLength(x0, y0, x1, y1) + 1),
                   px, py, old(Pixel(fb, px, py)))
  {
    hide LineAt, LinePath, LineNext, LineLength, Nearest, Pixel, Plot, InBuffer;
    var dx, sx := if x1 > x0 then x1 - x0 else x0 - x1, if x0 < x1 then 1 else -1;
    var dy, sy := if y1 > y0 then y0 - y1 else y1 - y0, if y0 < y1 then 1 else -1;
    var x, y, err := x0, y0, dx + dy;
    ghost var n := LineLength(x0, y0, x1, y1);
    ghost var k := 0;
    LineBegins(c, fb.Length1, pattern, x0, y0, x1, y1);
    while true
      invariant k <= n
      invariant LineAt(x0, y0, x1, y1, k) == LineState(x, y, err)
      invariant forall px, py | InBuffer(fb, px, py) ::
                  Pixel(fb, px, py) == Plot(c, fb.Length1, pattern, LinePath(x0, y0, x1, y1, k), px, py, old(Pixel(fb, px, py)))
      decreases n - k
    {
      PutNext(c, fb, x, y, pattern, LinePath(x0, y0, x1, y1, k));
      LineStep(x0, y0, x1, y1, k, LineState(x, y, err));
      LineEnds(x0, y0, x1, y1, k);
      if x == x1 && y == y1 { break; }
      x, y, err := Advance(dx, dy, sx, sy, x, y, err);
      k := k + 1;
    }
  }
}
