// Midpoint circles (canvas1_circle in drivers/canvas1.c).
module CanvasCircle {
  import opened Arith
  import opened Bits
  import opened Canvas

  datatype CircleState = CircleState(x: int, y: nat, err: int)

  function CircleNext(s: CircleState): CircleState {
    var y := s.y + 1;
    if s.err < 0 then CircleState(s.x, y, s.err + 2 * y + 1)
    else CircleState(s.x - 1, y, s.err + 2 * (y - (s.x - 1)) + 1)
  }

  // x is the square root of n rounded to the nearest integer.
  predicate RoundedRoot(x: nat, n: int) {
    (x * x - x < n <= x * x + x) || (x == 0 && n == 0)
  }

  // (x, y) is the pixel a circle of radius r has at height y, 0 <= y <= x.
  predicate OnOctant(r: nat, x: int, y: int) {
    0 <= y <= x && RoundedRoot(x, r * r - y * y)
  }

  ghost predicate CircleInv(r: nat, s: CircleState) {
    && -1 <= s.x && (s.y == 0 ==> s.x == r)
    && s.err == (s.y + 1) * (s.y + 1) + s.x * s.x - s.x - r * r
    && r * r - s.y * s.y <= s.x * s.x + s.x
    && (s.x >= s.y ==> OnOctant(r, s.x, s.y))
  }

  lemma CircleStepKeeps(r: nat, s: CircleState)
    requires CircleInv(r, s) && s.x >= s.y
    ensures CircleInv(r, CircleNext(s))
  {
    NextSquare(s.y);
    NextSquare(s.y + 1);
    NextSquare(s.x - 1);
  }

  lemma RoundedRootUnique(a: nat, b: nat, n: int)
    requires RoundedRoot(a, n) && RoundedRoot(b, n)
    ensures a == b
  {
    if a < b {
      NextSquare(b - 1);
      Squares(a, b - 1);
    } else if b < a {
      NextSquare(a - 1);
      Squares(b, a - 1);
    }
  }

  lemma OctantUnique(r: nat, a: int, b: int, y: int)
    ensures OnOctant(r, a, y) && OnOctant(r, b, y) ==> a == b
  {
    if OnOctant(r, a, y) && OnOctant(r, b, y) {
      RoundedRootUnique(a, b, r * r - y * y);
    }
  }

  lemma NextSquare(a: int)
    ensures (a + 1) * (a + 1) == a * a + 2 * a + 1
  {
  }

  // The eight points drawn for one octant point.
  function Quad(cx: int, cy: int, a: int, b: int): seq<Point> {
    [Point(cx + a, cy + b), Point(cx - a, cy + b), Point(cx + a, cy - b), Point(cx - a, cy - b)]
  }

  function Octants(cx: int, cy: int, x: int, y: int): seq<Point> {
    Quad(cx, cy, x, y) + Quad(cx, cy, y, x)
  }

  ghost function CirclePath(cx: int, cy: int, s: CircleState): seq<Point>
    decreases s.x - s.y + 1
  {
    if s.x < s.y then [] else Octants(cx, cy, s.x, s.y) + CirclePath(cx, cy, CircleNext(s))
  }

  function CircleStart(r: nat): CircleState { CircleState(r, 0, 1 - r) }

  lemma {:induction false} CirclePathMeaning(cx: int, cy: int, r: nat, s: CircleState, p: Point)
    requires CircleInv(r, s)
    ensures p in CirclePath(cx, cy, s) <==>
            var a, b := Abs(p.x - cx), Abs(p.y - cy);
            var hi, lo := if a >= b then a else b, if a >= b then b else a;
            s.y <= lo && OnOctant(r, hi, lo)
    decreases s.x - s.y + 1
  {
    var a, b := Abs(p.x - cx), Abs(p.y - cy);
    var hi, lo := if a >= b then a else b, if a >= b then b else a;
    if s.x < s.y {
      PastDiagonal(r, s, hi, lo);
    } else {
      CircleStepKeeps(r, s);
      CirclePathMeaning(cx, cy, r, CircleNext(s), p);
      OctantsMeaning(cx, cy, s.x, s.y, p);
      OctantUnique(r, hi, s.x, lo);
    }
  }

  // Where the loop stops, nothing of the octant is left.
  lemma PastDiagonal(r: nat, s: CircleState, hi: int, lo: int)
    requires CircleInv(r, s) && s.x < s.y
    ensures !(s.y <= lo && OnOctant(r, hi, lo))
  {
    if s.y <= lo && OnOctant(r, hi, lo) {
      Squares(s.y, lo);
      if s.x >= 0 { Squares(s.x, s.y - 1); }
      Squares(s.y - 1, hi - 1);
      NextSquare(s.y - 1);
      NextSquare(hi - 1);
      assert false;
    }
  }

  lemma OctantsMeaning(cx: int, cy: int, x: int, y: int, p: Point)
    requires 0 <= y <= x
    ensures p in Octants(cx, cy, x, y) <==>
            var a, b := Abs(p.x - cx), Abs(p.y - cy);
            (a == x && b == y) || (a == y && b == x)
  {
    assert forall a: int, b: int :: p in Quad(cx, cy, a, b) <==>
        (p.x == cx + a || p.x == cx - a) && (p.y == cy + b || p.y == cy - b);
  }

  // The circle's outline is, in every octant and at every height up to the
  // diagonal, the pixel nearest to the true circle -- all of them, and no other.
  lemma CircleOutline(cx: int, cy: int, r: nat, p: Point)
    ensures p in CirclePath(cx, cy, CircleStart(r)) <==>
            var a, b := Abs(p.x - cx), Abs(p.y - cy);
            OnOctant(r, if a >= b then a else b, if a >= b then b else a)
  {
    CirclePathMeaning(cx, cy, r, CircleStart(r), p);
  }

  method PutQuad(c: Canvas, fb: array2<byte>, cx: int, cy: int, a: int, b: int, pattern: Pattern, ghost pts: seq<Point>)
    requires Fits(c, fb)
    modifies fb
    ensures forall px, py, before: bool
        | InBuffer(fb, px, py) && old(Pixel(fb, px, py)) == Plot(c, fb.Length1, pattern, pts, px, py, before) ::
              Pixel(fb, px, py) == Plot(c, fb.Length1, pattern, pts + Quad(cx, cy, a, b), px, py, before)
  {
    ghost var p0, p1, p2, p3 := Point(cx + a, cy + b), Point(cx - a, cy + b), Point(cx + a, cy - b), Point(cx - a, cy - b);
    PutNext(c, fb, cx + a, cy + b, pattern, pts);
    PutNext(c, fb, cx - a, cy + b, pattern, pts + [p0]);
    PutNext(c, fb, cx + a, cy - b, pattern, pts + [p0] + [p1]);
    PutNext(c, fb, cx - a, cy - b, pattern, pts + [p0] + [p1] + [p2]);
    assert pts + [p0] + [p1] + [p2] + [p3] == pts + Quad(cx, cy, a, b);
  }

  method Circle(c: Canvas, fb: array2<byte>, cx: int, cy: int, r: int, pattern: Pattern)
    requires Fits(c, fb)
    modifies fb
    ensures forall px, py | InBuffer(fb, px, py) ::
              Pixel(fb, px, py) == if r < 0 then old(Pixel(fb, px, py))
                                   else Plot(c, fb.Length1, pattern, CirclePath(cx, cy, CircleStart(r)),
                                             px, py, old(Pixel(fb, px, py)))
  {
    if r < 0 { return; }
    var x, y, err := r, 0, 1 - r;
    ghost var path := CirclePath(cx, cy, CircleStart(r));
    ghost var done: seq<Point>, rest := [], path;
    while x >= y
      invariant 0 <= y && rest == CirclePath(cx, cy, CircleState(x, y, err)) && path == done + rest
      invariant forall px, py | InBuffer(fb, px, py) ::
                  Pixel(fb, px, py) == Plot(c, fb.Length1, pattern, done, px, py, old(Pixel(fb, px, py)))
      decreases x - y + 1
    {
      PutQuad(c, fb, cx, cy, x, y, pattern, done);
      PutQuad(c, fb, cx, cy, y, x, pattern, done + Quad(cx, cy, x, y));
      ghost var next := CircleNext(CircleState(x, y, err));
      assert rest == Octants(cx, cy, x, y) + CirclePath(cx, cy, next);
      done, rest := done + Quad(cx, cy, x, y) + Quad(cx, cy, y, x), CirclePath(cx, cy, next);
      y := y + 1;
      if err < 0 {
        err := err + 2 * y + 1;
      } else {
        x := x - 1;
        err := err + 2 * (y - x) + 1;
      }
      assert next == CircleState(x, y, err);
    }
    assert done == path;
  }
}
