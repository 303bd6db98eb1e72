// Drawing on a 1-bpp buffer at any pixel (drivers/canvas1.c).
//
// The buffer is `fb[row, byte]`: row y's byte x/8 holds pixels x..x+7, the
// leftmost in bit 0. A canvas is a w x h window whose origin lies at (ox, oy)
// in the buffer; every call takes tile coordinates and clips to the window.
module Canvas {
  import opened Bits

  datatype Canvas = Canvas(w: nat, h: nat, ox: int, oy: int)

  datatype Pattern = White | Black | Grey

  datatype Point = Point(x: int, y: int)

  ghost predicate InBuffer(fb: array2<byte>, px: int, py: int) {
    0 <= px < 8 * fb.Length1 && 0 <= py < fb.Length0
  }

  ghost predicate Pixel(fb: array2<byte>, px: int, py: int)
    requires InBuffer(fb, px, py)
    reads fb
  {
    Bit(fb[py, px / 8], px % 8)
  }

  // The window's last row lies in the buffer. Nothing else is asked of a
  // caller: left, right and top are clipped against the buffer itself.
  ghost predicate Fits(c: Canvas, fb: array2<byte>) {
    c.oy + c.h <= fb.Length0
  }

  // Whether a pattern sets buffer pixel (px, py).
  predicate PatternOn(pattern: Pattern, px: int, py: int) {
    pattern == Black || (pattern == Grey && (px + py) % 2 == 1)
  }

  // White sets no pixel, black every one, and grey every other one both ways, the
  // corner not among them.
  lemma PatternsAre(px: int, py: int)
    ensures !PatternOn(White, px, py) && PatternOn(Black, px, py) && !PatternOn(Grey, 0, 0)
    ensures PatternOn(Grey, px + 1, py) == PatternOn(Grey, px, py + 1) == !PatternOn(Grey, px, py)
  {
  }

  // Tile pixel p passes both clips.
  ghost predicate Drawable(c: Canvas, stride: nat, p: Point) {
    && 0 <= p.x < c.w && 0 <= p.y < c.h
    && 0 <= p.x + c.ox < 8 * stride && 0 <= p.y + c.oy
  }

  // Drawing tile pixel p touches buffer pixel (px, py).
  ghost predicate Hits(c: Canvas, stride: nat, p: Point, px: int, py: int) {
    Drawable(c, stride, p) && px == p.x + c.ox && py == p.y + c.oy
  }

  // The reference every drawing call is measured against: buffer pixel
  // (px, py) after drawing `pts` one pixel at a time, in order.
  ghost predicate Plot(c: Canvas, stride: nat, pattern: Pattern, pts: seq<Point>, px: int, py: int, before: bool) {
    if pts == [] then before
    else
      var last := pts[|pts| - 1];
      if Hits(c, stride, last, px, py) then PatternOn(pattern, px, py)
      else Plot(c, stride, pattern, pts[..|pts| - 1], px, py, before)
  }

  // The order of the points never shows: a pattern's pixel depends on where it is.
  lemma {:induction false} PlotMeaning(c: Canvas, stride: nat, pattern: Pattern, pts: seq<Point>, px: int, py: int, before: bool)
    ensures Plot(c, stride, pattern, pts, px, py, before) ==
            if exists p :: p in pts && Hits(c, stride, p, px, py) then PatternOn(pattern, px, py) else before
  {
    if pts != [] {
      var n := |pts| - 1;
      PlotMeaning(c, stride, pattern, pts[..n], px, py, before);
      assert pts[n] in pts;
      assert forall p :: p in pts <==> p in pts[..n] || p == pts[n] by {
        assert pts == pts[..n] + [pts[n]];
      }
    }
  }

  // ------------------------------------------------------------ one pixel

  method PutPx(c: Canvas, fb: array2<byte>, x: int, y: int, pattern: Pattern)
    requires Fits(c, fb)
    modifies fb
    ensures forall px, py | InBuffer(fb, px, py) ::
              Pixel(fb, px, py) == if Hits(c, fb.Length1, Point(x, y), px, py)
                then PatternOn(pattern, px, py) else old(Pixel(fb, px, py))
  {
    if x < 0 || y < 0 || x >= c.w || y >= c.h { return; }
    var px, py := x + c.ox, y + c.oy;
    if px < 0 || py < 0 || px >= fb.Length1 * 8 { return; }
    var on := PatternOn(pattern, px, py);
    fb[py, px / 8] := WithBit(fb[py, px / 8], px % 8, on);
    forall qx, qy | InBuffer(fb, qx, qy)
      ensures Pixel(fb, qx, qy) == if qx == px && qy == py then on else old(Pixel(fb, qx, qy))
    {
      WithBitMeaning(old(fb[py, px / 8]), px % 8, on, qx % 8);
    }
  }

  lemma PlotSnoc(c: Canvas, stride: nat, pattern: Pattern, pts: seq<Point>, p: Point, px: int, py: int, before: bool)
    ensures Plot(c, stride, pattern, pts + [p], px, py, before)
            == if Hits(c, stride, p, px, py) then PatternOn(pattern, px, py) else Plot(c, stride, pattern, pts, px, py, before)
  {
    assert (pts + [p])[..|pts|] == pts;
  }

  // PutPx as one more point of a plot.
  method PutNext(c: Canvas, fb: array2<byte>, x: int, y: int, pattern: Pattern, ghost pts: seq<Point>)
    requires Fits(c, fb)
    modifies fb
    ensures forall px, py, before: bool
        | InBuffer(fb, px, py) && old(Pixel(fb, px, py)) == Plot(c, fb.Length1, pattern, pts, px, py, before) ::
              Pixel(fb, px, py) == Plot(c, fb.Length1, pattern, pts + [Point(x, y)], px, py, before)
  {
    PutPx(c, fb, x, y, pattern);
    forall px, py, before: bool
      ensures Plot(c, fb.Length1, pattern, pts + [Point(x, y)], px, py, before)
              == if Hits(c, fb.Length1, Point(x, y), px, py) then PatternOn(pattern, px, py)
                   else Plot(c, fb.Length1, pattern, pts, px, py, before)
    {
      PlotSnoc(c, fb.Length1, pattern, pts, Point(x, y), px, py, before);
    }
  }

  // ------------------------------------------------- rectangles, byte-wise

  // The tile pixels of a rectangle, row by row (unclipped, inclusive).
  ghost function RectPoints(x0: int, y0: int, x1: int, y1: int): seq<Point>
    decreases y1 - y0 + 1
  {
    if y1 < y0 then [] else RectPoints(x0, y0, x1, y1 - 1) + RowPoints(x0, x1, y1)
  }

  ghost function RowPoints(x0: int, x1: int, y: int): seq<Point>
    decreases x1 - x0 + 1
  {
    if x1 < x0 then [] else RowPoints(x0, x1 - 1, y) + [Point(x1, y)]
  }

  lemma {:induction false} RowPointsMeaning(x0: int, x1: int, y: int, p: Point)
    ensures p in RowPoints(x0, x1, y) <==> x0 <= p.x <= x1 && p.y == y
    decreases x1 - x0 + 1
  {
    if x0 <= x1 { RowPointsMeaning(x0, x1 - 1, y, p); }
  }

  lemma {:induction false} RectPointsMeaning(x0: int, y0: int, x1: int, y1: int, p: Point)
    ensures p in RectPoints(x0, y0, x1, y1) <==> x0 <= p.x <= x1 && y0 <= p.y <= y1
    decreases y1 - y0 + 1
  {
    if y0 <= y1 {
      RectPointsMeaning(x0, y0, x1, y1 - 1, p);
      RowPointsMeaning(x0, x1, y1, p);
    }
  }

  // Buffer pixel (px, py) belongs to the rectangle and passes both clips.
  ghost predicate Covers(c: Canvas, stride: nat, x0: int, y0: int, x1: int, y1: int, px: int, py: int) {
    && x0 <= px - c.ox <= x1 && y0 <= py - c.oy <= y1
    && Drawable(c, stride, Point(px - c.ox, py - c.oy))
  }

  lemma PlotRect(c: Canvas, stride: nat, pattern: Pattern, x0: int, y0: int, x1: int, y1: int, px: int, py: int, before: bool)
    ensures Plot(c, stride, pattern, RectPoints(x0, y0, x1, y1), px, py, before) ==
            if Covers(c, stride, x0, y0, x1, y1, px, py) then PatternOn(pattern, px, py) else before
  {
    var pts := RectPoints(x0, y0, x1, y1);
    PlotMeaning(c, stride, pattern, pts, px, py, before);
    var p := Point(px - c.ox, py - c.oy);
    RectPointsMeaning(x0, y0, x1, y1, p);
    forall q | q in pts && Hits(c, stride, q, px, py)
      ensures q == p
    {
    }
  }

  function PatternByte(pattern: Pattern, y: int): (b: byte)
    ensures forall i: nat | i < 8 :: Bit(b, i) == PatternOn(pattern, i, y)
  {
    match pattern
    case Black => 0xFF
    case White => 0x00
    case Grey => if y % 2 == 1 then 0x55 else 0xAA
  }

  // The rectangle clipped to the window and to the buffer, in buffer pixels.
  datatype Clip = Nothing | Area(x0: nat, y0: nat, x1: nat, y1: nat)

  function ClipRect(c: Canvas, stride: nat, x0: int, y0: int, x1: int, y1: int): (r: Clip)
    ensures r.Area? ==> r.x0 <= r.x1 < 8 * stride && r.y0 <= r.y1 < c.oy + c.h
  {
    var x0 := if x0 < 0 then 0 else x0;
    var y0 := if y0 < 0 then 0 else y0;
    var x1 := if x1 >= c.w then c.w - 1 else x1;
    var y1 := if y1 >= c.h then c.h - 1 else y1;
    if x0 > x1 || y0 > y1 then Nothing
    else
      var x0, x1, y0, y1 := x0 + c.ox, x1 + c.ox, y0 + c.oy, y1 + c.oy;
      var x0 := if x0 < 0 then 0 else x0;
      var y0 := if y0 < 0 then 0 else y0;
      var maxX := stride * 8 - 1;
      var x1 := if x1 > maxX then maxX else x1;
      if x0 > x1 || y0 > y1 then Nothing else Area(x0, y0, x1, y1)
  }

  predicate In(r: Clip, px: int, py: int) {
    r.Area? && r.x0 <= px <= r.x1 && r.y0 <= py <= r.y1
  }

  // The area is exactly the drawable pixels of the rectangle.
  lemma ClipExact(c: Canvas, stride: nat, x0: int, y0: int, x1: int, y1: int, px: int, py: int)
    ensures Covers(c, stride, x0, y0, x1, y1, px, py) <==> In(ClipRect(c, stride, x0, y0, x1, y1), px, py)
  {
  }

  lemma ClipsExact(c: Canvas, stride: nat, x0: int, y0: int, x1: int, y1: int)
    ensures forall px, py :: Covers(c, stride, x0, y0, x1, y1, px, py) <==> In(ClipRect(c, stride, x0, y0, x1, y1), px, py)
  {
    hide Covers, ClipRect, In;
    forall px, py
      ensures Covers(c, stride, x0, y0, x1, y1, px, py) <==> In(ClipRect(c, stride, x0, y0, x1, y1), px, py)
    {
      ClipExact(c, stride, x0, y0, x1, y1, px, py);
    }
  }

  // The bytes of the run of pixels x0..x1, and which of their bits belong to it.
  function LeftMask(x0: nat, x1: nat): byte
    requires x0 <= x1
  {
    var m0, m1 := MaskFrom(x0 % 8), MaskUpTo(x1 % 8);
    if x0 / 8 == x1 / 8 then m0 & m1 else m0
  }

  function RightMask(x0: nat, x1: nat): byte
    requires x0 <= x1
  {
    var m0, m1 := MaskFrom(x0 % 8), MaskUpTo(x1 % 8);
    if x0 / 8 == x1 / 8 then m0 & m1 else m1
  }

  lemma MaskMeaning(x0: nat, x1: nat, px: nat)
    requires x0 <= x1
    ensures px / 8 == x0 / 8 ==> (Bit(LeftMask(x0, x1), px % 8) <==> x0 <= px <= x1)
    ensures px / 8 == x1 / 8 ==> (Bit(RightMask(x0, x1), px % 8) <==> x0 <= px <= x1)
  {
    BitOps(MaskFrom(x0 % 8), MaskUpTo(x1 % 8), px % 8);
  }

  // Byte b of a pixel row after a fill from `pat`: bytes b0 and b1 under their
  // masks, the bytes between them whole.
  ghost function FilledByte(prev: byte, pat: byte, b0: nat, b1: nat, m0: byte, m1: byte, b: nat): byte {
    if b == b0 then Mix(prev, pat, m0)
    else if b == b1 then Mix(prev, pat, m1)
    else if b0 < b < b1 then pat
    else prev
  }

  lemma FilledMeaning(prev: byte, pat: byte, x0: nat, x1: nat, px: nat)
    requires x0 <= x1
    ensures Bit(FilledByte(prev, pat, x0 / 8, x1 / 8, LeftMask(x0, x1), RightMask(x0, x1), px / 8), px % 8)
            == Bit(if x0 <= px <= x1 then pat else prev, px % 8)
  {
    MaskMeaning(x0, x1, px);
    FilledBit(prev, pat, x0 / 8, x1 / 8, LeftMask(x0, x1), RightMask(x0, x1), px / 8, px % 8);
  }

  lemma FilledBit(prev: byte, pat: byte, b0: nat, b1: nat, m0: byte, m1: byte, b: nat, i: nat)
    requires i < 8
    ensures Bit(FilledByte(prev, pat, b0, b1, m0, m1, b), i)
            == Bit(if (if b == b0 then Bit(m0, i) else if b == b1 then Bit(m1, i) else b0 < b < b1) then pat else prev, i)
  {
    if b == b0 {
      MixMeaning(prev, pat, m0, i);
    } else if b == b1 {
      MixMeaning(prev, pat, m1, i);
    }
  }

  method SetByte(fb: array2<byte>, y: nat, b: nat, v: byte)
    requires y < fb.Length0 && b < fb.Length1
    modifies fb
    ensures forall r, k | 0 <= r < fb.Length0 && 0 <= k < fb.Length1 ::
              fb[r, k] == if r == y && k == b then v else old(fb[r, k])
  {
    fb[y, b] := v;
  }

  method FillRow(fb: array2<byte>, y: nat, b0: nat, b1: nat, m0: byte, m1: byte, pat: byte)
    requires y < fb.Length0 && b0 <= b1 < fb.Length1
    requires b0 == b1 ==> m0 == m1
    modifies fb
    ensures forall r, b | 0 <= r < fb.Length0 && 0 <= b < fb.Length1 ::
              fb[r, b] == if r == y then FilledByte(old(fb[r, b]), pat, b0, b1, m0, m1, b) else old(fb[r, b])
  {
    hide Mix;
    SetByte(fb, y, b0, Mix(fb[y, b0], pat, m0));
    var b := b0 + 1;
    while b < b1
      invariant b0 < b && (b <= b1 || b == b0 + 1)
      invariant forall r, k | 0 <= r < fb.Length0 && 0 <= k < fb.Length1 ::
                  fb[r, k] == if r == y && k == b0 then Mix(old(fb[r, k]), pat, m0)
                              else if r == y && b0 < k < b then pat
                              else old(fb[r, k])
    {
      SetByte(fb, y, b, pat);
      b := b + 1;
    }
    if b1 != b0 {
      assert fb[y, b1] == old(fb[y, b1]);
      SetByte(fb, y, b1, Mix(fb[y, b1], pat, m1));
    }
    assert forall r, k | 0 <= r < fb.Length0 && 0 <= k < fb.Length1 && r != y :: fb[r, k] == old(fb[r, k]);
    assert forall k | 0 <= k < fb.Length1 :: fb[y, k] == FilledByte(old(fb[y, k]), pat, b0, b1, m0, m1, k);
  }

  // One pixel row of a fill, pixel by pixel.
  method FillRowPixels(fb: array2<byte>, y: nat, x0: nat, x1: nat, pattern: Pattern)
    requires y < fb.Length0 && x0 <= x1 < 8 * fb.Length1
    modifies fb
    ensures forall px, py | InBuffer(fb, px, py) ::
              Pixel(fb, px, py) == if py == y && x0 <= px <= x1 then PatternOn(pattern, px, py) else old(Pixel(fb, px, py))
  {
    var pat := PatternByte(pattern, y);
    FillRow(fb, y, x0 / 8, x1 / 8, LeftMask(x0, x1), RightMask(x0, x1), pat);
    hide Bit, LeftMask, RightMask, FilledByte;
    forall px, py | InBuffer(fb, px, py)
      ensures Pixel(fb, px, py) == if py == y && x0 <= px <= x1 then PatternOn(pattern, px, py) else old(Pixel(fb, px, py))
    {
      FilledMeaning(old(fb[py, px / 8]), pat, x0, x1, px);
      assert PatternOn(pattern, px % 8, y) == PatternOn(pattern, px, y);
    }
  }

  // A filled rectangle is what drawing its pixels one by one gives.
  method Fill(c: Canvas, fb: array2<byte>, x0: int, y0: int, x1: int, y1: int, pattern: Pattern)
    requires Fits(c, fb)
    modifies fb
    ensures forall px, py | InBuffer(fb, px, py) ::
              Pixel(fb, px, py) == Plot(c, fb.Length1, pattern, RectPoints(x0, y0, x1, y1), px, py, old(Pixel(fb, px, py)))
  {
    forall px, py, before: bool
      ensures Plot(c, fb.Length1, pattern, RectPoints(x0, y0, x1, y1), px, py, before) ==
              if Covers(c, fb.Length1, x0, y0, x1, y1, px, py) then PatternOn(pattern, px, py) else before
    {
      PlotRect(c, fb.Length1, pattern, x0, y0, x1, y1, px, py, before);
    }
    hide Covers, ClipRect;
    ClipsExact(c, fb.Length1, x0, y0, x1, y1);
    var area := ClipRect(c, fb.Length1, x0, y0, x1, y1);
    if area == Nothing { return; }
    for y := area.y0 to area.y1 + 1
      invariant forall px, py | InBuffer(fb, px, py) ::
                  Pixel(fb, px, py) == if area.x0 <= px <= area.x1 && area.y0 <= py < y then PatternOn(pattern, px, py)
                    else old(Pixel(fb, px, py))
    {
      FillRowPixels(fb, y, area.x0, area.x1, pattern);
    }
  }

  function Flip(prev: byte, mask: byte): byte { prev ^ mask }

  ghost function InvertedByte(prev: byte, b0: nat, b1: nat, m0: byte, m1: byte, b: nat): byte {
    if b == b0 then Flip(prev, m0)
    else if b == b1 then Flip(prev, m1)
    else if b0 < b < b1 then Flip(prev, 0xFF)
    else prev
  }

  lemma InvertedBit(prev: byte, b0: nat, b1: nat, m0: byte, m1: byte, b: nat, i: nat)
    requires i < 8
    ensures Bit(InvertedByte(prev, b0, b1, m0, m1, b), i)
            == (Bit(prev, i) != (if b == b0 then Bit(m0, i) else if b == b1 then Bit(m1, i) else b0 < b < b1))
  {
    if b == b0 {
      BitOps(prev, m0, i);
    } else if b == b1 {
      BitOps(prev, m1, i);
    } else {
      BitOps(prev, 0xFF, i);
    }
  }

  method InvertRow(fb: array2<byte>, y: nat, b0: nat, b1: nat, m0: byte, m1: byte)
    requires y < fb.Length0 && b0 <= b1 < fb.Length1
    requires b0 == b1 ==> m0 == m1
    modifies fb
    ensures forall r, b | 0 <= r < fb.Length0 && 0 <= b < fb.Length1 ::
              fb[r, b] == if r == y then InvertedByte(old(fb[r, b]), b0, b1, m0, m1, b) else old(fb[r, b])
  {
    hide Flip;
    SetByte(fb, y, b0, Flip(fb[y, b0], m0));
    var b := b0 + 1;
    while b < b1
      invariant b0 < b && (b <= b1 || b == b0 + 1)
      invariant forall r, k | 0 <= r < fb.Length0 && 0 <= k < fb.Length1 ::
                  fb[r, k] == if r == y && k == b0 then Flip(old(fb[r, k]), m0)
                              else if r == y && b0 < k < b then Flip(old(fb[r, k]), 0xFF)
                              else old(fb[r, k])
    {
      SetByte(fb, y, b, Flip(fb[y, b], 0xFF));
      b := b + 1;
    }
    if b1 != b0 {
      assert fb[y, b1] == old(fb[y, b1]);
      SetByte(fb, y, b1, Flip(fb[y, b1], m1));
    }
    assert forall r, k | 0 <= r < fb.Length0 && 0 <= k < fb.Length1 && r != y :: fb[r, k] == old(fb[r, k]);
    assert forall k | 0 <= k < fb.Length1 :: fb[y, k] == InvertedByte(old(fb[y, k]), b0, b1, m0, m1, k);
  }

  method InvertRowPixels(fb: array2<byte>, y: nat, x0: nat, x1: nat)
    requires y < fb.Length0 && x0 <= x1 < 8 * fb.Length1
    modifies fb
    ensures forall px, py | InBuffer(fb, px, py) ::
              Pixel(fb, px, py) == (old(Pixel(fb, px, py)) != (py == y && x0 <= px <= x1))
  {
    InvertRow(fb, y, x0 / 8, x1 / 8, LeftMask(x0, x1), RightMask(x0, x1));
    forall px, py | InBuffer(fb, px, py)
      ensures Pixel(fb, px, py) == (old(Pixel(fb, px, py)) != (py == y && x0 <= px <= x1))
    {
      MaskMeaning(x0, x1, px);
      InvertedBit(old(fb[py, px / 8]), x0 / 8, x1 / 8, LeftMask(x0, x1), RightMask(x0, x1), px / 8, px % 8);
    }
  }

  // Inverting flips exactly the clipped rectangle's pixels.
  method Invert(c: Canvas, fb: array2<byte>, x0: int, y0: int, x1: int, y1: int)
    requires Fits(c, fb)
    modifies fb
    ensures forall px, py | InBuffer(fb, px, py) ::
              Pixel(fb, px, py) == (old(Pixel(fb, px, py)) != Covers(c, fb.Length1, x0, y0, x1, y1, px, py))
  {
    hide Covers, ClipRect;
    ClipsExact(c, fb.Length1, x0, y0, x1, y1);
    var area := ClipRect(c, fb.Length1, x0, y0, x1, y1);
    if area == Nothing { return; }
    for y := area.y0 to area.y1 + 1
      invariant forall px, py | InBuffer(fb, px, py) ::
                  Pixel(fb, px, py) == (old(Pixel(fb, px, py)) != (area.x0 <= px <= area.x1 && area.y0 <= py < y))
    {
      InvertRowPixels(fb, y, area.x0, area.x1);
    }
  }

  // Two inversions of the same rectangle leave every byte as it was.
  method InvertTwice(c: Canvas, fb: array2<byte>, x0: int, y0: int, x1: int, y1: int)
    requires Fits(c, fb)
    modifies fb
    ensures forall r, b | 0 <= r < fb.Length0 && 0 <= b < fb.Length1 :: fb[r, b] == old(fb[r, b])
  {
    Invert(c, fb, x0, y0, x1, y1);
    Invert(c, fb, x0, y0, x1, y1);
    forall r, b | 0 <= r < fb.Length0 && 0 <= b < fb.Length1
      ensures fb[r, b] == old(fb[r, b])
    {
      forall i: nat | i < 8
        ensures Bit(fb[r, b], i) == Bit(old(fb[r, b]), i)
      {
        var px := 8 * b + i;
        assert px / 8 == b && px % 8 == i;
        assert Pixel(fb, px, r) == old(Pixel(fb, px, r));
      }
      SameBits(fb[r, b], old(fb[r, b]));
    }
  }

  // ------------------------------------------------------------- a glyph

  const GLYPH_H := 16

  // One glyph row as the code shifts it: nine bits, the ninth only when bold.
  function RowBits(row: byte, bold: bool): bv16 {
    var bits := row as bv16;
    if bold then bits | (bits << 1) else bits
  }

  // Column b of a glyph row is foreground; bold also sets each right neighbour.
  ghost predicate GlyphOn(row: byte, bold: bool, b: int) {
    (0 <= b < 8 && Bit(row, b)) || (bold && 1 <= b < 9 && Bit(row, b - 1))
  }

  lemma RowBitsMask(row: byte, bold: bool, i: bv16, m: byte, p: byte)
    requires i < 16
    requires if i < 8 then m as bv16 == 1 << i else m == 0
    requires if 1 <= i < 9 then p as bv16 == 1 << (i - 1) else p == 0
    ensures Bit16(RowBits(row, bold), i) == (row & m != 0 || (bold && row & p != 0))
  {
  }

  lemma RowBitsMeaning(row: byte, bold: bool, b: nat)
    requires b < 16
    ensures Bit16(RowBits(row, bold), BitIndex(b)) == GlyphOn(row, bold, b)
  {
    RowBitsMask(row, bold, BitIndex(b), if b < 8 then BitValue(b) else 0, if 1 <= b < 9 then BitValue(b - 1) else 0);
  }

  // The glyph's foreground pixels in tile coordinates, rows [row0, row1).
  ghost function GlyphPoints(g: seq<byte>, bold: bool, x: int, y: int, row0: nat, row1: nat): seq<Point>
    requires row1 <= |g|
  {
    if row1 <= row0 then [] else GlyphPoints(g, bold, x, y, row0, row1 - 1) + GlyphRow(g[row1 - 1], bold, x, y + row1 - 1, 9)
  }

  ghost function GlyphRow(row: byte, bold: bool, x: int, y: int, n: nat): seq<Point> {
    if n == 0 then []
    else GlyphRow(row, bold, x, y, n - 1) + if GlyphOn(row, bold, n - 1) then [Point(x + n - 1, y)] else []
  }

  ghost predicate GlyphHit(g: seq<byte>, bold: bool, x: int, y: int, row0: nat, row1: nat, p: Point)
    requires row1 <= |g|
  {
    row0 <= p.y - y < row1 && GlyphOn(g[p.y - y], bold, p.x - x)
  }

  lemma {:induction false} GlyphRowMeaning(row: byte, bold: bool, x: int, y: int, n: nat, p: Point)
    ensures p in GlyphRow(row, bold, x, y, n) <==> p.y == y && 0 <= p.x - x < n && GlyphOn(row, bold, p.x - x)
  {
    if n > 0 { GlyphRowMeaning(row, bold, x, y, n - 1, p); }
  }

  lemma WholeRowMeaning(row: byte, bold: bool, x: int, y: int, p: Point)
    ensures p in GlyphRow(row, bold, x, y, 9) <==> p.y == y && GlyphOn(row, bold, p.x - x)
  {
    hide Bit;
    GlyphRowMeaning(row, bold, x, y, 9, p);
  }

  lemma {:induction false} GlyphPointsMeaning(g: seq<byte>, bold: bool, x: int, y: int, row0: nat, row1: nat, p: Point)
    requires row1 <= |g|
    ensures p in GlyphPoints(g, bold, x, y, row0, row1) <==> GlyphHit(g, bold, x, y, row0, row1, p)
  {
    hide GlyphOn, GlyphRow;
    if row0 < row1 {
      GlyphPointsMeaning(g, bold, x, y, row0, row1 - 1, p);
      WholeRowMeaning(g[row1 - 1], bold, x, y + row1 - 1, p);
    }
  }

  lemma PlotGlyph(c: Canvas, stride: nat, g: seq<byte>, bold: bool, x: int, y: int,
      row0: nat, row1: nat, px: int, py: int, before: bool)
    requires row1 <= |g|
    ensures Plot(c, stride, Black, GlyphPoints(g, bold, x, y, row0, row1), px, py, before)
            == (before || (var p := Point(px - c.ox, py - c.oy);
                Drawable(c, stride, p) && GlyphHit(g, bold, x, y, row0, row1, p)))
  {
    var pts := GlyphPoints(g, bold, x, y, row0, row1);
    PlotMeaning(c, stride, Black, pts, px, py, before);
    var p := Point(px - c.ox, py - c.oy);
    GlyphPointsMeaning(g, bold, x, y, row0, row1, p);
    forall q | q in pts && Hits(c, stride, q, px, py)
      ensures q == p
    {
    }
  }

  lemma GlyphHalves(row: byte, bold: bool, k: nat, i: nat, kb: bv16, bits: bv16, v: bv16)
    requires k < 8 && i < 8 && kb == BitIndex(k) && kb < 8
    requires bits == RowBits(row, bold) && v == bits << kb
    ensures Bit(Low(v), i) == GlyphOn(row, bold, i - k)
    ensures Bit(High(v), i) == GlyphOn(row, bold, 8 + i - k)
  {
    hide BitIndex, Bit16, Bit, Bits.Low, Bits.High, RowBits;
    var i0, i8, d0, d8 := BitIndex(i), BitIndex(8 + i), if i >= k then BitIndex(i - k) else 0, BitIndex(8 + i - k);
    Shifted(bits, k, i, kb, i0, d0);
    Shifted(bits, k, 8 + i, kb, i8, d8);
    Halves(v, i);
    if i >= k { RowBitsMeaning(row, bold, i - k); }
    RowBitsMeaning(row, bold, 8 + i - k);
  }

  // A glyph row shifted to bit k of its first byte, as the two bytes it covers.
  method ShiftRow(row: byte, bold: bool, k: nat) returns (lo: byte, hi: byte)
    requires k < 8
    ensures forall i: nat | i < 8 :: Bit(lo, i) == GlyphOn(row, bold, i - k)
    ensures forall i: nat | i < 8 :: Bit(hi, i) == GlyphOn(row, bold, 8 + i - k)
  {
    var kb := BitIndex(k);
    IndexDifference(0, k);
    var bits := RowBits(row, bold);
    var v := bits << kb;
    forall i: nat | i < 8
      ensures Bit(Low(v), i) == GlyphOn(row, bold, i - k)
      ensures Bit(High(v), i) == GlyphOn(row, bold, 8 + i - k)
    {
      GlyphHalves(row, bold, k, i, kb, bits, v);
    }
    lo, hi := Low(v), High(v);
  }

  // A glyph row wholly inside the window: two byte writes.
  method GlyphRowInside(fb: array2<byte>, spy: nat, ax: nat, row: byte, bold: bool)
    requires spy < fb.Length0 && ax + 9 <= 8 * fb.Length1
    modifies fb
    ensures forall px, py | InBuffer(fb, px, py) ::
              Pixel(fb, px, py) == (old(Pixel(fb, px, py)) || (py == spy && GlyphOn(row, bold, px - ax)))
  {
    var lo, hi := ShiftRow(row, bold, ax % 8);
    OrByte(fb, spy, ax / 8, lo);
    if hi != 0 {
      NoBits(hi);
      OrByte(fb, spy, ax / 8 + 1, hi);
    }
    forall px, py | InBuffer(fb, px, py)
      ensures Pixel(fb, px, py) == (old(Pixel(fb, px, py)) || (py == spy && GlyphOn(row, bold, px - ax)))
    {
      assert px / 8 == ax / 8 ==> px % 8 - ax % 8 == px - ax;
      assert px / 8 == ax / 8 + 1 ==> 8 + px % 8 - ax % 8 == px - ax;
      assert hi == 0 ==> !Bit(hi, px % 8);
      assert GlyphOn(row, bold, px - ax) ==> px / 8 == ax / 8 || px / 8 == ax / 8 + 1;
    }
  }

  method OrByte(fb: array2<byte>, y: nat, b: nat, v: byte)
    requires y < fb.Length0 && b < fb.Length1
    modifies fb
    ensures forall px, py | InBuffer(fb, px, py) ::
              Pixel(fb, px, py) == (old(Pixel(fb, px, py)) || (py == y && px / 8 == b && Bit(v, px % 8)))
  {
    SetByte(fb, y, b, fb[y, b] | v);
    forall px, py | InBuffer(fb, px, py)
      ensures Pixel(fb, px, py) == (old(Pixel(fb, px, py)) || (py == y && px / 8 == b && Bit(v, px % 8)))
    {
      BitOps(old(fb[py, px / 8]), v, px % 8);
    }
  }

  // A glyph is what drawing its foreground pixels one by one gives, whether it
  // goes through the two-byte path or the clipped one.
  method Glyph(c: Canvas, fb: array2<byte>, x: int, y: int, g: seq<byte>, row0: nat, lastRow: nat, bold: bool)
    requires Fits(c, fb)
    requires |g| == GLYPH_H
    modifies fb
    ensures forall px, py | InBuffer(fb, px, py) ::
              Pixel(fb, px, py) ==
              Plot(c, fb.Length1, Black, GlyphPoints(g, bold, x, y, row0, if lastRow > GLYPH_H then GLYPH_H else lastRow),
                   px, py, old(Pixel(fb, px, py)))
  {
    hide Bit, Plot;
    var row1 := if lastRow > GLYPH_H then GLYPH_H else lastRow;
    var ax := x + c.ox;
    var maxX := fb.Length1 * 8;
    var inside := x >= 0 && x + 9 <= c.w && ax >= 0 && ax + 9 <= maxX;
    var r := row0;
    while r < row1
      invariant row0 <= r && (r <= row1 || r == row0)
      invariant forall px, py | InBuffer(fb, px, py) ::
                  Pixel(fb, px, py) == (old(Pixel(fb, px, py)) || (
                      var p := Point(px - c.ox, py - c.oy);
                      Drawable(c, fb.Length1, p) && row0 <= p.y - y < r && p.y - y < |g| && GlyphOn(g[p.y - y], bold, p.x - x)))
    {
      var py := y + r;
      var spy := py + c.oy;
      if 0 <= py < c.h && 0 <= spy {
        if inside {
          GlyphRowInside(fb, spy, ax, g[r], bold);
        } else {
          GlyphRowClipped(c, fb, spy, x, g[r], bold);
        }
      }
      r := r + 1;
    }
    forall px, py, before: bool
      ensures Plot(c, fb.Length1, Black, GlyphPoints(g, bold, x, y, row0, row1), px, py, before)
              == (before || (var p := Point(px - c.ox, py - c.oy);
                  Drawable(c, fb.Length1, p) && GlyphHit(g, bold, x, y, row0, row1, p)))
    {
      PlotGlyph(c, fb.Length1, g, bold, x, y, row0, row1, px, py, before);
    }
  }

  // The clipped path: one read-modify-write a pixel.
  method GlyphRowClipped(c: Canvas, fb: array2<byte>, spy: nat, x: int, row: byte, bold: bool)
    requires spy < fb.Length0
    modifies fb
    ensures forall px, py | InBuffer(fb, px, py) ::
              Pixel(fb, px, py) == (old(Pixel(fb, px, py)) ||
                                    (py == spy && 0 <= px - c.ox < c.w && GlyphOn(row, bold, px - c.ox - x)))
  {
    hide Bit;
    var ax := x + c.ox;
    for b := 0 to 9
      invariant forall px, py | InBuffer(fb, px, py) ::
                  Pixel(fb, px, py) == (old(Pixel(fb, px, py)) ||
                                        (py == spy && px - ax < b && 0 <= px - c.ox < c.w && GlyphOn(row, bold, px - ax)))
    {
      var spx := ax + b;
      RowBitsMeaning(row, bold, b);
      if Bit16(RowBits(row, bold), BitIndex(b)) && 0 <= x + b < c.w && 0 <= spx < fb.Length1 * 8 {
        label pixel:
        SetByte(fb, spy, spx / 8, WithBit(fb[spy, spx / 8], spx % 8, true));
        forall px, py | InBuffer(fb, px, py)
          ensures Pixel(fb, px, py) == (old@pixel(Pixel(fb, px, py)) || (px == spx && py == spy))
        {
          WithBitMeaning(old@pixel(fb[spy, spx / 8]), spx % 8, true, px % 8);
        }
      }
    }
  }
}
