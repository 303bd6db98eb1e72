// The double-buffered incremental display (drivers/dsi_esp32p4.c): a 1-bpp frame
// is compared with a shadow of it, changed rows are marked dirty in both frame
// buffers with one column range for each, and a pass converts just the dirty part
// of the back buffer and arms a flip, which the frame end takes. Text cells,
// readers and canvases drawn over the 1-bpp frame are left out.
module Display {
  import opened Bits
  import opened Common
  import opened DisplayMap

  const EMPTY_X0: nat := 0xFFFF      // with x1 = 0: no columns
  const FULL_X1: nat := 2047         // with x0 = 0: any panel's columns
  const ROT_MAX_BANDS: nat := 90

  class Display {
    const panel: Panel
    const stride: nat
    const fg: Color
    const bg: Color
    const doubleBuffered: bool
    const t1: array2<byte>            // the 1-bpp frame, row and byte
    const shadow: array2<byte>        // as last converted
    const fb0: array2<Color>          // the frame buffers, panel row and column
    const fb1: array2<Color>
    const dirty0: array<bool>         // rows to convert, 64 to a word
    const dirty1: array<bool>
    var x0: seq<nat>                  // columns to convert, of each buffer
    var x1: seq<nat>
    var front: Index
    var flipPending: bool
    var scanning: bool
    var force: bool

    function Fb(b: Index): array2<Color> { if b == 0 then fb0 else fb1 }

    function Dirty(b: Index): array<bool> { if b == 0 then dirty0 else dirty1 }

    function Back(): Index
      reads `front
    {
      if doubleBuffered then 1 - front else 0
    }

    ghost predicate Sizes() {
      && panel.w == 8 * stride && 0 < stride && panel.w <= FULL_X1 + 1
      && 0 < panel.h
      && (panel.Turned() ==> panel.h % 8 == 0 && panel.h <= 8 * ROT_MAX_BANDS)
      && t1.Length0 == shadow.Length0 == panel.h && t1.Length1 == shadow.Length1 == stride
      && fb0.Length0 == fb1.Length0 == panel.Rows() && fb0.Length1 == fb1.Length1 == panel.Cols()
      && dirty0.Length == dirty1.Length == 64 * ((panel.h + 63) / 64) && panel.h <= dirty0.Length
      && t1 != shadow && fb0 != fb1 && dirty0 != dirty1
    }

    ghost predicate State()
      reads `x0, `x1, `front, `flipPending, `scanning
    {
      && |x0| == |x1| == 2
      && (!doubleBuffered ==> front == 0)
      && (flipPending ==> doubleBuffered && scanning)
    }

    ghost predicate OnPanel(r: int, c: int) {
      0 <= r < panel.Rows() && 0 <= c < panel.Cols()
    }

    // What the full conversion of the shadow puts at logical pixel (x, y).
    ghost function ColorOf(x: int, y: int): Color
      requires Sizes() && 0 <= x < panel.w && 0 <= y < panel.h
      reads shadow
    {
      if Bit(shadow[y, x / 8], x % 8) then fg else bg
    }

    ghost predicate Good(b: Index, r: int, c: int)
      requires Sizes() && OnPanel(r, c)
      reads shadow, Fb(b)
    {
      Fb(b)[r, c] == ColorOf(panel.X(r, c), panel.Y(r, c))
    }

    // Buffer b shows the full conversion of the shadow.
    ghost predicate Clean(b: Index)
      requires Sizes()
      reads shadow, Fb(b)
    {
      forall r, c | OnPanel(r, c) :: Good(b, r, c)
    }

    // The marks' invariant: a panel pixel that is not what the shadow says lies in
    // a dirty row and inside the column range.
    ghost predicate Covered(b: Index)
      requires Sizes() && |x0| == |x1| == 2
      reads shadow, Fb(b), Dirty(b), `x0, `x1
    {
      forall r, c | OnPanel(r, c) :: Good(b, r, c) || (Dirty(b)[panel.Y(r, c)] && x0[b] <= panel.X(r, c) <= x1[b])
    }

    // What the conversion puts at logical pixel (x, y) once rows from..to of the
    // frame are in the shadow.
    ghost function FrameColor(from: nat, to: nat, x: int, y: int): Color
      requires Sizes() && 0 <= x < panel.w && 0 <= y < panel.h
      reads t1, shadow
    {
      if Bit(if from <= y < to then t1[y, x / 8] else shadow[y, x / 8], x % 8) then fg else bg
    }

    // Buffer b already shows that.
    ghost predicate ShowsAt(b: Index, from: nat, to: nat, r: int, c: int)
      requires Sizes() && OnPanel(r, c)
      reads t1, shadow, Fb(b)
    {
      Fb(b)[r, c] == FrameColor(from, to, panel.X(r, c), panel.Y(r, c))
    }

    ghost predicate Shows(b: Index, from: nat, to: nat)
      requires Sizes()
      reads t1, shadow, Fb(b)
    {
      forall r, c | OnPanel(r, c) :: ShowsAt(b, from, to, r, c)
    }

    // Some byte of rows from..to of the frame is not what the shadow has.
    ghost predicate Changes(from: nat, to: nat)
      requires Sizes()
      reads t1, shadow
    {
      exists y, k :: from <= y < to && y < panel.h && 0 <= k < stride && t1[y, k] != shadow[y, k]
    }

    ghost predicate AnyDirty(b: Index)
      requires Sizes()
      reads Dirty(b)
    {
      exists y :: 0 <= y < panel.h && Dirty(b)[y]
    }

    ghost predicate Valid()
      reads this, shadow, fb0, fb1, dirty0, dirty1
    {
      Sizes() && State() && Covered(0) && Covered(1)
    }

    // The buffer the glass shows after the next frame end.
    ghost function Next(): Index
      reads `front, `flipPending
    {
      if flipPending then 1 - front else front
    }

    // That buffer is right, or a pass is due that will make it so.
    ghost predicate GlassOk()
      requires Sizes() && State()
      reads this, shadow, fb0, fb1, dirty0, dirty1
    {
      Clean(Next()) || (!flipPending && AnyDirty(Back()))
    }

    // dsi_lcd_term_start(): the frame and its shadow blank, the first pass forced.
    constructor (panel: Panel, doubleBuffered: bool, fg: Color, bg: Color)
      requires 0 < panel.w <= FULL_X1 + 1 && panel.w % 8 == 0 && 0 < panel.h
      requires panel.Turned() ==> panel.h % 8 == 0 && panel.h <= 8 * ROT_MAX_BANDS
      ensures Sizes() && State() && force
      ensures this.panel == panel && this.doubleBuffered == doubleBuffered && this.fg == fg && this.bg == bg
      ensures fresh(t1) && fresh(shadow) && fresh(fb0) && fresh(fb1) && fresh(dirty0) && fresh(dirty1)
      ensures forall y, b | 0 <= y < t1.Length0 && 0 <= b < t1.Length1 :: t1[y, b] == 0
    {
      this.panel, this.doubleBuffered, this.fg, this.bg := panel, doubleBuffered, fg, bg;
      stride := panel.w / 8;
      t1 := new byte[panel.h, panel.w / 8]((y, b) => 0);
      shadow := new byte[panel.h, panel.w / 8]((y, b) => 0);
      fb0 := new Color[panel.Rows(), panel.Cols()]((r, c) => 0);
      fb1 := new Color[panel.Rows(), panel.Cols()]((r, c) => 0);
      dirty0 := new bool[64 * ((panel.h + 63) / 64)](y => true);
      dirty1 := new bool[64 * ((panel.h + 63) / 64)](y => true);
      x0, x1 := [0, 0], [FULL_X1, FULL_X1];
      front, flipPending, scanning, force := 0, false, false, true;
    }

    // -------------------------------------------------------- comparing rows

    // One 64-bit word of row y, frame against shadow.
    predicate WordSame(y: nat, i: nat)
      requires y < t1.Length0 && y < shadow.Length0 && 8 * i + 8 <= t1.Length1 && 8 * i + 8 <= shadow.Length1
      reads t1, shadow
    {
      forall b | 8 * i <= b < 8 * i + 8 :: t1[y, b] == shadow[y, b]
    }

    // Bytes from..to of row y are as the shadow has them.
    ghost predicate SameBytes(y: nat, from: nat, to: nat)
      requires Sizes() && y < panel.h && to <= stride
      reads t1, shadow
    {
      forall b | from <= b < to :: t1[y, b] == shadow[y, b]
    }

    // The bytes of a row that are in whole words.
    function Words(): nat { 8 * (stride / 8) }

    // row_same(): whole words only.
    method RowSame(y: nat) returns (same: bool)
      requires Sizes() && y < panel.h
      ensures same <==> SameBytes(y, 0, Words())
    {
      var d := false;
      for i := 0 to stride / 8
        invariant d <==> !SameBytes(y, 0, 8 * i)
      {
        if !WordSame(y, i) { d := true; }
        assert SameBytes(y, 0, 8 * i + 8) <==> SameBytes(y, 0, 8 * i) && WordSame(y, i);
      }
      same := !d;
    }

    // The first and last byte of row y that changed, among its whole words.
    method ChangedBytes(y: nat) returns (bMin: nat, bMax: nat)
      requires Sizes() && y < panel.h && !SameBytes(y, 0, Words())
      ensures bMin <= bMax < Words()
      ensures SameBytes(y, 0, bMin) && SameBytes(y, bMax + 1, Words())
      ensures t1[y, bMin] != shadow[y, bMin] && t1[y, bMax] != shadow[y, bMax]
    {
      var numWords := stride / 8;
      var wMin := 0;
      while wMin < numWords && WordSame(y, wMin)
        invariant wMin <= numWords && SameBytes(y, 0, 8 * wMin)
      {
        wMin := wMin + 1;
      }
      var wMax := numWords - 1;
      while wMax > wMin && WordSame(y, wMax)
        invariant wMin <= wMax < numWords && SameBytes(y, 8 * wMax + 8, 8 * numWords)
      {
        wMax := wMax - 1;
      }
      bMin := wMin * 8;
      bMax := wMax * 8 + 7;
      while bMin < stride && t1[y, bMin] == shadow[y, bMin]
        invariant 8 * wMin <= bMin < 8 * wMin + 8 && SameBytes(y, 0, bMin)
      {
        bMin := bMin + 1;
      }
      while bMax > bMin && t1[y, bMax] == shadow[y, bMax]
        invariant bMin <= bMax < 8 * numWords && SameBytes(y, bMax + 1, 8 * numWords)
      {
        bMax := bMax - 1;
      }
    }

    // The part of a row that comparing words leaves out: nothing, for a stride
    // that is a multiple of 8.
    ghost predicate TailSame(y: nat)
      requires Sizes() && y < panel.h
      reads t1, shadow
    {
      SameBytes(y, Words(), stride)
    }

    lemma NoTail(y: nat)
      requires Sizes() && y < panel.h && stride % 8 == 0
      ensures TailSame(y)
    {
    }

    // --------------------------------------------------------- the snapshot

    method Widen(xMin: nat, xMax: nat)
      requires |x0| == |x1| == 2
      modifies `x0, `x1
      ensures |x0| == |x1| == 2
      ensures forall b: Index :: x0[b] == (if xMin < old(x0[b]) then xMin else old(x0[b]))
      ensures forall b: Index :: x1[b] == (if xMax > old(x1[b]) then xMax else old(x1[b]))
    {
      for b := 0 to 2
        invariant |x0| == |x1| == 2
        invariant forall k: Index :: x0[k] == (if k < b && xMin < old(x0[k]) then xMin else old(x0[k]))
        invariant forall k: Index :: x1[k] == (if k < b && xMax > old(x1[k]) then xMax else old(x1[k]))
      {
        if xMin < x0[b] { x0 := x0[b := xMin]; }
        if xMax > x1[b] { x1 := x1[b := xMax]; }
      }
    }

    // The columns of row y's change into both buffers' ranges.
    method MarkColumns(y: nat)
      requires Sizes() && |x0| == |x1| == 2 && y < panel.h
      requires force || !SameBytes(y, 0, Words())
      modifies `x0, `x1
      ensures |x0| == |x1| == 2
      ensures force ==> forall b: Index :: x0[b] == 0 && x1[b] == panel.w - 1
      ensures !force ==> forall b: Index, k | 0 <= k < Words() && t1[y, k] != shadow[y, k] :: x0[b] <= 8 * k && 8 * k + 7 <= x1[b]
      ensures !force ==> forall b: Index :: x0[b] <= old(x0[b]) && old(x1[b]) <= x1[b]
      ensures !force ==> forall b: Index ::
                && (x0[b] == old(x0[b]) || (x0[b] < panel.w && x0[b] % 8 == 0 && t1[y, x0[b] / 8] != shadow[y, x0[b] / 8]))
                && x0[b] < 8 * Words() && (x1[b] == old(x1[b]) || x1[b] < 8 * Words())
                && (x1[b] == old(x1[b]) || (x1[b] < panel.w && x1[b] % 8 == 7 && t1[y, x1[b] / 8] != shadow[y, x1[b] / 8]))
    {
      if force {
        x0 := [0, 0];
        x1 := [panel.w - 1, panel.w - 1];
      } else {
        var bMin, bMax := ChangedBytes(y);
        Widen(bMin * 8, bMax * 8 + 7);
      }
    }

    // Row y's change at a panel pixel behind the whole words needs no marking there in
    // buffer b, or has it from before.
    ghost predicate TailMarkedAt(b: Index, y: nat, r: int, c: int)
      requires Sizes() && y < panel.h && OnPanel(r, c) && |x1| == 2
      reads t1, shadow, `x1
    {
      var x := panel.X(r, c);
      panel.Y(r, c) == y && Words() <= x / 8 && Bit(t1[y, x / 8], x % 8) != Bit(shadow[y, x / 8], x % 8) ==> x <= x1[b]
    }

    ghost predicate TailMarked(b: Index, y: nat)
      requires Sizes() && y < panel.h && |x1| == 2
      reads t1, shadow, `x1
    {
      fg == bg || forall r, c | OnPanel(r, c) :: TailMarkedAt(b, y, r, c)
    }

    lemma TailSameMarked(b: Index, y: nat)
      requires Sizes() && y < panel.h && |x1| == 2 && TailSame(y)
      ensures TailMarked(b, y)
    {
      hide Bit, Panel.Y;
    }

    // A dirty row and the columns of the words that changed cover what copying it into
    // the shadow made wrong, exactly if what changed behind the words is marked too.
    twostate lemma StillCovered(y: nat)
      requires Sizes() && y < panel.h && old(|x0| == |x1| == 2) && |x0| == |x1| == 2
      requires unchanged(fb0) && unchanged(fb1) && unchanged(t1)
      requires forall k, i | 0 <= k < panel.h && 0 <= i < stride :: shadow[k, i] == if k == y then t1[k, i] else old(shadow[k, i])
      requires forall k | 0 <= k < dirty0.Length :: dirty0[k] == (old(dirty0[k]) || k == y)
      requires forall k | 0 <= k < dirty1.Length :: dirty1[k] == (old(dirty1[k]) || k == y)
      requires forall b: Index, i | 0 <= i < Words() && t1[y, i] != old(shadow[y, i]) :: x0[b] <= 8 * i && 8 * i + 7 <= x1[b]
      requires forall b: Index :: x0[b] <= old(x0[b]) && old(x1[b]) <= x1[b]
      requires forall b: Index :: x0[b] < 8 * Words() && (x1[b] == old(x1[b]) || x1[b] < 8 * Words())
      ensures old(Covered(0)) ==> (Covered(0) <==> old(TailMarked(0, y)))
      ensures old(Covered(1)) ==> (Covered(1) <==> old(TailMarked(1, y)))
    {
      hide Bit;
      forall b: Index, r, c | old(Covered(b)) && OnPanel(r, c)
        ensures (Good(b, r, c) || (Dirty(b)[panel.Y(r, c)] && x0[b] <= panel.X(r, c) <= x1[b])) <==>
                fg == bg || old(TailMarkedAt(b, y, r, c))
      {
        assert old(Good(b, r, c)) || (old(Dirty(b)[panel.Y(r, c)]) && old(x0[b]) <= panel.X(r, c) <= old(x1[b]));
        var k := panel.X(r, c) / 8;
        assert 0 <= k < stride && 8 * k <= panel.X(r, c) <= 8 * k + 7;
      }
    }

    // A forced row is marked whole.
    twostate lemma ForcedCovered(y: nat)
      requires Sizes() && y < panel.h && old(|x0| == |x1| == 2) && |x0| == |x1| == 2
      requires unchanged(fb0) && unchanged(fb1) && unchanged(t1)
      requires forall k, i | 0 <= k < panel.h && 0 <= i < stride :: shadow[k, i] == if k == y then t1[k, i] else old(shadow[k, i])
      requires forall k | 0 <= k < dirty0.Length :: dirty0[k] == (old(dirty0[k]) || k == y)
      requires forall k | 0 <= k < dirty1.Length :: dirty1[k] == (old(dirty1[k]) || k == y)
      requires forall b: Index :: x0[b] == 0 && panel.w <= x1[b] + 1
      ensures old(Covered(0)) ==> Covered(0)
      ensures old(Covered(1)) ==> Covered(1)
    {
      hide Bit;
      forall b: Index, r, c | old(Covered(b)) && OnPanel(r, c)
        ensures Good(b, r, c) || (Dirty(b)[panel.Y(r, c)] && x0[b] <= panel.X(r, c) <= x1[b])
      {
        assert old(Good(b, r, c)) || old(Dirty(b)[panel.Y(r, c)]);
      }
    }

    // Row y into the shadow, and marked in both buffers.
    method MarkRow(y: nat)
      requires Sizes() && |x0| == |x1| == 2 && y < panel.h
      requires force || !SameBytes(y, 0, Words())
      modifies `x0, `x1, shadow, dirty0, dirty1
      ensures |x0| == |x1| == 2
      ensures forall k, b | 0 <= k < panel.h && 0 <= b < stride :: shadow[k, b] == if k == y then t1[k, b] else old(shadow[k, b])
      ensures forall k | 0 <= k < dirty0.Length :: dirty0[k] == (old(dirty0[k]) || k == y)
      ensures forall k | 0 <= k < dirty1.Length :: dirty1[k] == (old(dirty1[k]) || k == y)
      ensures old(Covered(0)) ==> (Covered(0) <==> force || old(TailMarked(0, y)))
      ensures old(Covered(1)) ==> (Covered(1) <==> force || old(TailMarked(1, y)))
      ensures old((force || TailSame(y)) && Covered(0) && Covered(1)) ==> Covered(0) && Covered(1)
    {
      if TailSame(y) {
        TailSameMarked(0, y);
        TailSameMarked(1, y);
      }
      MarkColumns(y);
      CopyRow(y);
      dirty0[y] := true;
      dirty1[y] := true;
      if force { ForcedCovered(y); } else { StillCovered(y); }
    }

    method CopyRow(y: nat)
      requires Sizes() && y < panel.h
      modifies shadow
      ensures forall k, b | 0 <= k < panel.h && 0 <= b < stride :: shadow[k, b] == if k == y then t1[k, b] else old(shadow[k, b])
    {
      forall b | 0 <= b < stride { shadow[y, b] := t1[y, b]; }
    }

    method MarkAll()
      requires Sizes() && |x0| == |x1| == 2
      modifies `x0, `x1, shadow, dirty0, dirty1
      ensures |x0| == |x1| == 2 && Covered(0) && Covered(1)
      ensures forall k, b | 0 <= k < panel.h && 0 <= b < stride :: shadow[k, b] == t1[k, b]
      ensures forall y | 0 <= y < panel.h :: dirty0[y] && dirty1[y]
    {
      forall i | 0 <= i < dirty0.Length { dirty0[i] := true; }
      forall i | 0 <= i < dirty1.Length { dirty1[i] := true; }
      x0 := [0, 0];
      x1 := [panel.w - 1, panel.w - 1];
      forall k, b | 0 <= k < panel.h && 0 <= b < stride { shadow[k, b] := t1[k, b]; }
    }

    // The rows a snapshot copies: those whose words differ, or all when forced.
    ghost predicate Copies(y: nat)
      requires Sizes() && y < panel.h
      reads t1, shadow, `force
    {
      force || !SameBytes(y, 0, Words())
    }

    ghost predicate CopiesSome(from: nat, to: nat)
      requires Sizes()
      reads t1, shadow, `force
    {
      exists y :: from <= y < to && y < panel.h && Copies(y)
    }

    lemma Uncopied(y: nat)
      requires Sizes() && y < panel.h && !Copies(y) && (force || TailSame(y))
      ensures forall b | 0 <= b < stride :: t1[y, b] == shadow[y, b]
    {
      forall b | 0 <= b < stride
        ensures t1[y, b] == shadow[y, b]
      {
        if b >= Words() {
          assert TailSame(y);
        }
      }
    }

    // What is compared of a row is a matter of its own bytes.
    twostate lemma RowAsBefore(y: nat)
      requires Sizes() && y < panel.h && unchanged(t1)
      requires forall b | 0 <= b < stride :: shadow[y, b] == old(shadow[y, b])
      ensures SameBytes(y, 0, Words()) == old(SameBytes(y, 0, Words()))
      ensures TailSame(y) == old(TailSame(y))
    {
    }

    // Rows from..to, one by one.
    method MarkRows(from: nat, to: nat)
      requires Sizes() && |x0| == |x1| == 2 && Covered(0) && Covered(1) && to <= panel.h
      modifies `x0, `x1, shadow, dirty0, dirty1
      ensures |x0| == |x1| == 2
      ensures forall k, b | 0 <= k < panel.h && 0 <= b < stride ::
                shadow[k, b] == if from <= k < to && old(Copies(k)) then t1[k, b] else old(shadow[k, b])
      ensures old(forall k | from <= k < to :: force || TailSame(k)) ==> Covered(0) && Covered(1)
      ensures forall k | 0 <= k < panel.h :: dirty0[k] == (old(dirty0[k]) || (from <= k < to && old(Copies(k))))
      ensures forall k | 0 <= k < panel.h :: dirty1[k] == (old(dirty1[k]) || (from <= k < to && old(Copies(k))))
    {
      hide SameBytes, TailSame;
      var y := from;
      ghost var tails := forall k | from <= k < to :: force || TailSame(k);
      while y < to
        invariant from <= y && (y <= to || y == from)
        invariant |x0| == |x1| == 2
        invariant forall k, b | 0 <= k < panel.h && 0 <= b < stride ::
                    shadow[k, b] == if from <= k < y && old(Copies(k)) then t1[k, b] else old(shadow[k, b])
        invariant tails ==> Covered(0) && Covered(1)
        invariant forall k | 0 <= k < panel.h :: dirty0[k] == (old(dirty0[k]) || (from <= k < y && old(Copies(k))))
        invariant forall k | 0 <= k < panel.h :: dirty1[k] == (old(dirty1[k]) || (from <= k < y && old(Copies(k))))
      {
        RowAsBefore(y);
        var same := RowSame(y);
        if force || !same {
          MarkRow(y);
        }
        y := y + 1;
      }
    }

    // A pending flip taken back, so that nothing swaps under the pass.
    method TakeBack() returns (rearm: bool)
      modifies `flipPending
      ensures rearm == old(doubleBuffered && flipPending)
      ensures flipPending == (old(flipPending) && !doubleBuffered)
    {
      rearm := false;
      if doubleBuffered && flipPending {
        rearm := flipPending;
        flipPending := false;
      }
    }

    // The changed rows from..to into the shadow, and their marks into both buffers.
    method MarkChanges(from: nat, to: nat)
      requires Valid()
      modifies `x0, `x1, `force, shadow, dirty0, dirty1
      ensures |x0| == |x1| == 2
      ensures force == (old(force) && !(from == 0 && to >= panel.h))
      ensures forall k, b | 0 <= k < panel.h && 0 <= b < stride ::
                shadow[k, b] == if from <= k < to && old(Copies(k)) then t1[k, b] else old(shadow[k, b])
      ensures old(forall k | from <= k < to && k < panel.h :: force || TailSame(k)) ==> Covered(0) && Covered(1)
      ensures AnyDirty(0) <==> old(AnyDirty(0) || CopiesSome(from, to))
      ensures AnyDirty(1) <==> old(AnyDirty(1) || CopiesSome(from, to))
    {
      hide SameBytes, TailSame;
      var y1 := if to > panel.h then panel.h else to;
      if force && from == 0 && y1 == panel.h {
        MarkAll();
        force := false;
      } else {
        MarkRows(from, y1);
      }
      assert forall k | 0 <= k < panel.h :: Dirty(0)[k] == (old(Dirty(0)[k]) || (from <= k < to && old(Copies(k))));
      assert forall k | 0 <= k < panel.h :: Dirty(1)[k] == (old(Dirty(1)[k]) || (from <= k < to && old(Copies(k))));
    }

    // term_snapshot(): the flip is taken back and the changes are marked.
    method Snapshot(from: nat, to: nat) returns (rearm: bool)
      requires Valid()
      modifies `x0, `x1, `flipPending, `force, shadow, dirty0, dirty1
      ensures State() && !flipPending && rearm == old(flipPending)
      ensures force == (old(force) && !(from == 0 && to >= panel.h))
      ensures forall k, b | 0 <= k < panel.h && 0 <= b < stride ::
                shadow[k, b] == if from <= k < to && old(Copies(k)) then t1[k, b] else old(shadow[k, b])
      ensures old(forall k | from <= k < to && k < panel.h :: force || TailSame(k)) ==> Covered(0) && Covered(1)
      ensures AnyDirty(0) <==> old(AnyDirty(0) || CopiesSome(from, to))
      ensures AnyDirty(1) <==> old(AnyDirty(1) || CopiesSome(from, to))
    {
      hide Bit, Panel.X, Panel.Y, OnPanel;
      rearm := TakeBack();
      assert forall k | 0 <= k < panel.h :: Copies(k) == old(Copies(k)) && TailSame(k) == old(TailSame(k));
      MarkChanges(from, to);
    }

    // ------------------------------------------------------------ the drawing

    // Eight pixels at panel row r from column c: exactly they become right.
    method PutUnit(b: Index, r: nat, c: nat, u: seq<Color>)
      requires Sizes() && OnPanel(r, c) && OnPanel(r, c + 7) && |u| == 8
      requires forall i | 0 <= i < 8 :: u[i] == ColorOf(panel.X(r, c + i), panel.Y(r, c + i))
      modifies Fb(b)
      ensures forall i, j | OnPanel(i, j) :: Good(b, i, j) == (old(Good(b, i, j)) || (i == r && c <= j < c + 8))
    {
      hide ColorOf;
      var fb := Fb(b);
      forall i | 0 <= i < 8 { fb[r, c + i] := u[i]; }
      forall i, j | OnPanel(i, j)
        ensures Good(b, i, j) == (old(Good(b, i, j)) || (i == r && c <= j < c + 8))
      {
        if i == r && c <= j < c + 8 {
          assert fb[r, c + (j - c)] == u[j - c];
        }
      }
    }

    // Where byte k of row y goes, unturned, and the byte whose pixels go there:
    // upside down its pixels are mirrored.
    function UnitRow(y: nat): int { if panel.rot == Rot180 then panel.h - 1 - y else y }

    function UnitCol(k: nat): int { if panel.rot == Rot180 then panel.w - 8 - 8 * k else 8 * k }

    function UnitByte(y: nat, k: nat): byte
      requires Sizes() && y < panel.h && k < stride
      reads shadow
    {
      if panel.rot == Rot180 then Rev8(shadow[y, k]) else shadow[y, k]
    }

    lemma UnitPlace(y: nat, k: nat)
      requires Sizes() && !panel.Turned() && y < panel.h && k < stride
      ensures OnPanel(UnitRow(y), UnitCol(k)) && OnPanel(UnitRow(y), UnitCol(k) + 7)
      ensures forall i, j | OnPanel(i, j) ::
                i == UnitRow(y) && UnitCol(k) <= j < UnitCol(k) + 8 <==> panel.Y(i, j) == y && 8 * k <= panel.X(i, j) < 8 * k + 8
    {
    }

    lemma UnitPixel(y: nat, k: nat, i: nat)
      requires Sizes() && !panel.Turned() && y < panel.h && k < stride && i < 8
      ensures OnPanel(UnitRow(y), UnitCol(k) + i)
      ensures (if Bit(UnitByte(y, k), i) then fg else bg)
              == ColorOf(panel.X(UnitRow(y), UnitCol(k) + i), panel.Y(UnitRow(y), UnitCol(k) + i))
    {
      hide Bit, Rev8;
      if panel.rot == Rot180 {
        Rev8Mirrors(shadow[y, k], i);
        assert panel.X(UnitRow(y), UnitCol(k) + i) == 8 * k + (7 - i);
      } else {
        assert panel.X(UnitRow(y), UnitCol(k) + i) == 8 * k + i;
      }
    }

    method PutRowUnit(b: Index, y: nat, k: nat)
      requires Sizes() && !panel.Turned() && y < panel.h && k < stride
      modifies Fb(b)
      ensures forall i, j | OnPanel(i, j) ::
                Good(b, i, j) == (old(Good(b, i, j)) || (panel.Y(i, j) == y && 8 * k <= panel.X(i, j) < 8 * k + 8))
    {
      hide Good, Bit, UnitByte, ColorOf, Panel.X, Panel.Y, UnitRow, UnitCol;
      UnitPlace(y, k);
      var u := Lut(UnitByte(y, k), fg, bg);
      forall i | 0 <= i < 8
        ensures OnPanel(UnitRow(y), UnitCol(k) + i)
        ensures u[i] == ColorOf(panel.X(UnitRow(y), UnitCol(k) + i), panel.Y(UnitRow(y), UnitCol(k) + i))
      {
        UnitPixel(y, k, i);
      }
      PutUnit(b, UnitRow(y), UnitCol(k), u);
    }

    method ConvertRow(b: Index, y: nat, ks: nat, ke: nat)
      requires Sizes() && !panel.Turned() && y < panel.h && ke <= stride
      modifies Fb(b)
      ensures forall i, j | OnPanel(i, j) ::
                Good(b, i, j) == (old(Good(b, i, j)) || (panel.Y(i, j) == y && 8 * ks <= panel.X(i, j) < 8 * ke))
    {
      hide Good, Panel.X, Panel.Y;
      var k := ks;
      while k < ke
        invariant ks <= k && (k <= ke || k == ks)
        invariant forall i, j | OnPanel(i, j) ::
                    Good(b, i, j) == (old(Good(b, i, j)) || (panel.Y(i, j) == y && 8 * ks <= panel.X(i, j) < 8 * k))
      {
        PutRowUnit(b, y, k);
        k := k + 1;
      }
    }

    // The unturned conversion of buffer b: its dirty rows, bytes ks..ke of each.
    method DrawRows(b: Index, ks: nat, ke: nat) returns (n: nat)
      requires Sizes() && !panel.Turned() && ke <= stride
      modifies Fb(b), Dirty(b)
      ensures forall i, j | OnPanel(i, j) ::
                Good(b, i, j) == (old(Good(b, i, j)) || (old(Dirty(b)[panel.Y(i, j)]) && 8 * ks <= panel.X(i, j) < 8 * ke))
      ensures n > 0 <==> old(AnyDirty(b))
      ensures forall y | 0 <= y < Dirty(b).Length :: !Dirty(b)[y]
    {
      hide Good, ColorOf;
      n := 0;
      var dirty := Dirty(b);
      for y := 0 to dirty.Length
        invariant forall k | 0 <= k < dirty.Length :: dirty[k] == (y <= k && old(dirty[k]))
        invariant forall i, j | OnPanel(i, j) ::
                    Good(b, i, j) == (old(Good(b, i, j)) ||
                        (panel.Y(i, j) < y && old(dirty[panel.Y(i, j)]) && 8 * ks <= panel.X(i, j) < 8 * ke))
        invariant n > 0 <==> exists k :: 0 <= k < y && k < panel.h && old(dirty[k])
      {
        if dirty[y] {
          dirty[y] := false;
          if y < panel.h {
            ConvertRow(b, y, ks, ke);
            n := n + 1;
          }
        }
      }
    }

    // ------------------------------------------------- the turned conversion

    // Eight rows make a band; its byte-wide column of eight rows, transposed.
    function BandColumns(band: nat, bx: nat): bv64
      requires Sizes() && panel.Turned() && band < panel.h / 8 && bx < stride
      reads shadow
    {
      Columns(seq(8, i requires 0 <= i < 8 reads shadow => shadow[8 * band + i, bx]))
    }

    // Where column x of a band goes, turned: eight pixels of panel row BandRow(x).
    function BandRow(x: nat): int { if panel.rot == Rot270 then panel.w - 1 - x else x }

    function BandCol(band: nat): int { if panel.rot == Rot270 then 8 * band else panel.h - 8 - 8 * band }

    function BandByte(v: byte): byte { if panel.rot == Rot270 then v else Rev8(v) }

    lemma BandPlace(band: nat, x: nat)
      requires Sizes() && panel.Turned() && band < panel.h / 8 && x < panel.w
      ensures OnPanel(BandRow(x), BandCol(band)) && OnPanel(BandRow(x), BandCol(band) + 7)
      ensures forall i, k | OnPanel(i, k) ::
                i == BandRow(x) && BandCol(band) <= k < BandCol(band) + 8 <==> panel.X(i, k) == x && panel.Y(i, k) / 8 == band
    {
    }

    lemma BandPixel(band: nat, bx: nat, j: nat, i: nat)
      requires Sizes() && panel.Turned() && band < panel.h / 8 && bx < stride && j < 8 && i < 8
      ensures OnPanel(BandRow(8 * bx + j), BandCol(band) + i)
      ensures (if Bit(BandByte(ByteAt(BandColumns(band, bx), Small(j))), i) then fg else bg)
              == ColorOf(panel.X(BandRow(8 * bx + j), BandCol(band) + i), panel.Y(BandRow(8 * bx + j), BandCol(band) + i))
    {
      hide Bit, Rev8, ByteAt, Columns;
      var rows := seq(8, i requires 0 <= i < 8 reads shadow => shadow[8 * band + i, bx]);
      var x := 8 * bx + j;
      assert x / 8 == bx && x % 8 == j;
      if panel.rot == Rot270 {
        ColumnBits(rows, j, i);
        assert panel.Y(BandRow(x), BandCol(band) + i) == 8 * band + i;
      } else {
        Rev8Mirrors(ByteAt(Columns(rows), Small(j)), i);
        ColumnBits(rows, j, 7 - i);
        assert panel.Y(BandRow(x), BandCol(band) + i) == 8 * band + (7 - i);
      }
    }

    method PutBandUnit(b: Index, band: nat, bx: nat, j: nat, col: bv64)
      requires Sizes() && panel.Turned() && band < panel.h / 8 && bx < stride && j < 8
      requires col == BandColumns(band, bx)
      modifies Fb(b)
      ensures forall i, k | OnPanel(i, k) ::
                Good(b, i, k) == (old(Good(b, i, k)) || (panel.X(i, k) == 8 * bx + j && panel.Y(i, k) / 8 == band))
    {
      hide Good, Bit, BandByte, ColorOf, BandColumns, ByteAt, Panel.X, Panel.Y, BandRow, BandCol;
      BandPlace(band, 8 * bx + j);
      var u := Lut(BandByte(ByteAt(col, Small(j))), fg, bg);
      forall i | 0 <= i < 8
        ensures OnPanel(BandRow(8 * bx + j), BandCol(band) + i)
        ensures u[i] == ColorOf(panel.X(BandRow(8 * bx + j), BandCol(band) + i), panel.Y(BandRow(8 * bx + j), BandCol(band) + i))
      {
        BandPixel(band, bx, j, i);
      }
      PutUnit(b, BandRow(8 * bx + j), BandCol(band), u);
    }

    ghost predicate Bands(bands: seq<nat>)
      requires Sizes()
    {
      forall q | 0 <= q < |bands| :: bands[q] < panel.h / 8
    }

    method PutColumnUp(b: Index, bands: seq<nat>, bx: nat, j: nat, cols: seq<bv64>)
      requires Sizes() && panel.Turned() && Bands(bands) && bx < stride && j < 8 && |cols| == |bands|
      requires forall q | 0 <= q < |bands| :: cols[q] == BandColumns(bands[q], bx)
      modifies Fb(b)
      ensures forall i, k | OnPanel(i, k) ::
                Good(b, i, k) == (old(Good(b, i, k)) || (panel.X(i, k) == 8 * bx + j && panel.Y(i, k) / 8 in bands))
    {
      hide Good, ColorOf, Panel.X, Panel.Y, BandColumns;
      for q := 0 to |bands|
        invariant forall i, k | OnPanel(i, k) ::
                    Good(b, i, k) == (old(Good(b, i, k)) || (panel.X(i, k) == 8 * bx + j && panel.Y(i, k) / 8 in bands[..q]))
      {
        PutBandUnit(b, bands[q], bx, j, cols[q]);
        assert bands[..q + 1] == bands[..q] + [bands[q]];
      }
      assert bands[..|bands|] == bands;
    }

    method PutColumnDown(b: Index, bands: seq<nat>, bx: nat, j: nat, cols: seq<bv64>)
      requires Sizes() && panel.Turned() && Bands(bands) && bx < stride && j < 8 && |cols| == |bands|
      requires forall q | 0 <= q < |bands| :: cols[q] == BandColumns(bands[q], bx)
      modifies Fb(b)
      ensures forall i, k | OnPanel(i, k) ::
                Good(b, i, k) == (old(Good(b, i, k)) || (panel.X(i, k) == 8 * bx + j && panel.Y(i, k) / 8 in bands))
    {
      hide Good, ColorOf, Panel.X, Panel.Y, BandColumns;
      for q := |bands| downto 0
        invariant forall i, k | OnPanel(i, k) ::
                    Good(b, i, k) == (old(Good(b, i, k)) || (panel.X(i, k) == 8 * bx + j && panel.Y(i, k) / 8 in bands[q..]))
      {
        PutBandUnit(b, bands[q], bx, j, cols[q]);
        assert bands[q..] == [bands[q]] + bands[q + 1..];
      }
      assert bands[0..] == bands;
    }

    // One column of the frame, in every band: upwards at 270 degrees, downwards
    // at 90, so that the panel's addresses ascend.
    method PutColumn(b: Index, bands: seq<nat>, bx: nat, j: nat, cols: seq<bv64>)
      requires Sizes() && panel.Turned() && Bands(bands) && bx < stride && j < 8 && |cols| == |bands|
      requires forall q | 0 <= q < |bands| :: cols[q] == BandColumns(bands[q], bx)
      modifies Fb(b)
      ensures forall i, k | OnPanel(i, k) ::
                Good(b, i, k) == (old(Good(b, i, k)) || (panel.X(i, k) == 8 * bx + j && panel.Y(i, k) / 8 in bands))
    {
      hide Good, ColorOf, Panel.X, Panel.Y, BandColumns;
      if panel.rot == Rot270 {
        PutColumnUp(b, bands, bx, j, cols);
      } else {
        PutColumnDown(b, bands, bx, j, cols);
      }
    }

    ghost predicate BandDirty(b: Index, q: nat)
      requires Sizes() && q < panel.h / 8
      reads Dirty(b)
    {
      exists y :: 8 * q <= y < 8 * q + 8 && Dirty(b)[y]
    }

    lemma RowsBand(b: Index, y: nat)
      requires Sizes() && panel.Turned() && y < panel.h && Dirty(b)[y]
      ensures y / 8 < panel.h / 8 && BandDirty(b, y / 8)
    {
    }

    lemma BandsGathered(b: Index, bands: seq<nat>)
      requires Sizes() && panel.Turned() && Bands(bands)
      requires forall k | 0 <= k < |bands| :: BandDirty(b, bands[k])
      requires forall y | 0 <= y < panel.h && Dirty(b)[y] :: y / 8 in bands
      ensures forall q | 0 <= q < panel.h / 8 :: q in bands <==> BandDirty(b, q)
      ensures bands != [] <==> AnyDirty(b)
    {
      forall q | 0 <= q < panel.h / 8 && BandDirty(b, q)
        ensures q in bands
      {
        var y :| 8 * q <= y < 8 * q + 8 && Dirty(b)[y];
        assert y / 8 == q;
      }
      if bands != [] {
        assert BandDirty(b, bands[0]);
      }
    }

    // The bands with a dirty row, ascending, each once.
    method DirtyBands(b: Index) returns (bands: seq<nat>)
      requires Sizes() && panel.Turned()
      ensures Bands(bands)
      ensures forall i, k | 0 <= i < k < |bands| :: bands[i] < bands[k]
      ensures forall q | 0 <= q < panel.h / 8 :: q in bands <==> BandDirty(b, q)
      ensures bands != [] <==> AnyDirty(b)
    {
      hide BandDirty;
      var dirty := Dirty(b);
      bands := [];
      var y := 0;
      while y < panel.h
        invariant 0 <= y <= panel.h && |bands| <= y / 8
        invariant forall k | 0 <= k < |bands| :: 8 * bands[k] + 8 <= y
        invariant forall i, k | 0 <= i < k < |bands| :: bands[i] < bands[k]
        invariant forall k | 0 <= k < |bands| :: BandDirty(b, bands[k])
        invariant forall i | 0 <= i < y && dirty[i] :: i / 8 in bands
      {
        if dirty[y] {
          RowsBand(b, y);
          if |bands| < ROT_MAX_BANDS {
            bands := bands + [y / 8];
          }
          y := 8 * (y / 8) + 8;
        } else {
          y := y + 1;
        }
      }
      BandsGathered(b, bands);
    }

    method ClearDirty(b: Index)
      modifies Dirty(b)
      ensures forall y | 0 <= y < Dirty(b).Length :: !Dirty(b)[y]
    {
      var dirty := Dirty(b);
      forall y | 0 <= y < dirty.Length { dirty[y] := false; }
    }

    method GatherColumns(bands: seq<nat>, bx: nat) returns (cols: seq<bv64>)
      requires Sizes() && panel.Turned() && Bands(bands) && bx < stride
      ensures |cols| == |bands| && forall q | 0 <= q < |bands| :: cols[q] == BandColumns(bands[q], bx)
    {
      hide BandColumns;
      cols := [];
      for q := 0 to |bands|
        invariant |cols| == q && forall i | 0 <= i < q :: cols[i] == BandColumns(bands[i], bx)
      {
        cols := cols + [BandColumns(bands[q], bx)];
      }
    }

    // Byte columns ks..ke of the given bands.
    method ConvertBands(b: Index, bands: seq<nat>, ks: nat, ke: nat)
      requires Sizes() && panel.Turned() && Bands(bands) && ke <= stride
      modifies Fb(b)
      ensures forall i, k | OnPanel(i, k) ::
                Good(b, i, k) == (old(Good(b, i, k)) || (8 * ks <= panel.X(i, k) < 8 * ke && panel.Y(i, k) / 8 in bands))
    {
      hide Good, ColorOf, Panel.X, Panel.Y;
      var bx := ks;
      while bx < ke
        invariant ks <= bx && (bx <= ke || bx == ks)
        invariant forall i, k | OnPanel(i, k) ::
                    Good(b, i, k) == (old(Good(b, i, k)) || (8 * ks <= panel.X(i, k) < 8 * bx && panel.Y(i, k) / 8 in bands))
      {
        PutByteColumn(b, bands, bx);
        bx := bx + 1;
      }
    }

    method PutByteColumn(b: Index, bands: seq<nat>, bx: nat)
      requires Sizes() && panel.Turned() && Bands(bands) && bx < stride
      modifies Fb(b)
      ensures forall i, k | OnPanel(i, k) ::
                Good(b, i, k) == (old(Good(b, i, k)) || (8 * bx <= panel.X(i, k) < 8 * bx + 8 && panel.Y(i, k) / 8 in bands))
    {
      hide Good, ColorOf, Panel.X, Panel.Y, Columns;
      var cols := GatherColumns(bands, bx);
      for j := 0 to 8
        invariant forall i, k | OnPanel(i, k) ::
                    Good(b, i, k) == (old(Good(b, i, k)) || (8 * bx <= panel.X(i, k) < 8 * bx + j && panel.Y(i, k) / 8 in bands))
      {
        PutColumn(b, bands, bx, j, cols);
      }
    }

    // The turned conversion of buffer b: its dirty bands, bytes ks..ke of each.
    method DrawBands(b: Index, ks: nat, ke: nat) returns (n: nat)
      requires Sizes() && panel.Turned() && ke <= stride
      modifies Fb(b), Dirty(b)
      ensures forall i, k | OnPanel(i, k) ::
                Good(b, i, k) == (old(Good(b, i, k)) ||
                    (old(BandDirty(b, panel.Y(i, k) / 8)) && 8 * ks <= panel.X(i, k) < 8 * ke))
      ensures n > 0 <==> old(AnyDirty(b))
      ensures forall y | 0 <= y < Dirty(b).Length :: !Dirty(b)[y]
    {
      hide Good, ColorOf;
      var bands := DirtyBands(b);
      ClearDirty(b);
      ConvertBands(b, bands, ks, ke);
      n := |bands|;
    }

    // ------------------------------------------------------------- the passes

    // The back buffer's columns, in bytes; its range is then empty.
    method TakeColumns(b: Index) returns (ks: nat, ke: nat)
      requires Sizes() && |x0| == |x1| == 2
      modifies `x0, `x1
      ensures |x0| == |x1| == 2 && x0 == old(x0)[b := EMPTY_X0] && x1 == old(x1)[b := 0]
      ensures ke <= stride
      ensures old(x0[b] <= x1[b]) ==> 8 * ks <= old(x0[b]) && (8 * ke > old(x1[b]) || ke == stride)
    {
      ks, ke := 0, stride;
      if x0[b] <= x1[b] {
        ks := x0[b] / 8;
        ke := x1[b] / 8 + 1;
        if ke > stride { ke := stride; }
      }
      x0 := x0[b := EMPTY_X0];
      x1 := x1[b := 0];
    }

    // The dirty part of buffer b converted: then all of it is right.
    method DrawBuffer(b: Index) returns (n: nat)
      requires Sizes() && |x0| == |x1| == 2 && Covered(b)
      modifies `x0, `x1, Fb(b), Dirty(b)
      ensures |x0| == |x1| == 2 && x0[1 - b] == old(x0[1 - b]) && x1[1 - b] == old(x1[1 - b])
      ensures Clean(b)
      ensures n > 0 <==> old(AnyDirty(b))
      ensures forall y | 0 <= y < Dirty(b).Length :: !Dirty(b)[y]
    {
      hide Bit, Panel.X, Panel.Y;
      var ks, ke := TakeColumns(b);
      label Taken:
      if panel.Turned() {
        n := DrawBands(b, ks, ke);
      } else {
        n := DrawRows(b, ks, ke);
      }
      forall r, c | OnPanel(r, c)
        ensures Good(b, r, c)
      {
        OnFrame(r, c);
        assert old(Good(b, r, c)) || (old(Dirty(b)[panel.Y(r, c)]) && old(x0[b]) <= panel.X(r, c) <= old(x1[b]));
        assert old@Taken(Good(b, r, c)) == old(Good(b, r, c));
        if panel.Turned() && !old(Good(b, r, c)) {
          assert old@Taken(BandDirty(b, panel.Y(r, c) / 8));
        }
      }
    }

    lemma OnFrame(r: int, c: int)
      requires Sizes() && OnPanel(r, c)
      ensures 0 <= panel.X(r, c) < panel.w && 0 <= panel.Y(r, c) < panel.h
    {
    }

    // term_draw(): the back buffer's dirty part, and the flip armed.
    method Draw(rearm: bool)
      requires Valid() && !flipPending
      modifies `x0, `x1, `flipPending, Fb(Back()), Dirty(Back())
      ensures State() && Covered(0) && Covered(1) && Clean(Back())
      ensures flipPending == (doubleBuffered && scanning && (old(AnyDirty(Back())) || rearm))
      ensures forall y | 0 <= y < panel.h :: !Dirty(Back())[y]
    {
      hide Bit, OnPanel, Panel.X, Panel.Y;
      var n := DrawBuffer(Back());
      if doubleBuffered && (n > 0 || rearm) {
        Flip();
      }
    }

    // dsi_lcd_flip(): nothing, unless a second buffer is being scanned out.
    method Flip()
      modifies `flipPending
      ensures flipPending == (old(flipPending) || (doubleBuffered && scanning))
    {
      if !doubleBuffered || !scanning { return; }
      flipPending := true;
    }

    // The frame end: the glass goes on to the buffer that was next.
    method FrameEnd()
      requires Valid()
      modifies `front, `flipPending
      ensures Valid() && !flipPending && front == Next() == old(Next())
      ensures old(GlassOk()) ==> GlassOk()
    {
      hide Bit, OnPanel, Panel.X, Panel.Y;
      if flipPending && doubleBuffered {
        front := 1 - front;
        flipPending := false;
      }
    }

    // A right buffer shows the new picture exactly if the frame has not changed, or
    // the two colours are one.
    lemma ShowsExact(b: Index, from: nat, to: nat)
      requires Sizes() && Clean(b)
      ensures Shows(b, from, to) <==> fg == bg || !Changes(from, to)
    {
      if fg != bg && Changes(from, to) {
        var y, k :| from <= y < to && y < panel.h && 0 <= k < stride && t1[y, k] != shadow[y, k];
        ChangedPixel(b, from, to, y, k);
      } else {
        hide Bit, Panel.X, Panel.Y;
        forall r, c | OnPanel(r, c)
          ensures ShowsAt(b, from, to, r, c)
        {
          OnFrame(r, c);
          assert Good(b, r, c);
          assert 0 <= panel.X(r, c) / 8 < stride;
        }
      }
    }

    lemma ChangedPixel(b: Index, from: nat, to: nat, y: nat, k: nat)
      requires Sizes() && Clean(b) && fg != bg && from <= y < to && y < panel.h && k < stride && t1[y, k] != shadow[y, k]
      ensures !Shows(b, from, to)
    {
      var i: nat := DifferentBit(t1[y, k], shadow[y, k]);
      var x := 8 * k + i;
      assert x / 8 == k && x % 8 == i;
      var r, c := panel.Row(x, y), panel.Col(x, y);
      panel.Bijection(x, y);
      assert Good(b, r, c) && !ShowsAt(b, from, to, r, c);
    }

    // A pass's two steps: the snapshot, and the drawing.
    method Convert(from: nat, to: nat)
      requires Valid()
      requires forall k | from <= k < to && k < panel.h :: force || TailSame(k)
      modifies `x0, `x1, `flipPending, `force, shadow, dirty0, dirty1, Fb(Back())
      ensures Valid() && Clean(Back()) && !AnyDirty(Back())
      ensures force == (old(force) && !(from == 0 && to >= panel.h))
      ensures forall k, b | 0 <= k < panel.h && 0 <= b < stride ::
                shadow[k, b] == if from <= k < to then t1[k, b] else old(shadow[k, b])
      ensures old(!CopiesSome(from, to)) ==>
              forall k, b | 0 <= k < panel.h && 0 <= b < stride :: shadow[k, b] == old(shadow[k, b])
      ensures flipPending == (doubleBuffered && scanning && old(flipPending || AnyDirty(Back()) || CopiesSome(from, to)))
    {
      hide Bit, OnPanel, Panel.X, Panel.Y, Copies;
      forall k | from <= k < to && k < panel.h && !Copies(k)
        ensures forall b | 0 <= b < stride :: t1[k, b] == shadow[k, b]
      {
        Uncopied(k);
      }
      var rearm := Snapshot(from, to);
      Draw(rearm);
    }

    // term_convert(): rows from..to of the frame into the shadow, and the back
    // buffer brought up to it, its marks cleared. The glass is right after the next
    // frame end, if it was before or anything was copied. Where the scan-out is
    // stopped the flip is not armed, and the front buffer keeps what it had: it is
    // right then if it showed the new picture already.
    method Pass(from: nat, to: nat)
      requires Valid()
      requires forall k | from <= k < to && k < panel.h :: force || TailSame(k)
      modifies `x0, `x1, `flipPending, `force, shadow, dirty0, dirty1, Fb(Back())
      ensures Valid() && Clean(Back()) && !AnyDirty(Back())
      ensures force == (old(force) && !(from == 0 && to >= panel.h))
      ensures forall k, b | 0 <= k < panel.h && 0 <= b < stride ::
                shadow[k, b] == if from <= k < to then t1[k, b] else old(shadow[k, b])
      ensures (scanning || !doubleBuffered) && (old(GlassOk()) || old(CopiesSome(from, to))) ==> Clean(Next())
      ensures flipPending == (doubleBuffered && scanning && old(flipPending || AnyDirty(Back()) || CopiesSome(from, to)))
      ensures doubleBuffered ==> Clean(front) == old(Shows(front, from, to))
    {
      hide Bit, Panel.X, Panel.Y, Copies, CopiesSome;
      Convert(from, to);
      if doubleBuffered {
        forall r, c | OnPanel(r, c)
          ensures Good(front, r, c) == old(ShowsAt(front, from, to, r, c))
        {
          OnFrame(r, c);
          assert 0 <= panel.X(r, c) / 8 < stride;
        }
        if old(!CopiesSome(from, to)) {
          forall r, c | OnPanel(r, c)
            ensures Good(front, r, c) == old(Good(front, r, c))
          {
            OnFrame(r, c);
            assert 0 <= panel.X(r, c) / 8 < stride;
          }
        }
      }
    }

    // A forced pass over the whole frame needs no earlier one to be right.
    method FullPass()
      requires Valid() && force
      modifies `x0, `x1, `flipPending, `force, shadow, dirty0, dirty1, Fb(Back())
      ensures Valid() && Clean(Back()) && !force
      ensures forall k, b | 0 <= k < panel.h && 0 <= b < stride :: shadow[k, b] == t1[k, b]
      ensures doubleBuffered && scanning ==> flipPending
      ensures scanning || !doubleBuffered ==> Clean(Next())
      ensures doubleBuffered && old(Clean(front) && !Changes(0, panel.h)) ==> Clean(front)
    {
      hide Bit, OnPanel, Panel.X, Panel.Y;
      assert Copies(0);
      if Clean(front) { ShowsExact(front, 0, panel.h); }
      Pass(0, panel.h);
    }

    method Blacken()
      requires Sizes()
      modifies fb0, fb1
      ensures forall r, c | OnPanel(r, c) :: fb0[r, c] == 0 && fb1[r, c] == 0
    {
      forall r, c | 0 <= r < fb0.Length0 && 0 <= c < fb0.Length1 { fb0[r, c] := 0; }
      forall r, c | 0 <= r < fb1.Length0 && 0 <= c < fb1.Length1 { fb1[r, c] := 0; }
    }

    // Every row and column of both buffers to be drawn, whatever they show.
    method MarkFull()
      requires Sizes()
      modifies `x0, `x1, dirty0, dirty1
      ensures |x0| == |x1| == 2 && Covered(0) && Covered(1) && AnyDirty(0) && AnyDirty(1)
    {
      hide Bit, Panel.X, Panel.Y;
      forall i | 0 <= i < dirty0.Length { dirty0[i] := true; }
      forall i | 0 <= i < dirty1.Length { dirty1[i] := true; }
      x0 := [0, 0];
      x1 := [FULL_X1, FULL_X1];
      assert Dirty(0)[0] && Dirty(1)[0];
      forall r, c | OnPanel(r, c)
        ensures 0 <= panel.X(r, c) <= FULL_X1 && 0 <= panel.Y(r, c) < panel.h
      {
        OnFrame(r, c);
      }
    }

    // fb_start(), its two buffers allocated: black, and everything to be drawn.
    method FbStart()
      requires Sizes()
      modifies `x0, `x1, `front, `flipPending, `scanning, fb0, fb1, dirty0, dirty1
      ensures Valid() && GlassOk() && scanning && front == 0 && !flipPending
      ensures forall r, c | OnPanel(r, c) :: fb0[r, c] == 0 && fb1[r, c] == 0
    {
      hide Bit, Panel.X, Panel.Y, OnPanel;
      flipPending := false;
      scanning := false;
      Blacken();
      front := 0;
      MarkFull();
      scanning := true;
    }

    // scan_stop(): a flip that was armed is dropped. The glass stays owed a frame
    // exactly when nothing marks the back buffer and the front one is wrong.
    method ScanStop()
      requires Valid()
      modifies `flipPending, `scanning
      ensures Valid() && !scanning && (!flipPending || !old(scanning)) && Next() == front
      ensures Clean(front) == old(Clean(front)) && AnyDirty(Back()) == old(AnyDirty(Back()))
      ensures GlassOk() <==> old(Clean(front) || AnyDirty(Back()))
      ensures old(GlassOk()) ==> (GlassOk() <==> old(!flipPending || Clean(front) || AnyDirty(Back())))
    {
      hide Bit, Panel.X, Panel.Y;
      if scanning {
        flipPending := false;
        scanning := false;
      }
    }

    // scan_start(), with a buffer to show.
    method ScanStart()
      requires Valid()
      modifies `scanning
      ensures Valid() && scanning && Next() == old(Next())
      ensures GlassOk() == old(GlassOk())
    {
      hide Bit, Panel.X, Panel.Y;
      if scanning { return; }
      scanning := true;
    }

    // A pass and then a stop, or a pass while stopped: the flip is lost. The glass is
    // right afterwards exactly if it showed the new picture already -- if it was right
    // before, exactly if no byte of those rows has changed or the colours are one.
    // Nothing is left to put it right: no row is marked.
    method PassThenStop(from: nat, to: nat)
      requires Valid() && doubleBuffered
      requires forall k | from <= k < to && k < panel.h :: force || TailSame(k)
      modifies `x0, `x1, `flipPending, `scanning, `force, shadow, dirty0, dirty1, Fb(Back())
      ensures Valid() && !scanning && Next() == front && !AnyDirty(Back())
      ensures GlassOk() <==> Clean(front)
      ensures GlassOk() <==> old(Shows(front, from, to))
      ensures old(Clean(front)) ==> (GlassOk() <==> fg == bg || !old(Changes(from, to)))
    {
      hide Bit, OnPanel, Panel.X, Panel.Y, FrameColor;
      if Clean(front) { ShowsExact(front, from, to); }
      Pass(from, to);
      ScanStop();
    }

    // Every pixel of the frame is of the colour 0.
    ghost predicate BlackFrame()
      requires Sizes()
      reads t1, shadow
    {
      forall x, y | 0 <= x < panel.w && 0 <= y < panel.h :: FrameColor(0, panel.h, x, y) == 0
    }

    // From the start, a pass and a restart of the scan-out: the glass is left right
    // only by a frame that is black all over, as the buffers are.
    method StartPassRestart()
      requires Sizes() && doubleBuffered && (force || stride % 8 == 0)
      modifies `x0, `x1, `front, `flipPending, `scanning, `force, fb0, fb1, shadow, dirty0, dirty1
      ensures Valid() && scanning && !flipPending
      ensures GlassOk() <==> old(BlackFrame())
    {
      hide Bit, OnPanel, Panel.X, Panel.Y;
      FbStart();
      BlackShows();
      PassThenStop(0, panel.h);
      ScanStart();
    }

    lemma BlackShows()
      requires Sizes() && forall r, c | OnPanel(r, c) :: fb0[r, c] == 0
      ensures Shows(0, 0, panel.h) <==> BlackFrame()
    {
      hide Bit, FrameColor, Panel.X, Panel.Y, Panel.Row, Panel.Col;
      forall r, c | OnPanel(r, c)
        ensures 0 <= panel.X(r, c) < panel.w && 0 <= panel.Y(r, c) < panel.h
      {
        OnFrame(r, c);
      }
      if Shows(0, 0, panel.h) {
        forall x, y | 0 <= x < panel.w && 0 <= y < panel.h
          ensures FrameColor(0, panel.h, x, y) == 0
        {
          panel.Bijection(x, y);
          assert OnPanel(panel.Row(x, y), panel.Col(x, y));
          assert ShowsAt(0, 0, panel.h, panel.Row(x, y), panel.Col(x, y));
        }
      }
    }

    method CountDifferences(a: Index, b: Index) returns (diff: nat)
      requires Sizes()
      ensures diff == 0 <==> forall r, c | OnPanel(r, c) :: Fb(a)[r, c] == Fb(b)[r, c]
    {
      diff := 0;
      for r := 0 to panel.Rows()
        invariant diff == 0 <==> forall i, j | 0 <= i < r && 0 <= j < panel.Cols() :: Fb(a)[i, j] == Fb(b)[i, j]
      {
        for c := 0 to panel.Cols()
          invariant diff == 0 <==> forall i, j | 0 <= i <= r && 0 <= j < panel.Cols() && (i < r || j < c) ::
                    Fb(a)[i, j] == Fb(b)[i, j]
        {
          if Fb(a)[r, c] != Fb(b)[r, c] { diff := diff + 1; }
        }
      }
    }

    // What is due, brought onto the glass.
    method Settle()
      requires Valid() && GlassOk() && scanning && doubleBuffered
      requires forall k | 0 <= k < panel.h :: force || TailSame(k)
      modifies `x0, `x1, `front, `flipPending, `force, shadow, dirty0, dirty1, fb0, fb1
      ensures Valid() && !flipPending && Clean(front) && !Changes(0, panel.h)
    {
      hide Bit, OnPanel, Panel.X, Panel.Y;
      Pass(0, panel.h);
      FrameEnd();
    }

    // term_check(): what the passes left on the glass against a full redraw of the
    // same frame. It finds no difference.
    method Check() returns (diff: int)
      requires Valid() && GlassOk() && scanning && doubleBuffered
      requires forall k | 0 <= k < panel.h :: force || TailSame(k)
      modifies `x0, `x1, `front, `flipPending, `force, shadow, dirty0, dirty1, fb0, fb1
      ensures diff == 0
      ensures Valid() && GlassOk() && Clean(front)
    {
      hide Bit, OnPanel, Panel.X, Panel.Y;
      Settle();
      var inc := front;
      force := true;
      FullPass();
      FrameEnd();
      var full := front;
      diff := -1;
      if inc != full {
        diff := CountDifferences(inc, full);
        assert forall r, c | OnPanel(r, c) :: Good(inc, r, c) && Good(full, r, c);
      }
    }
  }

  // The seven-inch panel's blank page, black on white: drawn, and lost to a restart.
  method LostFlip() returns (d: Display)
    ensures d.Valid() && d.scanning && !d.flipPending && !d.GlassOk()
  {
    d := new Display(Panel(Rot0, 1024, 600), true, 0, 0xFFFF);
    assert !Bit(d.t1[0, 0], 0);
    assert d.FrameColor(0, 600, 0, 0) == 0xFFFF;
    d.StartPassRestart();
  }

  // Two bytes that differ do so in some bit.
  lemma DifferentBit(a: byte, b: byte) returns (i: nat)
    requires a != b
    ensures i < 8 && Bit(a, i) != Bit(b, i)
  {
    if forall k: nat | k < 8 :: Bit(a, k) == Bit(b, k) {
      SameBits(a, b);
      assert false;
    }
    i :| i < 8 && Bit(a, i) != Bit(b, i);
  }

  // Comparing whole words compares whole rows just when the stride is a multiple
  // of 8: the Tab5's portrait stride of 90 leaves each row's last two bytes out.
  ghost predicate WordsSame(a: seq<byte>, b: seq<byte>)
    requires |a| == |b|
  {
    forall k | 0 <= k < 8 * (|a| / 8) :: a[k] == b[k]
  }

  lemma WordsSameExact(stride: nat)
    ensures (forall a: seq<byte>, b: seq<byte> | |a| == |b| == stride :: WordsSame(a, b) <==> a == b) <==> stride % 8 == 0
  {
    if stride % 8 == 0 {
      forall a: seq<byte>, b: seq<byte> | |a| == |b| == stride && WordsSame(a, b)
        ensures a == b
      {
        assert forall k | 0 <= k < stride :: a[k] == b[k];
      }
    } else {
      var a: seq<byte> := seq(stride, i => 0 as byte);
      var b := a[stride - 1 := 1];
      assert 8 * (stride / 8) < stride;
      assert WordsSame(a, b);
      assert a[stride - 1] != b[stride - 1];
    }
  }
}
