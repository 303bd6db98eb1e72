// Moves inside a text window of a 1-bpp buffer (drivers/fbtext.c): overlapping
// in-place copies by bytes or by words. An address is an index of the memory,
// whose first byte is word-aligned.
module FbText {
  import opened Arith
  import opened Common

  // --------------------------------------------------- rows and columns of bytes

  // Byte i of a buffer whose rows are `stride` bytes from `row0` on.
  function Y(row0: nat, stride: nat, i: nat): nat
    requires 0 < stride && row0 <= i
  {
    (i - row0) / stride
  }

  function X(row0: nat, stride: nat, i: nat): nat
    requires 0 < stride && row0 <= i
  {
    (i - row0) % stride
  }

  // The bytes at columns x..x+w of row y, as a run of addresses.
  lemma RowRun(row0: nat, stride: nat, y: nat, x: nat, w: nat, i: nat)
    requires 0 < stride && x + w <= stride && row0 <= i
    ensures row0 + y * stride + x <= i < row0 + y * stride + x + w <==>
            Y(row0, stride, i) == y && x <= X(row0, stride, i) < x + w
  {
    if row0 + y * stride + x <= i < row0 + y * stride + x + w {
      QuotientIs(i - row0, stride, y, i - row0 - y * stride);
    }
  }

  // The bytes of rows lo..hi, as a run of addresses.
  lemma RowsRun(row0: nat, stride: nat, lo: nat, hi: nat, i: nat)
    requires 0 < stride && row0 <= i
    ensures row0 + lo * stride <= i < row0 + hi * stride <==> lo <= Y(row0, stride, i) < hi
  {
    var y, x := Y(row0, stride, i), X(row0, stride, i);
    assert i - row0 == y * stride + x;
    if lo <= y { Times(stride, lo, y); } else { Times(stride, y + 1, lo); }
    if y < hi { Times(stride, y + 1, hi); } else { Times(stride, hi, y); }
  }

  // k rows further on is the same column.
  lemma Shift(row0: nat, stride: nat, i: nat, k: int)
    requires 0 < stride && row0 <= i && row0 <= i + k * stride
    ensures Y(row0, stride, i + k * stride) == Y(row0, stride, i) + k
    ensures X(row0, stride, i + k * stride) == X(row0, stride, i)
  {
    var y, x := Y(row0, stride, i), X(row0, stride, i);
    assert i - row0 == y * stride + x;
    assert i + k * stride - row0 == (y + k) * stride + x;
    QuotientIs(i + k * stride - row0, stride, y + k, x);
  }

  // ------------------------------------------------------------- runs of bytes

  // n bytes went from s to d, as they were; the rest is as it was.
  ghost predicate Copied(before: seq<Byte>, now: seq<Byte>, d: nat, s: nat, n: nat)
    requires s + n <= |before|
  {
    && |now| == |before|
    && (forall i | 0 <= i < |now| && d <= i < d + n :: now[i] == before[i - d + s])
    && (forall i | 0 <= i < |now| && !(d <= i < d + n) :: now[i] == before[i])
  }

  // One copy and then the next do what one copy would, if nothing is overwritten
  // before it is read: downwards, or clear of each other.
  lemma CopiedThen(a: seq<Byte>, b: seq<Byte>, c: seq<Byte>, d: nat, s: nat, n: nat, m: nat)
    requires s + n + m <= |a| == |b| && d + n + m <= |a| && (d <= s || s + n + m <= d)
    requires Copied(a, b, d, s, n) && Copied(b, c, d + n, s + n, m)
    ensures Copied(a, c, d, s, n + m)
  {
    forall i | 0 <= i < |c| && d <= i < d + (n + m)
      ensures c[i] == a[i - d + s]
    {
      if d + n <= i {
        assert c[i] == b[i - d + s] == a[i - d + s];
      } else {
        assert c[i] == b[i];
      }
    }
  }

  method BytesMoveDown(mem: array<Byte>, d: nat, s: nat, n: nat)
    requires d + n <= mem.Length && s + n <= mem.Length && (d <= s || s + n <= d)
    modifies mem
    ensures Copied(old(mem[..]), mem[..], d, s, n)
  {
    for i := 0 to n
      invariant Copied(old(mem[..]), mem[..], d, s, i)
    {
      ghost var was := mem[..];
      mem[d + i] := mem[s + i];
      assert Copied(was, mem[..], d + i, s + i, 1);
      CopiedThen(old(mem[..]), was, mem[..], d, s, i, 1);
    }
  }

  method MoveWord(mem: array<Byte>, d: nat, s: nat)
    requires d + 4 <= mem.Length && s + 4 <= mem.Length
    modifies mem
    ensures Copied(old(mem[..]), mem[..], d, s, 4)
  {
    mem[d], mem[d + 1], mem[d + 2], mem[d + 3] := mem[s], mem[s + 1], mem[s + 2], mem[s + 3];
  }

  // Whole words, from and to word-aligned addresses.
  method WordsMoveDown(mem: array<Byte>, d: nat, s: nat, words: nat)
    requires d + 4 * words <= mem.Length && s + 4 * words <= mem.Length && (d <= s || s + 4 * words <= d)
    requires d % 4 == 0 && s % 4 == 0
    modifies mem
    ensures Copied(old(mem[..]), mem[..], d, s, 4 * words)
  {
    NothingCopied(mem[..], d, s);
    hide Copied;
    for i := 0 to words
      invariant Copied(old(mem[..]), mem[..], d, s, 4 * i)
    {
      ghost var was := mem[..];
      MoveWord(mem, d + 4 * i, s + 4 * i);
      CopiedThen(old(mem[..]), was, mem[..], d, s, 4 * i, 4);
    }
  }

  lemma NothingCopied(bytes: seq<Byte>, d: nat, s: nat)
    requires s <= |bytes|
    ensures Copied(bytes, bytes, d, s, 0)
  {
  }

  // Bytes up to a word boundary of the destination.
  method CopyHead(mem: array<Byte>, d: nat, s: nat, n: nat) returns (k: nat)
    requires d + n <= mem.Length && s + n <= mem.Length && (d <= s || s + n <= d)
    modifies mem
    ensures k <= n && (k == n || (d + k) % 4 == 0)
    ensures Copied(old(mem[..]), mem[..], d, s, k)
  {
    k := 0;
    while k < n && (d + k) % 4 != 0
      invariant k <= n
      invariant Copied(old(mem[..]), mem[..], d, s, k)
    {
      ghost var was := mem[..];
      mem[d + k] := mem[s + k];
      assert Copied(was, mem[..], d + k, s + k, 1);
      CopiedThen(old(mem[..]), was, mem[..], d, s, k, 1);
      k := k + 1;
    }
  }

  // The words between, if the source is aligned where the destination is.
  method CopyMiddle(mem: array<Byte>, d: nat, s: nat, n: nat) returns (words: nat)
    requires d + n <= mem.Length && s + n <= mem.Length && (d <= s || s + n <= d)
    requires n == 0 || d % 4 == 0
    modifies mem
    ensures 4 * words <= n && Copied(old(mem[..]), mem[..], d, s, 4 * words)
  {
    words := 0;
    if s % 4 == 0 && n > 0 {
      words := n / 4;
      WordsMoveDown(mem, d, s, words);
    }
  }

  // row_copy(): bytes up to a word boundary, words if both ends allow it, the rest
  // as bytes.
  method RowCopy(mem: array<Byte>, d: nat, s: nat, n: nat)
    requires d + n <= mem.Length && s + n <= mem.Length && (d <= s || s + n <= d)
    modifies mem
    ensures Copied(old(mem[..]), mem[..], d, s, n)
  {
    hide Copied;
    var k := CopyHead(mem, d, s, n);
    ghost var head := mem[..];
    var words := CopyMiddle(mem, d + k, s + k, n - k);
    ghost var middle := mem[..];
    CopiedThen(old(mem[..]), head, middle, d, s, k, 4 * words);
    var m := k + 4 * words;
    BytesMoveDown(mem, d + m, s + m, n - m);
    CopiedThen(old(mem[..]), middle, mem[..], d, s, m, n - m);
  }

  ghost predicate Zeroed(before: seq<Byte>, now: seq<Byte>, d: nat, n: nat) {
    && |now| == |before|
    && (forall i | 0 <= i < |now| && d <= i < d + n :: now[i] == 0)
    && (forall i | 0 <= i < |now| && !(d <= i < d + n) :: now[i] == before[i])
  }

  method WordsZero(mem: array<Byte>, d: nat, words: nat)
    requires d + 4 * words <= mem.Length && d % 4 == 0
    modifies mem
    ensures Zeroed(old(mem[..]), mem[..], d, 4 * words)
  {
    for i := 0 to words
      invariant Zeroed(old(mem[..]), mem[..], d, 4 * i)
    {
      var a := d + 4 * i;
      mem[a], mem[a + 1], mem[a + 2], mem[a + 3] := 0, 0, 0, 0;
    }
  }

  // row_zero()
  method RowZero(mem: array<Byte>, d: nat, n: nat)
    requires d + n <= mem.Length
    modifies mem
    ensures Zeroed(old(mem[..]), mem[..], d, n)
  {
    var k := 0;
    while k < n && (d + k) % 4 != 0
      invariant k <= n
      invariant Zeroed(old(mem[..]), mem[..], d, k)
    {
      mem[d + k] := 0;
      k := k + 1;
    }
    if k < n {
      WordsZero(mem, d + k, (n - k) / 4);
      k := k + 4 * ((n - k) / 4);
    }
    while k < n
      invariant k <= n
      invariant Zeroed(old(mem[..]), mem[..], d, k)
    {
      mem[d + k] := 0;
      k := k + 1;
    }
  }

  // ----------------------------------------------------------------- the window

  class Text {
    const mem: array<Byte>
    const fb: nat              // the window's first byte
    const stride: nat          // bytes in a pixel row
    const cols: nat            // cells
    const rows: nat
    const xbyte: nat           // how far into its pixel row the window starts
    const wholeRows: bool      // a scroll may take what lies beside it along
    const cellH: nat           // pixel rows in a cell
    const cellBytes: nat

    // Bytes in k pixel rows; pixel rows in m cell rows.
    function Len(k: int): int { k * stride }

    function Pix(m: int): int { m * cellH }

    ghost predicate Valid() {
      && 0 < stride && 0 < cellH && 0 < cellBytes && xbyte <= fb
      && xbyte + cols * cellBytes <= stride
      && fb - xbyte + Len(Pix(rows)) <= mem.Length
    }

    // fbtext_init(), and the two fields the screen sets after it.
    constructor (mem: array<Byte>, fb: nat, stride: nat, cols: nat, rows: nat,
                 xbyte: nat, wholeRows: bool, cellH: nat, cellBytes: nat)
      requires 0 < stride && 0 < cellH && 0 < cellBytes && xbyte <= fb && xbyte + cols * cellBytes <= stride
      requires fb - xbyte + rows * cellH * stride <= mem.Length
      ensures Valid() && this.mem == mem && this.fb == fb && this.stride == stride && this.cols == cols && this.rows == rows
      ensures this.xbyte == xbyte && this.wholeRows == wholeRows && this.cellH == cellH && this.cellBytes == cellBytes
    {
      this.mem, this.fb, this.stride, this.cols, this.rows := mem, fb, stride, cols, rows;
      this.xbyte, this.wholeRows, this.cellH, this.cellBytes := xbyte, wholeRows, cellH, cellBytes;
    }

    function Row0(): int { fb - xbyte }

    function Width(): nat { cols * cellBytes }

    // The window's first byte of pixel row y.
    function At(y: int): int { fb + Len(y) }

    predicate WordOk(p: int) { p % 4 == 0 && stride % 4 == 0 }

    // Byte i is in pixel rows lo..hi, in the window or (whole) anywhere across.
    ghost predicate In(i: nat, lo: int, hi: int, whole: bool)
      requires Valid()
    {
      Row0() <= i && lo <= Y(Row0(), stride, i) < hi && (whole || xbyte <= X(Row0(), stride, i) < xbyte + Width())
    }

    // Pixel rows lo..hi show what lay k pixel rows further on, column for column;
    // every other byte is as it was.
    ghost predicate Shifted(before: seq<Byte>, now: seq<Byte>, lo: int, hi: int, k: int, whole: bool)
      requires Valid()
    {
      && |now| == |before|
      && (forall i: nat | i < |now| && In(i, lo, hi, whole) :: 0 <= i + Len(k) < |before| && now[i] == before[i + Len(k)])
      && (forall i: nat | i < |now| && !In(i, lo, hi, whole) :: now[i] == before[i])
    }

    // The window's pixel rows lo..hi are blank; every other byte is as it was.
    ghost predicate Cleared(before: seq<Byte>, now: seq<Byte>, lo: int, hi: int)
      requires Valid()
    {
      && |now| == |before|
      && (forall i: nat | i < |now| && In(i, lo, hi, false) :: now[i] == 0)
      && (forall i: nat | i < |now| && !In(i, lo, hi, false) :: now[i] == before[i])
    }

    // ------------------------------------------------ addresses, rows and columns

    lemma Sum(a: int, b: int)
      ensures Len(a + b) == Len(a) + Len(b) && Pix(a + b) == Pix(a) + Pix(b)
      ensures Len(0) == 0 && Pix(0) == 0 && Len(1) == stride && Pix(1) == cellH
    {
    }

    lemma Product(m: int)
      ensures Pix(m) == m * cellH && Len(m) == m * stride && Len(Pix(m)) == m * (cellH * stride)
    {
    }

    lemma Rising(a: int, b: int)
      requires a <= b
      ensures Len(a) <= Len(b) && Pix(a) <= Pix(b)
      ensures a < b && Valid() ==> Len(a) + stride <= Len(b) && Pix(a) + cellH <= Pix(b)
    {
      Times(stride, a, b);
      Times(cellH, a, b);
      if a < b {
        Times(stride, a + 1, b);
        Times(cellH, a + 1, b);
      }
    }

    ghost predicate InRow(i: nat, y: int)
      requires Valid()
    {
      Row0() <= i && Y(Row0(), stride, i) == y && xbyte <= X(Row0(), stride, i) < xbyte + Width()
    }

    lemma AtRow(y: nat)
      requires Valid() && y < Pix(rows)
      ensures 0 <= At(y) && At(y) + Width() <= mem.Length
      ensures forall i: nat {:trigger InRow(i, y)} :: At(y) <= i < At(y) + Width() <==> InRow(i, y)
    {
      hide X, Y, Pix;
      Rising(0, y);
      Rising(y, Pix(rows));
      forall i: nat {:trigger InRow(i, y)}
        ensures At(y) <= i < At(y) + Width() <==> InRow(i, y)
      {
        if Row0() <= i { RowRun(Row0(), stride, y, xbyte, Width(), i); }
      }
    }

    // The bytes of whole rows are one run.
    lemma WideRun(lo: nat, hi: nat, whole: bool)
      requires Valid() && lo <= hi <= Pix(rows) && (whole || Width() == stride)
      ensures 0 <= Row0() + Len(lo) <= Row0() + Len(hi) <= mem.Length
      ensures forall i: nat :: Row0() + Len(lo) <= i < Row0() + Len(hi) <==> In(i, lo, hi, whole)
    {
      hide X, Y, Pix;
      Rising(0, lo);
      Rising(lo, hi);
      Rising(hi, Pix(rows));
      forall i: nat
        ensures Row0() + Len(lo) <= i < Row0() + Len(hi) <==> In(i, lo, hi, whole)
      {
        if Row0() <= i {
          RowsRun(Row0(), stride, lo, hi, i);
          Column(i);
        }
      }
    }

    lemma Column(i: nat)
      requires Valid() && Row0() <= i
      ensures 0 <= X(Row0(), stride, i) < stride
    {
    }

    // k rows further on is the same column.
    lemma RowShift(i: nat, y: nat, k: int)
      requires Valid() && InRow(i, y) && 0 <= y + k < Pix(rows)
      ensures 0 <= i + Len(k) < mem.Length && InRow(i + Len(k), y + k)
    {
      hide Pix;
      ByteOf(i);
      AtRow(y + k);
      Sum(y, k);
      Shift(Row0(), stride, i, k);
    }

    lemma ByteOf(i: nat)
      requires Valid() && Row0() <= i
      ensures i == Row0() + Len(Y(Row0(), stride, i)) + X(Row0(), stride, i)
    {
    }

    // One more row of a move: its source row has not been overwritten yet.
    lemma ShiftedRow(before: seq<Byte>, was: seq<Byte>, now: seq<Byte>, lo: int, hi: int, y: nat, k: int)
      requires Valid() && y < Pix(rows) && 0 <= y + k < Pix(rows)
      requires lo <= hi && (y == hi || y == lo - 1) && !(lo <= y + k < hi)
      requires |before| == |was| == mem.Length && Shifted(before, was, lo, hi, k, false)
      requires 0 <= At(y) && 0 <= At(y + k) && At(y + k) + Width() <= |was|
      requires Copied(was, now, At(y), At(y + k), Width())
      ensures Shifted(before, now, if y < lo then y else lo, if y < lo then hi else y + 1, k, false)
    {
      hide X, Y, At, Len, Pix;
      AtRow(y);
      var lo1, hi1 := if y < lo then y else lo, if y < lo then hi else y + 1;
      forall i: nat | i < |now|
        ensures In(i, lo1, hi1, false) <==> In(i, lo, hi, false) || InRow(i, y)
        ensures InRow(i, y) ==> 0 <= i + Len(k) < |before| && now[i] == before[i + Len(k)]
        ensures !InRow(i, y) ==> now[i] == was[i]
      {
        if InRow(i, y) {
          ShiftedByte(was, now, y, k, i);
          RowShift(i, y, k);
          assert !In(i + Len(k), lo, hi, false);
        }
      }
    }

    lemma ShiftedByte(was: seq<Byte>, now: seq<Byte>, y: nat, k: int, i: nat)
      requires Valid() && y < Pix(rows) && 0 <= y + k < Pix(rows) && InRow(i, y) && i < |now|
      requires |was| == mem.Length
      requires 0 <= At(y) && 0 <= At(y + k) && At(y + k) + Width() <= |was|
      requires Copied(was, now, At(y), At(y + k), Width())
      ensures 0 <= i + Len(k) < |was| && now[i] == was[i + Len(k)]
    {
      hide X, Y, Len, Pix;
      AtRow(y);
      Sum(y, k);
      RowShift(i, y, k);
      assert now[i] == was[i - At(y) + At(y + k)];
    }

    // ----------------------------------------------------------- moving cell rows

    // Byte i is in cell row first + r of the window.
    ghost predicate InCells(i: nat, first: int, r: int)
      requires Valid()
    {
      In(i, Pix(first + r), Pix(first + r) + cellH, false)
    }

    // The r'th of n rows from dst on, and from src on, are in the window.
    predicate BothRows(dst: nat, src: nat, n: nat, r: int) {
      0 <= r < n && dst + r < rows && src + r < rows
    }

    // Cell row dst + r shows what src + r did, byte for byte.
    ghost predicate RowMoved(before: seq<Byte>, now: seq<Byte>, dst: nat, src: nat, r: int)
      requires Valid()
    {
      forall i: nat | i < |now| && InCells(i, dst, r) ::
        var j := i + (Len(Pix(src)) - Len(Pix(dst)));
        0 <= j < |before| && InCells(j, src, r) && now[i] == before[j]
    }

    ghost predicate InNone(i: nat, dst: nat, src: nat, n: nat)
      requires Valid()
    {
      forall r: int | BothRows(dst, src, n, r) :: !InCells(i, dst, r)
    }

    // Each of n cell rows that has its place and its source in the window is moved;
    // every other byte is as it was.
    ghost predicate RowsMoved(before: seq<Byte>, now: seq<Byte>, dst: nat, src: nat, n: nat)
      requires Valid()
    {
      && |now| == |before|
      && (forall r: int | BothRows(dst, src, n, r) :: RowMoved(before, now, dst, src, r))
      && (forall i: nat | i < |now| && InNone(i, dst, src, n) :: now[i] == before[i])
    }

    // Cell rows are rows of pixel rows.
    lemma CellRow(i: nat, lo: nat, m: nat)
      requires Valid() && In(i, Pix(lo), Pix(lo) + Pix(m), false)
      ensures var r := Y(Row0(), stride, i) / cellH - lo; 0 <= r < m && InCells(i, lo, r)
    {
      hide X, Y, Len, Pix;
      var y := Y(Row0(), stride, i);
      CellOf(y, lo, lo + m);
      CellOf(y, y / cellH, y / cellH + 1);
      Sum(lo, m);
      Sum(y / cellH, 1);
    }

    lemma CellOf(y: nat, lo: nat, hi: nat)
      requires 0 < cellH
      ensures Pix(lo) <= y < Pix(hi) <==> lo <= y / cellH < hi
    {
      RowsRun(0, cellH, lo, hi, y);
    }

    lemma CellRowIn(i: nat, lo: nat, m: nat, r: nat)
      requires Valid() && r < m && InCells(i, lo, r)
      ensures In(i, Pix(lo), Pix(lo) + Pix(m), false)
    {
      hide X, Y, Len, Pix;
      Sum(lo, r);
      Rising(0, r);
      Sum(r, 1);
      Sum(0, 0);
      Rising(r + 1, m);
    }

    lemma CellRowMoved(i: nat, dst: nat, src: nat, r: nat)
      requires Valid() && dst + r < rows && src + r < rows && InCells(i, dst, r)
      ensures var j := i + (Len(Pix(src)) - Len(Pix(dst))); 0 <= j < mem.Length && InCells(j, src, r)
    {
      hide X, Y, Len, Pix;
      var k := Pix(src) - Pix(dst);
      Sum(dst, r);
      Sum(src, r);
      Sum(src + r, 1);
      Sum(Pix(dst), k);
      Sum(0, 0);
      Rising(0, src + r);
      Rising(src + r + 1, rows);
      RowShift(i, Y(Row0(), stride, i), k);
    }

    lemma ShiftedIsMoved(before: seq<Byte>, now: seq<Byte>, dst: nat, src: nat, n: nat, m: nat)
      requires Valid() && |before| == mem.Length
      requires forall r: int :: 0 <= r < m <==> BothRows(dst, src, n, r)
      requires Shifted(before, now, Pix(dst), Pix(dst) + Pix(m), Pix(src) - Pix(dst), false)
      ensures RowsMoved(before, now, dst, src, n)
    {
      hide X, Y, Len, Pix, InCells, BothRows;
      forall r: int | BothRows(dst, src, n, r)
        ensures RowMoved(before, now, dst, src, r)
      {
        forall i: nat | i < |now| && InCells(i, dst, r)
          ensures var j := i + (Len(Pix(src)) - Len(Pix(dst))); 0 <= j < |before| && InCells(j, src, r) && now[i] == before[j]
        {
          InBoth(dst, src, n, r);
          CellRowIn(i, dst, m, r);
          CellRowMoved(i, dst, src, r);
          Sum(Pix(dst), Pix(src) - Pix(dst));
        }
      }
      forall i: nat | i < |now| && InNone(i, dst, src, n)
        ensures now[i] == before[i]
      {
        if In(i, Pix(dst), Pix(dst) + Pix(m), false) { CellRow(i, dst, m); }
      }
    }

    lemma InBoth(dst: nat, src: nat, n: nat, r: int)
      requires BothRows(dst, src, n, r)
      ensures 0 <= r && dst + r < rows && src + r < rows
    {
    }

    lemma NoneMoved(was: seq<Byte>, dst: nat, src: nat, n: nat)
      requires Valid() && |was| == mem.Length && (n == 0 || dst == src || dst >= rows || src >= rows)
      ensures RowsMoved(was, was, dst, src, n)
    {
      hide X, Y, Len, Pix;
    }

    // fbtext_move_rows(), in either direction. Moving rows onto themselves moves none.
    method MoveRows(dst: nat, src: nat, n: nat)
      requires Valid()
      modifies mem
      ensures RowsMoved(old(mem[..]), mem[..], dst, src, n)
    {
      hide Copied, Shifted, X, Y, At, Len, Pix, RowsMoved;
      ghost var was := mem[..];
      if n == 0 || dst == src || dst >= rows || src >= rows {
        NoneMoved(was, dst, src, n);
        return;
      }
      var far := if dst > src then dst else src;
      var m := if n > rows - far then rows - far else n;
      MoveCells(dst, src, m);
      ShiftedIsMoved(was, mem[..], dst, src, n, m);
    }

    method MoveCells(dst: nat, src: nat, m: nat)
      requires Valid() && dst != src && dst + m <= rows && src + m <= rows
      modifies mem
      ensures Shifted(old(mem[..]), mem[..], Pix(dst), Pix(dst) + Pix(m), Pix(src) - Pix(dst), false)
    {
      hide Copied, Shifted, X, Y, At, Len, Pix, Pixels;
      CellRows(dst, src, m);
      var a, b, px := Pixels(dst), Pixels(src), Pixels(m);
      if dst < src { MoveUp(a, b, px); } else { MoveDown(a, b, px); }
    }

    // As many pixel rows as so many cell rows.
    function Pixels(m: nat): (px: nat)
      ensures px == Pix(m)
    {
      m * cellH
    }

    lemma NothingShifted(was: seq<Byte>, lo: int, k: int, whole: bool)
      requires Valid()
      ensures Shifted(was, was, lo, lo, k, whole)
    {
    }

    lemma CellRows(dst: nat, src: nat, m: nat)
      requires Valid() && dst + m <= rows && src + m <= rows && dst != src
      ensures Pix(dst + m) == Pix(dst) + Pix(m) <= Pix(rows) && Pix(src) + Pix(m) <= Pix(rows)
      ensures Pix(src - dst) == Pix(src) - Pix(dst)
      ensures if dst < src then Pix(dst) < Pix(src) else Pix(src) < Pix(dst)
    {
      hide Len, Pix;
      Sum(dst, m);
      Sum(src, m);
      Sum(src - dst, dst);
      Rising(dst + m, rows);
      Rising(src + m, rows);
      if dst < src { Rising(dst, src); } else { Rising(src, dst); }
    }

    // First row first: a row is read before the move gets to it.
    method MoveUp(a: nat, b: nat, px: nat)
      requires Valid() && a < b && b + px <= Pix(rows)
      modifies mem
      ensures Shifted(old(mem[..]), mem[..], a, a + px, b - a, false)
    {
      hide Copied, Shifted, X, Y, Len, Pix;
      NothingShifted(mem[..], a, b - a, false);
      for y := 0 to px
        invariant Shifted(old(mem[..]), mem[..], a, a + y, b - a, false)
      {
        ghost var was := mem[..];
        PixelRowAt(a, y);
        PixelRowAt(b, y);
        MovePixelRow(fb + a * stride + y * stride, fb + b * stride + y * stride, a + y, b - a);
        ShiftedRow(old(mem[..]), was, mem[..], a, a + y, a + y, b - a);
      }
    }

    // Last row first.
    method MoveDown(a: nat, b: nat, px: nat)
      requires Valid() && b < a && a + px <= Pix(rows)
      modifies mem
      ensures Shifted(old(mem[..]), mem[..], a, a + px, b - a, false)
    {
      hide Copied, Shifted, X, Y, Len, Pix;
      NothingShifted(mem[..], a + px, b - a, false);
      for y := px downto 0
        invariant Shifted(old(mem[..]), mem[..], a + y, a + px, b - a, false)
      {
        ghost var was := mem[..];
        PixelRowAt(a, y);
        PixelRowAt(b, y);
        MovePixelRow(fb + a * stride + y * stride, fb + b * stride + y * stride, a + y, b - a);
        ShiftedRow(old(mem[..]), was, mem[..], a + y + 1, a + px, a + y, b - a);
      }
    }

    lemma PixelRowAt(a: nat, y: nat)
      requires Valid() && a + y < Pix(rows)
      ensures fb + a * stride + y * stride == At(a + y) && 0 <= At(a + y) && At(a + y) + Width() <= mem.Length
    {
      hide Pix;
      AtRow(a + y);
    }

    // Pixel row y of a move, k rows up or down.
    method MovePixelRow(d: nat, s: nat, ghost y: nat, ghost k: int)
      requires Valid() && y < Pix(rows) && 0 <= y + k < Pix(rows) && k != 0
      requires d == At(y) && s == At(y + k)
      modifies mem
      ensures 0 <= At(y) && 0 <= At(y + k) && At(y + k) + Width() <= mem.Length
      ensures Copied(old(mem[..]), mem[..], At(y), At(y + k), Width())
    {
      hide Copied, X, Y, Len, Pix;
      AtRow(y);
      AtRow(y + k);
      if k < 0 { Rising(y + k, y); } else { Rising(y, y + k); }
      RowCopy(mem, d, s, Width());
    }

    // ------------------------------------------------------------------- clearing

    lemma ClearedRow(before: seq<Byte>, was: seq<Byte>, now: seq<Byte>, lo: int, y: nat)
      requires Valid() && lo <= y < Pix(rows) && |before| == mem.Length
      requires Cleared(before, was, lo, y) && 0 <= At(y) && Zeroed(was, now, At(y), Width())
      ensures Cleared(before, now, lo, y + 1)
    {
      hide X, Y, At, Len, Pix;
      AtRow(y);
      forall i: nat | i < |now|
        ensures In(i, lo, y + 1, false) <==> In(i, lo, y, false) || InRow(i, y)
        ensures InRow(i, y) ==> now[i] == 0
        ensures !InRow(i, y) ==> now[i] == was[i]
      {
        assert InRow(i, y) <==> At(y) <= i < At(y) + Width();
      }
    }

    // fbtext_clear_rows(): cell rows row..row+n of the window, as far as it goes.
    method ClearRows(row: nat, n: nat)
      requires Valid()
      modifies mem
      ensures Cleared(old(mem[..]), mem[..], Pix(row), Pix(if row + n < rows then row + n else rows))
    {
      hide Zeroed, X, Y, At, Len, Pix;
      NoneCleared(mem[..], row, n);
      if n == 0 || row >= rows { return; }
      var m := if n > rows - row then rows - row else n;
      Clipped(row, m);
      var px := m * cellH;
      if WordOk(fb) && Width() == stride {
        ClearRun(row * cellH, px);
      } else {
        ClearPixelRows(row * cellH, px);
      }
    }

    lemma NoneCleared(was: seq<Byte>, row: nat, n: nat)
      requires Valid()
      ensures n == 0 || row >= rows ==> Cleared(was, was, Pix(row), Pix(if row + n < rows then row + n else rows))
    {
      hide X, Y, Len, Pix;
      if row >= rows { Rising(rows, row); }
    }

    lemma Clipped(row: nat, m: nat)
      requires Valid() && row + m <= rows
      ensures Pix(row) == row * cellH && Pix(m) == m * cellH && Pix(row + m) == Pix(row) + Pix(m) <= Pix(rows)
      ensures Pix(row) >= 0 && Pix(m) >= 0
    {
      Rising(row + m, rows);
      Rising(0, row);
      Rising(0, m);
    }

    method ClearRun(a: nat, px: nat)
      requires Valid() && a + px <= Pix(rows) && WordOk(fb) && Width() == stride
      modifies mem
      ensures Cleared(old(mem[..]), mem[..], a, a + px)
    {
      hide X, Y, In, Zeroed, Cleared, Len, Pix;
      var d, words := RunOfWords(a, px);
      WordsZero(mem, d, words);
      RunCleared(old(mem[..]), mem[..], a, px);
    }

    function Bytes(k: nat): (n: nat)
      ensures n == Len(k)
    {
      k * stride
    }

    method RunOfWords(a: nat, px: nat) returns (d: nat, words: nat)
      requires Valid() && a + px <= Pix(rows) && WordOk(fb) && Width() == stride
      ensures d == fb + Len(a) && 4 * words == Len(px) && d % 4 == 0 && 0 <= Len(a) && d + 4 * words <= mem.Length
    {
      hide X, Y, In, Len, Pix, Bytes;
      d, words := fb + Bytes(a), Bytes(px) / 4;
      WordRun(a, px);
      Sum(a, px);
      Sum(0, 0);
      Rising(0, a);
      WideRun(a, a + px, false);
    }

    // Word-aligned rows are whole words.
    lemma WordRun(a: nat, px: nat)
      requires stride % 4 == 0
      ensures Len(a) % 4 == 0 && Len(px) % 4 == 0
    {
      var q := stride / 4;
      assert a * stride == 4 * (a * q);
      assert px * stride == 4 * (px * q);
    }

    lemma RunCleared(before: seq<Byte>, now: seq<Byte>, a: nat, px: nat)
      requires Valid() && a + px <= Pix(rows) && Width() == stride
      requires Len(a) >= 0 && Len(px) >= 0 && Zeroed(before, now, fb + Len(a), Len(px))
      ensures Cleared(before, now, a, a + px)
    {
      hide X, Y, In, Len, Pix;
      WideRun(a, a + px, false);
      Sum(a, px);
    }

    method ClearPixelRows(a: nat, px: nat)
      requires Valid() && a + px <= Pix(rows)
      modifies mem
      ensures Cleared(old(mem[..]), mem[..], a, a + px)
    {
      hide Zeroed, Cleared, X, Y, Len, Pix;
      PixelRow0(a);
      var p := fb + a * stride;
      NothingCleared(mem[..], a);
      for y := 0 to px
        invariant p == At(a + y)
        invariant Cleared(old(mem[..]), mem[..], a, a + y)
      {
        ghost var was := mem[..];
        PixelRowAt(a, y);
        RowZero(mem, p, Width());
        ClearedRow(old(mem[..]), was, mem[..], a, a + y);
        p := p + stride;
        Sum(a + y, 1);
      }
    }

    lemma PixelRow0(a: nat)
      ensures fb + a * stride == At(a)
    {
    }

    lemma NothingCleared(was: seq<Byte>, lo: int)
      requires Valid()
      ensures Cleared(was, was, lo, lo)
    {
    }

    // ------------------------------------------------------------------ scrolling

    // Scrolled up by m cell rows: pixel row r shows what row r + Pix(m) did, and the
    // last m cell rows of the window are blank. Beside the window, rows move too
    // only if `whole`.
    ghost predicate Scrolled(before: seq<Byte>, now: seq<Byte>, m: nat, whole: bool)
      requires Valid() && m <= rows
    {
      ScrolledTo(before, now, Pix(rows - m), Pix(rows), Len(Pix(m)), whole)
    }

    ghost predicate ScrolledTo(before: seq<Byte>, now: seq<Byte>, top: int, end: int, dist: int, whole: bool)
      requires Valid()
    {
      && |now| == |before|
      && (forall i: nat | i < |now| && In(i, top, end, false) :: now[i] == 0)
      && (forall i: nat | i < |now| && In(i, 0, top, whole) :: 0 <= i + dist < |before| && now[i] == before[i + dist])
      && (forall i: nat | i < |now| && !In(i, 0, top, whole) && !In(i, top, end, false) :: now[i] == before[i])
    }

    lemma ShiftThenClear(before: seq<Byte>, mid: seq<Byte>, now: seq<Byte>, m: nat, whole: bool)
      requires Valid() && m <= rows
      requires Shifted(before, mid, 0, Pix(rows - m), Pix(m), whole)
      requires Cleared(mid, now, Pix(rows - m), Pix(rows))
      ensures Scrolled(before, now, m, whole)
    {
      hide X, Y, Len, Pix;
    }

    lemma RunShifted(before: seq<Byte>, now: seq<Byte>, hi: nat, k: nat, whole: bool)
      requires Valid() && hi + k <= Pix(rows) && (whole || Width() == stride) && |before| == mem.Length
      requires Len(k) >= 0 && Len(hi) >= 0 && Row0() + Len(k) + Len(hi) <= mem.Length
      requires Copied(before, now, Row0(), Row0() + Len(k), Len(hi))
      ensures Shifted(before, now, 0, hi, k, whole)
    {
      hide X, Y, In, Len, Pix;
      WideRun(0, hi, whole);
      Sum(0, 0);
      forall i: nat | i < |now| && In(i, 0, hi, whole)
        ensures 0 <= i + Len(k) < |before| && now[i] == before[i + Len(k)]
      {
        assert now[i] == before[i - Row0() + (Row0() + Len(k))];
      }
    }

    lemma RunFits(n: nat)
      requires Valid() && n < rows
      ensures Pix(rows - n) + Pix(n) == Pix(rows) && 0 <= Pix(n) && cellH <= Pix(rows - n)
      ensures Len(Pix(n)) >= 0 && Len(Pix(rows - n)) >= 0
      ensures Row0() + Len(Pix(n)) + Len(Pix(rows - n)) <= mem.Length
      ensures n > 0 ==> 0 < Pix(n)
    {
      hide Len, Pix;
      Sum(0, 0);
      Sum(rows - n, n);
      Rising(0, n);
      Rising(0, rows - n);
      Sum(Pix(n), Pix(rows - n));
      Rising(0, Pix(n));
      Rising(0, Pix(rows - n));
    }

    // n cell rows, and the rest of the window's, in bytes.
    method LineRun(n: nat) returns (d: nat, bytes: nat)
      requires Valid() && n < rows
      ensures d == Len(Pix(n)) && bytes == Len(Pix(rows - n)) && Row0() + d + bytes <= mem.Length
      ensures stride % 4 == 0 ==> d % 4 == 0 && bytes % 4 == 0
    {
      hide Len, Pix;
      RunFits(n);
      Product(n);
      Product(rows - n);
      var line := cellH * stride;
      d, bytes := n * line, (rows - n) * line;
      if stride % 4 == 0 { WordRun(Pix(n), Pix(rows - n)); }
    }

    // The rows as one run of words.
    method ScrollWords(n: nat, whole: bool)
      requires Valid() && 0 < n < rows && (whole || Width() == stride) && WordOk(Row0())
      modifies mem
      ensures Shifted(old(mem[..]), mem[..], 0, Pix(rows - n), Pix(n), whole)
    {
      hide X, Y, In, Shifted, Copied, Len, Pix;
      RunFits(n);
      var row0 := fb - xbyte;
      var d, bytes := LineRun(n);
      WordsMoveDown(mem, row0, row0 + d, bytes / 4);
      RunShifted(old(mem[..]), mem[..], Pix(rows - n), Pix(n), whole);
    }

    // The rows of a window as wide as the buffer, byte by byte.
    method ScrollBytes(n: nat)
      requires Valid() && 0 < n < rows && Width() == stride
      modifies mem
      ensures Shifted(old(mem[..]), mem[..], 0, Pix(rows - n), Pix(n), false)
    {
      hide X, Y, In, Shifted, Copied, Len, Pix;
      RunFits(n);
      var d, bytes := LineRun(n);
      BytesMoveDown(mem, fb, fb + d, bytes);
      RunShifted(old(mem[..]), mem[..], Pix(rows - n), Pix(n), false);
    }

    // A narrower window: its own bytes of each pixel row.
    method ScrollNarrow(n: nat)
      requires Valid() && 0 < n < rows
      modifies mem
      ensures Shifted(old(mem[..]), mem[..], 0, Pix(rows - n), Pix(n), false)
    {
      hide X, Y, In, Shifted, Copied, Len, Pix;
      RunFits(n);
      Product(n);
      Product(rows - n);
      MoveUp(0, n * cellH, (rows - n) * cellH);
    }

    // Whether fbtext_scroll_up() takes, of its four ways, the one that also moves the
    // rest of the pixel rows.
    predicate MovesWhole() { wholeRows && WordOk(Row0()) }

    method ScrollRows(n: nat)
      requires Valid() && 0 < n < rows
      modifies mem
      ensures Shifted(old(mem[..]), mem[..], 0, Pix(rows - n), Pix(n), MovesWhole())
    {
      hide X, Y, In, Shifted, Copied, Len, Pix;
      if wholeRows && WordOk(Row0()) {
        ScrollWords(n, true);
      } else if Width() != stride {
        ScrollNarrow(n);
      } else if WordOk(fb) {
        ScrollWords(n, false);
      } else {
        ScrollBytes(n);
      }
    }

    // fbtext_scroll_up()
    method ScrollUp(n: nat)
      requires Valid()
      modifies mem
      ensures Scrolled(old(mem[..]), mem[..], if n > rows then rows else n, MovesWhole())
    {
      hide X, Y, In, Shifted, Cleared, Scrolled, Len, Pix;
      ghost var before := mem[..];
      Sum(0, 0);
      if n == 0 {
        NothingScrolled(before, MovesWhole());
        return;
      }
      if n >= rows {
        NothingShifted(before, 0, Pix(rows), MovesWhole());
        ClearRows(0, rows);
        ShiftThenClear(before, before, mem[..], rows, MovesWhole());
        return;
      }
      ScrollRows(n);
      ghost var mid := mem[..];
      ClearRows(rows - n, n);
      ShiftThenClear(before, mid, mem[..], n, MovesWhole());
    }

    lemma NothingScrolled(was: seq<Byte>, whole: bool)
      requires Valid() && |was| == mem.Length
      ensures Scrolled(was, was, 0, whole)
    {
      hide X, Y, Len, Pix;
      Sum(0, 0);
    }

    // What lies beside the window repeats every m cell rows; every cell row, as a
    // frame and the grey desktop do.
    ghost predicate RepeatsBy(bytes: seq<Byte>, m: nat)
      requires Valid() && m <= rows
    {
      RepeatsTo(bytes, Pix(rows - m), Len(Pix(m)))
    }

    ghost predicate RepeatsTo(bytes: seq<Byte>, top: int, dist: int)
      requires Valid()
    {
      forall i: nat | i < |bytes| && In(i, 0, top, true) && !In(i, 0, top, false) ::
        0 <= i + dist < |bytes| && bytes[i + dist] == bytes[i]
    }

    ghost predicate Repeats(bytes: seq<Byte>)
      requires Valid()
    {
      0 < rows ==> RepeatsBy(bytes, 1)
    }

    lemma InMemory(i: nat)
      requires Valid() && In(i, 0, Pix(rows), true)
      ensures i < mem.Length
    {
      hide X, Y, Pix;
      Rising(0, Pix(rows));
      WideRun(0, Pix(rows), true);
    }

    lemma Further(i: nat, m: nat)
      requires Valid() && 0 < m <= rows && In(i, 0, Pix(rows - m), true)
      ensures 0 <= Len(Pix(1))
      ensures var j := i + Len(Pix(1));
              && In(j, 0, Pix(rows - (m - 1)), true) && In(i, 0, Pix(rows - 1), true) && In(i, 0, Pix(rows), true)
              && (In(j, 0, Pix(rows - (m - 1)), false) <==> In(i, 0, Pix(rows - m), false))
              && (In(i, 0, Pix(rows - 1), false) <==> In(i, 0, Pix(rows - m), false))
              && i + Len(Pix(m)) == j + Len(Pix(m - 1))
    {
      hide X, Y, Len, Pix;
      Sum(0, 0);
      Rising(0, cellH);
      Product(cellH);
      Shift(Row0(), stride, i, cellH);
      Rising(rows - m, rows - 1);
      Rising(rows - 1, rows);
      Sum(rows - m, 1);
      Sum(m - 1, 1);
      Sum(Pix(m - 1), cellH);
    }

    // What repeats every cell row repeats every m.
    lemma {:induction false} RepeatsOn(bytes: seq<Byte>, i: nat, m: nat)
      requires Valid() && Repeats(bytes) && |bytes| == mem.Length && m <= rows
      requires In(i, 0, Pix(rows - m), true) && !In(i, 0, Pix(rows - m), false)
      ensures 0 <= i + Len(Pix(m)) < |bytes| && i < |bytes| && bytes[i + Len(Pix(m))] == bytes[i]
      decreases m
    {
      hide X, Y, Len, Pix, In;
      if m == 0 {
        Sum(0, 0);
        InMemory(i);
      } else {
        Further(i, m);
        InMemory(i);
        RepeatsOn(bytes, i + Len(Pix(1)), m - 1);
      }
    }

    lemma RepeatsAll(bytes: seq<Byte>, m: nat)
      requires Valid() && Repeats(bytes) && |bytes| == mem.Length && m <= rows
      ensures RepeatsBy(bytes, m)
    {
      hide X, Y, Len, Pix, Repeats;
      var top, dist := Pix(rows - m), Len(Pix(m));
      forall i: nat | i < |bytes| && In(i, 0, top, true) && !In(i, 0, top, false)
        ensures 0 <= i + dist < |bytes| && bytes[i + dist] == bytes[i]
      {
        RepeatsOn(bytes, i, m);
      }
    }

    // The rows above the last, of a scroll that takes whole rows.
    lemma MovedWhole(before: seq<Byte>, now: seq<Byte>, top: int, end: int, dist: int, i: nat)
      requires Valid() && ScrolledTo(before, now, top, end, dist, true) && i < |now| && In(i, 0, top, true)
      ensures 0 <= i + dist < |before| && now[i] == before[i + dist] && !In(i, top, end, false)
    {
      hide X, Y;
    }

    lemma RepeatsEnough(before: seq<Byte>, now: seq<Byte>, top: int, end: int, dist: int)
      requires Valid() && |before| == mem.Length && ScrolledTo(before, now, top, end, dist, true) && RepeatsTo(before, top, dist)
      ensures ScrolledTo(before, now, top, end, dist, false)
    {
      hide X, Y;
      forall i: nat | i < |now| && In(i, 0, top, false)
        ensures 0 <= i + dist < |before| && now[i] == before[i + dist]
      {
        assert In(i, 0, top, true);
      }
      forall i: nat | i < |now| && !In(i, 0, top, false) && !In(i, top, end, false)
        ensures now[i] == before[i]
      {
        if In(i, 0, top, true) {
          assert now[i] == before[i + dist];
        }
      }
    }

    lemma RepeatsNeeded(before: seq<Byte>, now: seq<Byte>, top: int, end: int, dist: int)
      requires Valid() && |before| == mem.Length
      requires ScrolledTo(before, now, top, end, dist, true) && ScrolledTo(before, now, top, end, dist, false)
      ensures RepeatsTo(before, top, dist)
    {
      hide In;
      forall i: nat | i < |before| && In(i, 0, top, true) && !In(i, 0, top, false)
        ensures 0 <= i + dist < |before| && before[i + dist] == before[i]
      {
        MovedWhole(before, now, top, end, dist, i);
        assert now[i] == before[i];
      }
    }

    // Moving whole rows does what moving the window alone does exactly when what
    // lies beside the window repeats at the distance of the scroll.
    lemma WholeRowsExact(before: seq<Byte>, now: seq<Byte>, m: nat)
      requires Valid() && m <= rows && |before| == mem.Length && Scrolled(before, now, m, true)
      ensures Scrolled(before, now, m, false) <==> RepeatsBy(before, m)
    {
      hide Len, Pix, In, ScrolledTo, RepeatsTo;
      var top, end, dist := Pix(rows - m), Pix(rows), Len(Pix(m));
      if RepeatsTo(before, top, dist) { RepeatsEnough(before, now, top, end, dist); }
      if ScrolledTo(before, now, top, end, dist, false) { RepeatsNeeded(before, now, top, end, dist); }
    }

    // When it repeats every cell row, at every distance.
    lemma WholeRowsSame(before: seq<Byte>, now: seq<Byte>, m: nat)
      requires Valid() && m <= rows && |before| == mem.Length
      requires Repeats(before) && Scrolled(before, now, m, true)
      ensures Scrolled(before, now, m, false)
    {
      hide X, Y, Len, Pix, In, Scrolled, Repeats, RepeatsBy;
      RepeatsAll(before, m);
      WholeRowsExact(before, now, m);
    }
  }

  // A window of two rows of one cell, a byte in, and the byte beside it.
  lemma Beside(text: Text, was: seq<Byte>, now: seq<Byte>)
    requires text.Valid() && text.fb == text.xbyte == 1 && text.stride == 4 && text.cols == text.cellBytes == 1
    requires text.rows == 2 && text.cellH == 16
    requires |was| == 128 && text.Scrolled(was, now, 1, true)
    ensures now[0] == was[64]
  {
    assert text.Pix(1) == 16 && text.Len(16) == 64 && text.Pix(2) == 32;
    hide Text.Pix, Text.Len;
    assert text.In(0, 0, 16, true);
  }

  // Where it does not repeat, a scroll changes it.
  method NeighbourMoves() returns (before: Byte, after: Byte)
    ensures before == 0 && after == 1
  {
    hide Text.ScrolledTo;
    var mem := new Byte[128](i => if i < 64 then 0 else 1);
    var text := new Text(mem, 1, 4, 1, 2, 1, true, 16, 1);
    before := mem[0];
    ghost var was := mem[..];
    assert was[64] == 1;
    text.ScrollUp(1);
    Beside(text, was, mem[..]);
    after := mem[0];
  }
}
