// Where a logical 1-bpp pixel lies on the panel, and the eight-pixel units it is
// converted in (drivers/dsi_esp32p4.c).
module DisplayMap {
  import opened Bits

  // --------------------------------------------------------- the bit tricks

  function Rev8(v: byte): byte {
    var v1 := ((v >> 1) & 0x55) | ((v & 0x55) << 1);
    var v2 := ((v1 >> 2) & 0x33) | ((v1 & 0x33) << 2);
    (v2 >> 4) | (v2 << 4)
  }

  lemma Rev8Mirrors(v: byte, i: nat)
    requires i < 8
    ensures Bit(Rev8(v), i) == Bit(v, 7 - i)
  {
  }

  function Transpose8x8(x0: bv64): bv64 {
    var t1 := (x0 ^ (x0 >> 7)) & 0x00AA00AA00AA00AA;
    var x1 := x0 ^ t1 ^ (t1 << 7);
    var t2 := (x1 ^ (x1 >> 14)) & 0x0000CCCC0000CCCC;
    var x2 := x1 ^ t2 ^ (t2 << 14);
    var t3 := (x2 ^ (x2 >> 28)) & 0x00000000F0F0F0F0;
    x2 ^ t3 ^ (t3 << 28)
  }

  predicate Bit64(x: bv64, i: bv64)
    requires i < 64
  {
    (x >> i) & 1 == 1
  }

  // Bit 8r + c moves to bit 8c + r.
  lemma TransposeMoves(x: bv64, r: bv64, c: bv64)
    requires r < 8 && c < 8
    ensures Bit64(Transpose8x8(x), 8 * c + r) == Bit64(x, 8 * r + c)
  {
  }

  lemma TransposeTwice(x: bv64)
    ensures Transpose8x8(Transpose8x8(x)) == x
  {
  }

  // Byte c of a 64-bit word.
  function ByteAt(x: bv64, c: bv64): byte
    requires c < 8
  {
    ((x >> (8 * c)) & 0xFF) as byte
  }

  function Small(i: nat): (r: bv64)
    requires i < 8
    ensures r < 8
  {
    match i
    case 0 => 0
    case 1 => 1
    case 2 => 2
    case 3 => 3
    case 4 => 4
    case 5 => 5
    case 6 => 6
    case 7 => 7
  }

  lemma ByteMask(x: bv64, c: bv64, i: bv64, m: byte)
    requires c < 8 && i < 8 && m as bv64 == 1 << i
    ensures (ByteAt(x, c) & m != 0) == Bit64(x, 8 * c + i)
  {
  }

  lemma ByteBit(x: bv64, c: bv64, i: nat)
    requires c < 8 && i < 8
    ensures Bit(ByteAt(x, c), i) == Bit64(x, 8 * c + Small(i))
  {
    ByteMask(x, c, Small(i), BitValue(i));
  }

  // Eight bytes in one word, the first lowest.
  function Pack(r0: byte, r1: byte, r2: byte, r3: byte, r4: byte, r5: byte, r6: byte, r7: byte): bv64 {
    (r0 as bv64) | ((r1 as bv64) << 8) | ((r2 as bv64) << 16) | ((r3 as bv64) << 24) |
    ((r4 as bv64) << 32) | ((r5 as bv64) << 40) | ((r6 as bv64) << 48) | ((r7 as bv64) << 56)
  }

  lemma PackBytes(r0: byte, r1: byte, r2: byte, r3: byte, r4: byte, r5: byte, r6: byte, r7: byte)
    ensures var x := Pack(r0, r1, r2, r3, r4, r5, r6, r7);
            && ByteAt(x, 0) == r0 && ByteAt(x, 1) == r1 && ByteAt(x, 2) == r2 && ByteAt(x, 3) == r3
            && ByteAt(x, 4) == r4 && ByteAt(x, 5) == r5 && ByteAt(x, 6) == r6 && ByteAt(x, 7) == r7
  {
  }

  // Byte b of the transposed word is column b of the eight rows: its bit r is
  // row r's bit b.
  function Columns(rows: seq<byte>): bv64
    requires |rows| == 8
  {
    Transpose8x8(Pack(rows[0], rows[1], rows[2], rows[3], rows[4], rows[5], rows[6], rows[7]))
  }

  lemma PackedRow(rows: seq<byte>, r: nat)
    requires |rows| == 8 && r < 8
    ensures ByteAt(Pack(rows[0], rows[1], rows[2], rows[3], rows[4], rows[5], rows[6], rows[7]), Small(r)) == rows[r]
  {
    hide Pack, ByteAt;
    PackBytes(rows[0], rows[1], rows[2], rows[3], rows[4], rows[5], rows[6], rows[7]);
  }

  lemma ColumnBits(rows: seq<byte>, b: nat, r: nat)
    requires |rows| == 8 && b < 8 && r < 8
    ensures Bit(ByteAt(Columns(rows), Small(b)), r) == Bit(rows[r], b)
  {
    hide Pack, ByteAt, Transpose8x8, Bit64, Bit;
    var x := Pack(rows[0], rows[1], rows[2], rows[3], rows[4], rows[5], rows[6], rows[7]);
    PackedRow(rows, r);
    ByteBit(x, Small(r), b);
    TransposeMoves(x, Small(r), Small(b));
    ByteBit(Transpose8x8(x), Small(b), r);
  }

  // ------------------------------------------------------------ colour units

  type Color = nat

  // A byte's eight pixels, leftmost first (lut_build()).
  function Lut(v: byte, fg: Color, bg: Color): (u: seq<Color>)
    ensures |u| == 8 && forall i | 0 <= i < 8 :: u[i] == if Bit(v, i) then fg else bg
  {
    seq(8, i requires 0 <= i < 8 => if Bit(v, i) then fg else bg)
  }

  // ------------------------------------------------------------ the rotation

  datatype Rotation = Rot0 | Rot90 | Rot180 | Rot270

  // A picture of the given height turned clockwise: what was at the top is at the
  // right, what was at the left at the top.
  function QuarterTurn(p: (int, int), height: int): (int, int) { (height - 1 - p.1, p.0) }

  // The logical frame (w x h) and the panel's own size in that orientation.
  datatype Panel = Panel(rot: Rotation, w: nat, h: nat) {
    predicate Turned() { rot == Rot90 || rot == Rot270 }

    function Rows(): nat { if Turned() then w else h }

    function Cols(): nat { if Turned() then h else w }

    // Panel row and column of logical pixel (x, y).
    function Row(x: int, y: int): int {
      match rot
      case Rot0 => y
      case Rot90 => x
      case Rot180 => h - 1 - y
      case Rot270 => w - 1 - x
    }

    function Col(x: int, y: int): int {
      match rot
      case Rot0 => x
      case Rot90 => h - 1 - y
      case Rot180 => w - 1 - x
      case Rot270 => y
    }

    // The logical pixel at panel row r, column c.
    function X(r: int, c: int): int {
      match rot
      case Rot0 => c
      case Rot90 => r
      case Rot180 => w - 1 - c
      case Rot270 => w - 1 - r
    }

    function Y(r: int, c: int): int {
      match rot
      case Rot0 => r
      case Rot90 => h - 1 - c
      case Rot180 => h - 1 - r
      case Rot270 => c
    }

    // Logical pixels and panel pixels are the same pixels, one for one.
    lemma Bijection(a: int, b: int)
      ensures X(Row(a, b), Col(a, b)) == a && Y(Row(a, b), Col(a, b)) == b
      ensures Row(X(a, b), Y(a, b)) == a && Col(X(a, b), Y(a, b)) == b
      ensures 0 <= a < w && 0 <= b < h <==> 0 <= Row(a, b) < Rows() && 0 <= Col(a, b) < Cols()
    {
    }

    // The rotations are so many quarter turns clockwise.
    lemma QuarterTurns(x: int, y: int)
      ensures var p := (x, y); var q := QuarterTurn(p, h); var r := QuarterTurn(q, w);
              (Col(x, y), Row(x, y)) == match rot case Rot0 => p case Rot90 => q case Rot180 => r case Rot270 => QuarterTurn(r, h)
    {
    }

    // ppa_place(): the destination corner (column, row) of a logical rectangle.
    function Place(x0: int, y0: int, x1: int, y1: int): (int, int) {
      match rot
      case Rot270 => (y0, w - 1 - x1)
      case Rot90 => (h - 1 - y1, x0)
      case Rot180 => (w - 1 - x1, h - 1 - y1)
      case Rot0 => (x0, y0)
    }

    // The rectangle's pixels are exactly those of the panel rectangle with that
    // corner, its sides exchanged when the frame is turned.
    lemma PlaceIsCorner(x0: int, y0: int, x1: int, y1: int, x: int, y: int)
      ensures var (dx, dy) := Place(x0, y0, x1, y1);
              var sx, sy := if Turned() then y1 - y0 else x1 - x0, if Turned() then x1 - x0 else y1 - y0;
              x0 <= x <= x1 && y0 <= y <= y1 <==> dx <= Col(x, y) <= dx + sx && dy <= Row(x, y) <= dy + sy
    {
    }
  }
}
