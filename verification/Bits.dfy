// Bytes as bit vectors, read one bit at a time. Bit 0 is the least significant
// bit, which on every 1-bpp buffer here is the leftmost of eight pixels.
module Bits {

  type byte = bv8

  function BitValue(i: nat): (m: byte)
    requires i < 8
  {
    match i
    case 0 => 1
    case 1 => 2
    case 2 => 4
    case 3 => 8
    case 4 => 16
    case 5 => 32
    case 6 => 64
    case 7 => 128
  }

  predicate Bit(b: byte, i: nat)
    requires i < 8
  {
    b & BitValue(i) != 0
  }

  // The two end masks of a run of pixels: from bit k up, and up to bit k.
  function MaskFrom(k: nat): (m: byte)
    requires k < 8
    ensures forall i: nat | i < 8 :: Bit(m, i) <==> k <= i
  {
    0xFF << k
  }

  function MaskUpTo(k: nat): (m: byte)
    requires k < 8
    ensures forall i: nat | i < 8 :: Bit(m, i) <==> i <= k
  {
    0xFF >> (7 - k)
  }

  lemma MaskedOps(a: byte, b: byte, m: byte)
    requires m == 1 || m == 2 || m == 4 || m == 8 || m == 16 || m == 32 || m == 64 || m == 128
    ensures ((a & b) & m != 0) == (a & m != 0 && b & m != 0)
    ensures ((a | b) & m != 0) == (a & m != 0 || b & m != 0)
    ensures ((a ^ b) & m != 0) == ((a & m != 0) != (b & m != 0))
    ensures (!a & m != 0) == (a & m == 0)
  {
  }

  lemma BitValueIs(i: nat)
    requires i < 8
    ensures var m := BitValue(i); m == 1 || m == 2 || m == 4 || m == 8 || m == 16 || m == 32 || m == 64 || m == 128
  {
  }

  // The bitwise operators act on each bit alone.
  lemma BitOps(a: byte, b: byte, i: nat)
    requires i < 8
    ensures Bit(a & b, i) <==> Bit(a, i) && Bit(b, i)
    ensures Bit(a | b, i) <==> Bit(a, i) || Bit(b, i)
    ensures Bit(a ^ b, i) <==> (Bit(a, i) != Bit(b, i))
    ensures Bit(!a, i) <==> !Bit(a, i)
  {
    hide BitValue;
    BitValueIs(i);
    MaskedOps(a, b, BitValue(i));
  }

  // `prev` with its bits under `mask` replaced by those of `value`.
  function Mix(prev: byte, value: byte, mask: byte): byte {
    (prev & !mask) | (value & mask)
  }

  lemma MaskedMix(prev: byte, value: byte, mask: byte, m: byte)
    requires m == 1 || m == 2 || m == 4 || m == 8 || m == 16 || m == 32 || m == 64 || m == 128
    ensures (Mix(prev, value, mask) & m != 0) == if mask & m != 0 then value & m != 0 else prev & m != 0
  {
  }

  lemma MixMeaning(prev: byte, value: byte, mask: byte, i: nat)
    requires i < 8
    ensures Bit(Mix(prev, value, mask), i) <==> if Bit(mask, i) then Bit(value, i) else Bit(prev, i)
  {
    hide BitValue, Mix;
    BitValueIs(i);
    MaskedMix(prev, value, mask, BitValue(i));
  }

  // One bit of a byte set or cleared.
  function WithBit(b: byte, k: nat, on: bool): (r: byte)
    requires k < 8
  {
    if on then b | BitValue(k) else b & !BitValue(k)
  }

  lemma WithMask(b: byte, m: byte, n: byte)
    requires m == 1 || m == 2 || m == 4 || m == 8 || m == 16 || m == 32 || m == 64 || m == 128
    requires n == 1 || n == 2 || n == 4 || n == 8 || n == 16 || n == 32 || n == 64 || n == 128
    ensures ((b | m) & n != 0) == (m == n || b & n != 0)
    ensures ((b & !m) & n != 0) == (m != n && b & n != 0)
  {
  }

  lemma WithBitMeaning(b: byte, k: nat, on: bool, i: nat)
    requires k < 8 && i < 8
    ensures Bit(WithBit(b, k, on), i) <==> if i == k then on else Bit(b, i)
  {
    WithMask(b, BitValue(k), BitValue(i));
    assert BitValue(k) == BitValue(i) <==> k == i;
  }

  // Two bytes with the same bits are equal.
  lemma SameBits(a: byte, b: byte)
    requires forall i: nat | i < 8 :: Bit(a, i) == Bit(b, i)
    ensures a == b
  {
    assert Bit(a, 0) == Bit(b, 0) && Bit(a, 1) == Bit(b, 1) && Bit(a, 2) == Bit(b, 2) && Bit(a, 3) == Bit(b, 3);
    assert Bit(a, 4) == Bit(b, 4) && Bit(a, 5) == Bit(b, 5) && Bit(a, 6) == Bit(b, 6) && Bit(a, 7) == Bit(b, 7);
  }

  // ------------------------------------------------------ sixteen-bit values

  predicate Bit16(v: bv16, i: bv16)
    requires i < 16
  {
    (v >> i) & 1 == 1
  }

  function BitIndex(i: nat): (r: bv16)
    requires i < 16
    ensures r < 16
  {
    match i
    case 0 => 0
    case 1 => 1
    case 2 => 2
    case 3 => 3
    case 4 => 4
    case 5 => 5
    case 6 => 6
    case 7 => 7
    case 8 => 8
    case 9 => 9
    case 10 => 10
    case 11 => 11
    case 12 => 12
    case 13 => 13
    case 14 => 14
    case 15 => 15
  }

  lemma IndexDifference(i: nat, k: nat)
    requires i < 16 && k < 8
    ensures BitIndex(k) < 8
    ensures i >= k <==> BitIndex(i) >= BitIndex(k)
    ensures i >= k ==> BitIndex(i) - BitIndex(k) == BitIndex(i - k)
    ensures i < 8 ==> BitIndex(i) < 8 && BitIndex(8 + i) == 8 + BitIndex(i)
  {
    match k
    case 0 =>
    case 1 =>
    case 2 =>
    case 3 =>
    case 4 =>
    case 5 =>
    case 6 =>
    case 7 =>
  }

  function Low(v: bv16): byte { (v & 0xFF) as byte }

  function High(v: bv16): byte { (v >> 8) as byte }

  lemma HalvesMask(v: bv16, i: bv16, m: byte)
    requires i < 8 && m as bv16 == 1 << i
    ensures (Low(v) & m != 0) == Bit16(v, i)
    ensures (High(v) & m != 0) == Bit16(v, 8 + i)
  {
  }

  lemma Halves(v: bv16, i: nat)
    requires i < 8
    ensures Bit(Low(v), i) == Bit16(v, BitIndex(i))
    ensures Bit(High(v), i) == Bit16(v, BitIndex(8 + i))
  {
    HalvesMask(v, BitIndex(i), BitValue(i));
    IndexDifference(i, 0);
  }

  lemma ShiftedBit(v: bv16, k: bv16, i: bv16, d: bv16)
    requires k < 8 && i < 16 && d < 16
    requires i >= k ==> d == i - k
    ensures Bit16(v << k, i) == (i >= k && Bit16(v, d))
  {
  }

  lemma IndexOrder(k: nat, i: nat, kb: bv16, ib: bv16, db: bv16)
    requires k < 8 && i < 16 && kb == BitIndex(k) && ib == BitIndex(i)
    requires db == if i >= k then BitIndex(i - k) else 0
    ensures kb < 8 && db < 16 && (i >= k <==> ib >= kb) && (i >= k ==> db == ib - kb)
  {
    IndexDifference(i, k);
  }

  // A value shifted up by k bits: bit i of it is bit i - k of the value.
  lemma Shifted(v: bv16, k: nat, i: nat, kb: bv16, ib: bv16, db: bv16)
    requires k < 8 && i < 16 && kb == BitIndex(k) && ib == BitIndex(i)
    requires db == if i >= k then BitIndex(i - k) else 0
    ensures kb < 8 && db < 16
    ensures Bit16(v << kb, ib) == (i >= k && Bit16(v, db))
  {
    IndexOrder(k, i, kb, ib, db);
    ShiftedBit(v, kb, ib, db);
  }

  lemma NoBits(b: byte)
    requires b != 0
    ensures exists i: nat | i < 8 :: Bit(b, i)
  {
    if forall i: nat | i < 8 :: !Bit(b, i) {
      forall i: nat | i < 8
        ensures Bit(b, i) == Bit(0, i)
      {
      }
      SameBits(b, 0);
    }
  }
}
