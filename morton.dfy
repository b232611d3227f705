/** Z-order (Morton) spatial hash of 3D integer cells (ZOrderHash in
    includes/mesh/implementation/util.h). */
module Morton {

  /** The low 32 bits kept by the first step of expand. */
  const Low32: bv64 := 0x0000_0000_FFFF_FFFF

  /** The masks of the five spreading steps, in order. */
  const Mask32: bv64 := 0xFFFF_0000_0000_FFFF
  const Mask16: bv64 := 0x00FF_0000_FF00_00FF
  const Mask8: bv64 := 0xF00F_00F0_0F00_F00F
  const Mask4: bv64 := 0x30C3_0C30_C30C_30C3
  const Mask2: bv64 := 0x9249_2492_4924_9249

  /** Exclusive bound of the coordinates whose bits all survive the spreading. */
  const CoordBound: bv64 := 0x20_0000  // 2^21

  /** A cell of the grid: the three 32-bit int coordinates of an Eigen::Vector3i,
      each held as its two's complement bit pattern. */
  datatype Cell = Cell(x: bv32, y: bv32, z: bv32)

  /** The implicit conversion of an int to uint64_t: sign extension. */
  function ToU64(c: bv32): (r: bv64)
    ensures r & Low32 == c as bv64
    ensures c < 0x8000_0000 ==> r == c as bv64
  {
    if c < 0x8000_0000 then c as bv64 else (c as bv64) | 0xFFFF_FFFF_0000_0000
  }

  /** Spreads the low 32 bits of x so that bit k moves to bit 3k (bits that would land
      at 64 or above are lost). */
  function Expand(x: bv64): bv64
  {
    var x0 := x & Low32;
    var x1 := (x0 | (x0 << 32)) & Mask32;
    var x2 := (x1 | (x1 << 16)) & Mask16;
    var x3 := (x2 | (x2 << 8)) & Mask8;
    var x4 := (x3 | (x3 << 4)) & Mask4;
    (x4 | (x4 << 2)) & Mask2
  }

  /** Inverse of Expand on the multiples-of-three bits. */
  function Compact(y: bv64): bv64
  {
    var y0 := y & Mask2;
    var y1 := (y0 | (y0 >> 2)) & Mask4;
    var y2 := (y1 | (y1 >> 4)) & Mask8;
    var y3 := (y2 | (y2 >> 8)) & Mask16;
    var y4 := (y3 | (y3 >> 16)) & Mask32;
    (y4 | (y4 >> 32)) & Low32
  }

  /** The hash of a cell: the three expanded coordinates interleaved. */
  function Hash(c: Cell): bv64
  {
    Expand(ToU64(c.x)) | (Expand(ToU64(c.y)) << 1) | (Expand(ToU64(c.z)) << 2)
  }

  /** Undoes Hash on cells whose coordinates lie in [0, 2^21). */
  function Unhash(h: bv64): Cell
  {
    Cell(Compact(h) as bv32, Compact(h >> 1) as bv32, Compact(h >> 2) as bv32)
  }

  /** Cells whose coordinates all lie in [0, 2^21). */
  predicate InHashRange(c: Cell) {
    c.x < 0x20_0000 && c.y < 0x20_0000 && c.z < 0x20_0000
  }

  // ---------------------------------------------------------------------------
  // Properties of expand

  /** expand reads only the low 32 bits of its argument. */
  lemma ExpandLow32(x: bv64)
    ensures Expand(x) == Expand(x & Low32)
  {
  }

  /** Because of the final mask, only bits at positions divisible by 3 can be set. */
  lemma ExpandOnlyMultiplesOfThree(x: bv64)
    ensures Expand(x) & !Mask2 == 0
  {
  }

  lemma ExpandZero()
    ensures Expand(0) == 0
  {
  }

  /** Below 2^21, expand moves bit k of x to bit 3k ... */
  lemma ExpandMovesBits(x: bv64, k: bv64)
    requires x < CoordBound && k < 21
    ensures (Expand(x) >> (3 * k)) & 1 == (x >> k) & 1
  {
    if k < 7 {
      ExpandMovesLowBits(x, k);
    } else if k < 14 {
      ExpandMovesMiddleBits(x, k);
    } else {
      ExpandMovesHighBits(x, k);
    }
  }

  lemma ExpandMovesLowBits(x: bv64, k: bv64)
    requires x < CoordBound && 0 <= k < 7
    ensures (Expand(x) >> (3 * k)) & 1 == (x >> k) & 1
  {
    if k == 0 {
      ExpandMovesBit0(x);
    } else if k == 1 {
      ExpandMovesBit1(x);
    } else if k == 2 {
      ExpandMovesBit2(x);
    } else if k == 3 {
      ExpandMovesBit3(x);
    } else if k == 4 {
      ExpandMovesBit4(x);
    } else if k == 5 {
      ExpandMovesBit5(x);
    } else {
      ExpandMovesBit6(x);
    }
  }

  lemma ExpandMovesMiddleBits(x: bv64, k: bv64)
    requires x < CoordBound && 7 <= k < 14
    ensures (Expand(x) >> (3 * k)) & 1 == (x >> k) & 1
  {
    if k == 7 {
      ExpandMovesBit7(x);
    } else if k == 8 {
      ExpandMovesBit8(x);
    } else if k == 9 {
      ExpandMovesBit9(x);
    } else if k == 10 {
      ExpandMovesBit10(x);
    } else if k == 11 {
      ExpandMovesBit11(x);
    } else if k == 12 {
      ExpandMovesBit12(x);
    } else {
      ExpandMovesBit13(x);
    }
  }

  lemma ExpandMovesHighBits(x: bv64, k: bv64)
    requires x < CoordBound && 14 <= k < 21
    ensures (Expand(x) >> (3 * k)) & 1 == (x >> k) & 1
  {
    if k == 14 {
      ExpandMovesBit14(x);
    } else if k == 15 {
      ExpandMovesBit15(x);
    } else if k == 16 {
      ExpandMovesBit16(x);
    } else if k == 17 {
      ExpandMovesBit17(x);
    } else if k == 18 {
      ExpandMovesBit18(x);
    } else if k == 19 {
      ExpandMovesBit19(x);
    } else {
      ExpandMovesBit20(x);
    }
  }

  // One lemma per bit: with the shift amounts fixed the solver decides each at once.

  lemma ExpandMovesBit0(x: bv64)
    requires x < CoordBound
    ensures (Expand(x) >> 0) & 1 == (x >> 0) & 1
  {
  }

  lemma ExpandMovesBit1(x: bv64)
    requires x < CoordBound
    ensures (Expand(x) >> 3) & 1 == (x >> 1) & 1
  {
  }

  lemma ExpandMovesBit2(x: bv64)
    requires x < CoordBound
    ensures (Expand(x) >> 6) & 1 == (x >> 2) & 1
  {
  }

  lemma ExpandMovesBit3(x: bv64)
    requires x < CoordBound
    ensures (Expand(x) >> 9) & 1 == (x >> 3) & 1
  {
  }

  lemma ExpandMovesBit4(x: bv64)
    requires x < CoordBound
    ensures (Expand(x) >> 12) & 1 == (x >> 4) & 1
  {
  }

  lemma ExpandMovesBit5(x: bv64)
    requires x < CoordBound
    ensures (Expand(x) >> 15) & 1 == (x >> 5) & 1
  {
  }

  lemma ExpandMovesBit6(x: bv64)
    requires x < CoordBound
    ensures (Expand(x) >> 18) & 1 == (x >> 6) & 1
  {
  }

  lemma ExpandMovesBit7(x: bv64)
    requires x < CoordBound
    ensures (Expand(x) >> 21) & 1 == (x >> 7) & 1
  {
  }

  lemma ExpandMovesBit8(x: bv64)
    requires x < CoordBound
    ensures (Expand(x) >> 24) & 1 == (x >> 8) & 1
  {
  }

  lemma ExpandMovesBit9(x: bv64)
    requires x < CoordBound
    ensures (Expand(x) >> 27) & 1 == (x >> 9) & 1
  {
  }

  lemma ExpandMovesBit10(x: bv64)
    requires x < CoordBound
    ensures (Expand(x) >> 30) & 1 == (x >> 10) & 1
  {
  }

  lemma ExpandMovesBit11(x: bv64)
    requires x < CoordBound
    ensures (Expand(x) >> 33) & 1 == (x >> 11) & 1
  {
  }

  lemma ExpandMovesBit12(x: bv64)
    requires x < CoordBound
    ensures (Expand(x) >> 36) & 1 == (x >> 12) & 1
  {
  }

  lemma ExpandMovesBit13(x: bv64)
    requires x < CoordBound
    ensures (Expand(x) >> 39) & 1 == (x >> 13) & 1
  {
  }

  lemma ExpandMovesBit14(x: bv64)
    requires x < CoordBound
    ensures (Expand(x) >> 42) & 1 == (x >> 14) & 1
  {
  }

  lemma ExpandMovesBit15(x: bv64)
    requires x < CoordBound
    ensures (Expand(x) >> 45) & 1 == (x >> 15) & 1
  {
  }

  lemma ExpandMovesBit16(x: bv64)
    requires x < CoordBound
    ensures (Expand(x) >> 48) & 1 == (x >> 16) & 1
  {
  }

  lemma ExpandMovesBit17(x: bv64)
    requires x < CoordBound
    ensures (Expand(x) >> 51) & 1 == (x >> 17) & 1
  {
  }

  lemma ExpandMovesBit18(x: bv64)
    requires x < CoordBound
    ensures (Expand(x) >> 54) & 1 == (x >> 18) & 1
  {
  }

  lemma ExpandMovesBit19(x: bv64)
    requires x < CoordBound
    ensures (Expand(x) >> 57) & 1 == (x >> 19) & 1
  {
  }

  lemma ExpandMovesBit20(x: bv64)
    requires x < CoordBound
    ensures (Expand(x) >> 60) & 1 == (x >> 20) & 1
  {
  }

  /** ... and sets no bit other than those 3k with k < 21. */
  lemma ExpandSetsNothingElse(x: bv64)
    requires x < CoordBound
    ensures Expand(x) & !0x1249_2492_4924_9249 == 0
  {
  }

  /** Compact undoes Expand on [0, 2^21). */
  lemma CompactExpand(x: bv64)
    requires x < CoordBound
    ensures Compact(Expand(x)) == x
  {
  }

  // ---------------------------------------------------------------------------
  // Properties of the hash

  /** Bits at multiples of three up to 60: where Expand puts the bits of x < 2^21. */
  const Mask21: bv64 := 0x1249_2492_4924_9249

  /** The three interleaved parts of the hash never share a bit, whatever the input. */
  lemma HashPartsDisjoint(a: bv64, b: bv64, c: bv64)
    ensures Expand(a) & (Expand(b) << 1) == 0
    ensures Expand(a) & (Expand(c) << 2) == 0
    ensures (Expand(b) << 1) & (Expand(c) << 2) == 0
  {
    ExpandOnlyMultiplesOfThree(a);
    ExpandOnlyMultiplesOfThree(b);
    ExpandOnlyMultiplesOfThree(c);
    MultiplesOfThreeShiftApart(Expand(a), Expand(b), Expand(c));
  }

  lemma MultiplesOfThreeShiftApart(p: bv64, q: bv64, r: bv64)
    requires p & !Mask2 == 0 && q & !Mask2 == 0 && r & !Mask2 == 0
    ensures p & (q << 1) == 0 && p & (r << 2) == 0 && (q << 1) & (r << 2) == 0
  {
  }

  /** Compact looks only at the bits at multiples of three. */
  lemma CompactMasks(y: bv64)
    ensures Compact(y) == Compact(y & Mask2)
  {
  }

  /** When no part reaches bit 63, shifting the interleaving right by 0, 1 or 2 and
      keeping the multiples of three gives back one part. */
  lemma Deinterleave(p: bv64, q: bv64, r: bv64)
    requires p & !Mask21 == 0 && q & !Mask21 == 0 && r & !Mask21 == 0
    ensures (p | (q << 1) | (r << 2)) & Mask2 == p
    ensures ((p | (q << 1) | (r << 2)) >> 1) & Mask2 == q
    ensures ((p | (q << 1) | (r << 2)) >> 2) & Mask2 == r
  {
  }

  /** Each coordinate of a cell in [0, 2^21)^3 can be read back from its hash. */
  lemma {:induction false} UnhashHash(c: Cell)
    requires InHashRange(c)
    ensures Unhash(Hash(c)) == c
  {
    var a, b, d := ToU64(c.x), ToU64(c.y), ToU64(c.z);
    assert a < CoordBound && b < CoordBound && d < CoordBound;
    ExpandSetsNothingElse(a);
    ExpandSetsNothingElse(b);
    ExpandSetsNothingElse(d);
    var h := Hash(c);
    Deinterleave(Expand(a), Expand(b), Expand(d));
    CompactMasks(h);
    CompactMasks(h >> 1);
    CompactMasks(h >> 2);
    CompactExpand(a);
    CompactExpand(b);
    CompactExpand(d);
  }

  /** Distinct cells in [0, 2^21)^3 get distinct hashes. */
  lemma {:induction false} HashInjective(c: Cell, d: Cell)
    requires InHashRange(c) && InHashRange(d)
    requires Hash(c) == Hash(d)
    ensures c == d
  {
    UnhashHash(c);
    UnhashHash(d);
  }

  /** The bound matters: a coordinate of 2^22 loses all its bits in the spreading,
      so its cell collides with the origin. */
  lemma CollisionAboveRange()
    ensures Hash(Cell(0x40_0000, 0, 0)) == Hash(Cell(0, 0, 0))
  {
  }

  /** A negative coordinate is sign-extended, then cut to its low 32 bits. */
  lemma NegativeCoordinate()
    ensures Expand(ToU64(0xFFFF_FFFF)) == Expand(0xFFFF_FFFF)
  {
  }
}
