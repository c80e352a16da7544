/** The traceback plane: one transition code per cell, packed into the fewest
    bits of a byte that divide eight. */
module Tracebacks {
  import opened Costs

  const USIZE_MAX: nat := 0xFFFF_FFFF_FFFF_FFFF

  /** The widths a code packs into: only divisors of 8, so that a cell never
      straddles two bytes. */
  function CodeBits(degree: nat): bv8 {
    if degree <= 2 then 1 else if degree <= 4 then 2 else if degree <= 16 then 4 else 8
  }

  predicate Width(bits: bv8) {
    bits == 1 || bits == 2 || bits == 4 || bits == 8
  }

  function Mask(bits: bv8): bv8
    requires Width(bits)
  {
    (((1 as bv16) << bits) - 1) as bv8
  }

  function PerByte(bits: bv8): bv8
    requires Width(bits)
  {
    if bits == 1 then 8 else if bits == 2 then 4 else if bits == 4 then 2 else 1
  }

  function CellsPerByte(bits: bv8): (n: nat)
    requires Width(bits)
    ensures 1 <= n <= 8
  {
    if bits == 1 then 8 else if bits == 2 then 4 else if bits == 4 then 2 else 1
  }

  /** A cell's place within its byte, as a byte. */
  function Place(within: nat): bv8
    requires within < 8
  {
    if within == 0 then 0 else if within == 1 then 1 else if within == 2 then 2 else if within == 3 then 3
    else if within == 4 then 4 else if within == 5 then 5 else if within == 6 then 6 else 7
  }

  /** A code as the index it stands for. */
  function Index(code: bv8): nat {
    code as nat
  }

  lemma ByteRoundTrip(n: nat)
    requires n < 256
    ensures Index(n as bv8) == n
  {}

  /** Every code of a trellis of this degree fits the width chosen for it. */
  lemma CodeFits(degree: nat, code: nat)
    requires 1 <= degree <= 256 && code < degree
    ensures code < 256 && code as bv8 <= Mask(CodeBits(degree)) && Index(code as bv8) == code
  {
    ByteRoundTrip(code);
  }

  /** The cell `within` of a packed byte. */
  function Field(byte: bv8, bits: bv8, within: bv8): bv8
    requires Width(bits) && within < PerByte(bits)
  {
    (byte >> (bits * within)) & Mask(bits)
  }

  // OR-ing a code into an empty cell sets that cell and no other.
  lemma SetField(byte: bv8, bits: bv8, within: bv8, code: bv8, other: bv8)
    requires Width(bits) && within < PerByte(bits) && other < PerByte(bits)
    requires code <= Mask(bits) && Field(byte, bits, within) == 0
    ensures Field(byte | (code << (bits * within)), bits, within) == code
    ensures other != within ==> Field(byte | (code << (bits * within)), bits, other) == Field(byte, bits, other)
  {}

  lemma EmptyField(bits: bv8, within: bv8)
    requires Width(bits) && within < PerByte(bits)
    ensures Field(0, bits, within) == 0
  {}

  /** The cell `within` cells into a byte, and the one at a position. */
  function CellWithin(byte: bv8, bits: bv8, within: nat): bv8
    requires Width(bits) && within < CellsPerByte(bits)
  {
    Field(byte, bits, Place(within))
  }

  function CellAt(byte: bv8, bits: bv8, position: nat): bv8
    requires Width(bits)
  {
    CellWithin(byte, bits, PlaceOf(bits, position))
  }

  /** The byte of its row a position falls in, and its place within that byte:
      the quotient and remainder by the cells per byte, which is one of four
      constants. */
  function ByteOf(bits: bv8, position: nat): nat
    requires Width(bits)
  {
    if bits == 1 then position / 8 else if bits == 2 then position / 4 else if bits == 4 then position / 2 else position
  }

  function PlaceOf(bits: bv8, position: nat): (within: nat)
    requires Width(bits)
    ensures within < CellsPerByte(bits)
  {
    if bits == 1 then position % 8 else if bits == 2 then position % 4 else if bits == 4 then position % 2 else 0
  }

  lemma QuotientAndRemainder(bits: bv8, position: nat)
    requires Width(bits)
    ensures ByteOf(bits, position) == position / CellsPerByte(bits)
    ensures PlaceOf(bits, position) == position % CellsPerByte(bits)
  {}

  // Where consecutive cells fall, for the four packings.

  lemma BytesInOrder(bits: bv8, a: nat, b: nat)
    requires Width(bits) && a < b
    ensures ByteOf(bits, a) <= ByteOf(bits, b)
    ensures ByteOf(bits, a) == ByteOf(bits, b) ==> PlaceOf(bits, a) < PlaceOf(bits, b)
  {}

  lemma NextByte(bits: bv8, a: nat, b: nat)
    requires Width(bits) && a < b
    ensures PlaceOf(bits, b) == 0 ==> ByteOf(bits, a) < ByteOf(bits, b)
    ensures PlaceOf(bits, b) != 0 ==> ByteOf(bits, b - 1) == ByteOf(bits, b)
  {}

  lemma NextPlace(bits: bv8, a: nat)
    requires Width(bits)
    ensures PlaceOf(bits, a + 1) == (if PlaceOf(bits, a) == CellsPerByte(bits) - 1 then 0 else PlaceOf(bits, a) + 1)
  {}

  lemma CellOrder(bits: bv8, a: nat, b: nat)
    requires Width(bits) && a < b
    ensures ByteOf(bits, a) <= ByteOf(bits, b)
    ensures ByteOf(bits, a) == ByteOf(bits, b) ==> PlaceOf(bits, a) < PlaceOf(bits, b)
    ensures PlaceOf(bits, b) == 0 ==> ByteOf(bits, a) < ByteOf(bits, b)
    ensures PlaceOf(bits, b) != 0 ==> ByteOf(bits, b - 1) == ByteOf(bits, b)
    ensures PlaceOf(bits, a + 1) == (if PlaceOf(bits, a) == CellsPerByte(bits) - 1 then 0 else PlaceOf(bits, a) + 1)
  {
    hide ByteOf, PlaceOf, CellsPerByte, Width;
    BytesInOrder(bits, a, b);
    NextByte(bits, a, b);
    NextPlace(bits, a);
  }

  function WithCell(byte: bv8, bits: bv8, within: nat, code: bv8): bv8
    requires Width(bits) && within < CellsPerByte(bits)
  {
    byte | (code << (bits * Place(within)))
  }

  lemma PlacesDiffer(bits: bv8, a: nat, b: nat)
    requires Width(bits) && a < CellsPerByte(bits) && b < CellsPerByte(bits)
    ensures Place(a) < PerByte(bits) && Place(b) < PerByte(bits)
    ensures a != b ==> Place(a) != Place(b)
  {}

  lemma SetOneCell(byte: bv8, bits: bv8, within: nat, code: bv8, other: nat)
    requires Width(bits) && within < CellsPerByte(bits) && other < CellsPerByte(bits)
    requires code <= Mask(bits) && CellWithin(byte, bits, within) == 0
    ensures CellWithin(WithCell(byte, bits, within, code), bits, other)
         == if other == within then code else CellWithin(byte, bits, other)
  {
    PlacesDiffer(bits, within, other);
    SetField(byte, bits, Place(within), code, Place(other));
  }

  /** OR-ing a code into an empty cell sets that cell and leaves every other cell
      of the byte alone. */
  lemma SetCell(byte: bv8, bits: bv8, within: nat, code: bv8)
    requires Width(bits) && within < CellsPerByte(bits)
    requires code <= Mask(bits) && CellWithin(byte, bits, within) == 0
    ensures forall other | 0 <= other < CellsPerByte(bits) ::
              CellWithin(WithCell(byte, bits, within, code), bits, other)
              == if other == within then code else CellWithin(byte, bits, other)
  {
    forall other | 0 <= other < CellsPerByte(bits)
      ensures CellWithin(WithCell(byte, bits, within, code), bits, other)
           == if other == within then code else CellWithin(byte, bits, other)
    {
      SetOneCell(byte, bits, within, code, other);
    }
  }

  lemma EmptyByte(bits: bv8)
    requires Width(bits)
    ensures forall within | 0 <= within < CellsPerByte(bits) :: CellWithin(0, bits, within) == 0
  {
    forall within | 0 <= within < CellsPerByte(bits) ensures CellWithin(0, bits, within) == 0 {
      EmptyField(bits, Place(within));
    }
  }

  class Traceback {
    const plane: array<bv8>
    const frames: nat
    const stride: nat
    const bits: bv8
    const perByte: nat

    constructor (numFrames: nat, numPositions: nat, degree: nat)
      ensures Valid() && fresh(plane)
      ensures frames == numFrames && bits == CodeBits(degree) && stride == StrideFor(numPositions, degree)
      ensures numPositions / perByte < stride
    {
      bits := CodeBits(degree);
      perByte := CellsPerByte(CodeBits(degree));
      frames := numFrames;
      stride := numPositions / CellsPerByte(CodeBits(degree)) + 1;
      var cells := numFrames * (numPositions / CellsPerByte(CodeBits(degree)) + 1);
      plane := new bv8[cells](_ => 0);
    }

    ghost predicate Valid() {
      && Width(bits) && perByte == CellsPerByte(bits) && stride >= 1
      && plane.Length == frames * stride
    }

    lemma RowFits(frame: nat)
      requires Valid() && frame < frames
      ensures frame * stride + stride <= plane.Length
    {
      assert (frame + 1) * stride <= frames * stride;
      assert (frame + 1) * stride == frame * stride + stride;
    }

    function Get(frame: nat, position: nat): bv8
      requires Valid() && frame < frames && position / perByte < stride
      reads plane
    {
      RowFits(frame);
      CellAt(plane[frame * stride + position / perByte], bits, position)
    }

    /** What `Get` would answer of a plane holding `bytes`. */
    ghost function GetFrom(bytes: seq<bv8>, frame: nat, position: nat): bv8
      requires Valid() && |bytes| == plane.Length && frame < frames && position / perByte < stride
    {
      RowFits(frame);
      CellAt(bytes[frame * stride + position / perByte], bits, position)
    }

    /** Rows do not overlap: writing one row leaves every other reading the same. */
    lemma RowsApart(before: seq<bv8>, after: seq<bv8>, written: nat, frame: nat, position: nat)
      requires Valid() && |before| == |after| == plane.Length
      requires written < frames && frame < frames && frame != written && position / perByte < stride
      requires SameOutside(before, after, written * stride, stride)
      ensures GetFrom(after, frame, position) == GetFrom(before, frame, position)
    {
      hide CellAt;
      RowFits(frame);
      ProductsApart(frame, written, stride);
    }
  }

  ghost predicate SameOutside(before: seq<bv8>, after: seq<bv8>, base: nat, stride: nat) {
    |before| == |after| && forall k | 0 <= k < |before| && !(base <= k < base + stride) :: after[k] == before[k]
  }

  lemma ProductsApart(a: nat, b: nat, stride: nat)
    requires a != b
    ensures a < b ==> a * stride + stride <= b * stride
    ensures b < a ==> b * stride + stride <= a * stride
  {
    if a < b {
      MulMonotone(a + 1, b, stride);
    } else {
      MulMonotone(b + 1, a, stride);
    }
  }

  /** Bytes a row of `numPositions + 1` codes takes. */
  function StrideFor(numPositions: nat, degree: nat): nat {
    numPositions / CellsPerByte(CodeBits(degree)) + 1
  }

  /** What a row writer stands for, as values: `row` and the byte still being
      packed together hold `written` at positions `first`, `first + 1`, ... */
  ghost predicate Packs(row: seq<bv8>, bits: bv8, packed: bv8, at: nat, pending: bool, first: nat, written: seq<bv8>)
    requires Width(bits)
  {
    var next := first + |written|;
    && (written != [] ==> ByteOf(bits, next - 1) < |row|)
    && (forall k | 0 <= k < |written| :: CellOf(row, bits, packed, at, pending, first + k) == Some(written[k]))
    && (pending ==> written != [] && at == ByteOf(bits, next - 1) && PlaceOf(bits, next) != 0)
    && (!pending && written != [] ==> PlaceOf(bits, next) == 0)
    && EmptyFrom(packed, bits, if pending then PlaceOf(bits, next) else 0)
  }

  ghost predicate EmptyFrom(packed: bv8, bits: bv8, place: nat)
    requires Width(bits)
  {
    forall within | place <= within < CellsPerByte(bits) :: CellWithin(packed, bits, within) == 0
  }

  ghost function CellOf(row: seq<bv8>, bits: bv8, packed: bv8, at: nat, pending: bool, position: nat): Option<bv8>
    requires Width(bits)
  {
    var index := ByteOf(bits, position);
    if pending && index == at then Some(CellAt(packed, bits, position))
    else if index < |row| then Some(CellAt(row[index], bits, position))
    else None
  }

  // An earlier cell reads the same after a later one is put.
  lemma PutKeeps(row: seq<bv8>, bits: bv8, packed: bv8, at: nat, pending: bool, earlier: nat, position: nat, code: bv8)
    requires Width(bits) && earlier < position && code <= Mask(bits)
    requires CellWithin(packed, bits, PlaceOf(bits, position)) == 0
    requires pending ==> at == ByteOf(bits, position)
    requires !pending ==> ByteOf(bits, earlier) < ByteOf(bits, position)
    requires ByteOf(bits, position) < |row|
    ensures var index := ByteOf(bits, position);
            var filled := WithCell(packed, bits, PlaceOf(bits, position), code);
            var was := CellOf(row, bits, packed, at, pending, earlier);
            && CellOf(row, bits, filled, index, true, earlier) == was
            && CellOf(row[index := filled], bits, 0, index, false, earlier) == was
  {
    CellOrder(bits, earlier, position);
    SetOneCell(packed, bits, PlaceOf(bits, position), code, PlaceOf(bits, earlier));
  }

  lemma PutReads(row: seq<bv8>, bits: bv8, packed: bv8, position: nat, code: bv8)
    requires Width(bits) && code <= Mask(bits)
    requires CellWithin(packed, bits, PlaceOf(bits, position)) == 0
    requires ByteOf(bits, position) < |row|
    ensures var index := ByteOf(bits, position);
            var filled := WithCell(packed, bits, PlaceOf(bits, position), code);
            && CellOf(row, bits, filled, index, true, position) == Some(code)
            && CellOf(row[index := filled], bits, 0, index, false, position) == Some(code)
  {
    SetOneCell(packed, bits, PlaceOf(bits, position), code, PlaceOf(bits, position));
  }

  lemma StillEmpty(packed: bv8, bits: bv8, within: nat, code: bv8)
    requires Width(bits) && code <= Mask(bits) && within < CellsPerByte(bits)
    requires EmptyFrom(packed, bits, within)
    ensures EmptyFrom(WithCell(packed, bits, within, code), bits, within + 1)
  {
    SetCell(packed, bits, within, code);
  }

  // Every cell put so far reads back after one more is put.
  lemma CellsRead(row: seq<bv8>, bits: bv8, packed: bv8, at: nat, pending: bool, first: nat, written: seq<bv8>, code: bv8)
    requires Width(bits) && Packs(row, bits, packed, at, pending, first, written)
    requires code <= Mask(bits) && ByteOf(bits, first + |written|) < |row|
    ensures var position := first + |written|;
            var (index, within) := (ByteOf(bits, position), PlaceOf(bits, position));
            var filled := WithCell(packed, bits, within, code);
            var all := written + [code];
            forall k | 0 <= k < |all| ::
              && CellOf(row, bits, filled, index, true, first + k) == Some(all[k])
              && CellOf(row[index := filled], bits, 0, index, false, first + k) == Some(all[k])
  {
    hide ByteOf, PlaceOf, CellWithin, WithCell, Mask, CellsPerByte, CellOf;
    var position := first + |written|;
    var (index, within) := (ByteOf(bits, position), PlaceOf(bits, position));
    var filled := WithCell(packed, bits, within, code);
    if pending {
      CellOrder(bits, position - 1, position);
    }
    assert CellWithin(packed, bits, within) == 0;
    PutReads(row, bits, packed, position, code);
    var all := written + [code];
    forall k | 0 <= k < |all|
      ensures CellOf(row, bits, filled, index, true, first + k) == Some(all[k])
      ensures CellOf(row[index := filled], bits, 0, index, false, first + k) == Some(all[k])
    {
      if k < |written| {
        assert CellOf(row, bits, packed, at, pending, first + k) == Some(written[k]);
        CellOrder(bits, first + k, position);
        PutKeeps(row, bits, packed, at, pending, first + k, position, code);
      }
    }
  }

  // One put, as values: the byte stays pending, or is full and is stored.
  lemma PutPacks(row: seq<bv8>, bits: bv8, packed: bv8, at: nat, pending: bool, first: nat, written: seq<bv8>, code: bv8)
    requires Width(bits) && Packs(row, bits, packed, at, pending, first, written)
    requires code <= Mask(bits) && ByteOf(bits, first + |written|) < |row|
    ensures var position := first + |written|;
            var (index, within) := (ByteOf(bits, position), PlaceOf(bits, position));
            var filled := WithCell(packed, bits, within, code);
            if within < CellsPerByte(bits) - 1 then Packs(row, bits, filled, index, true, first, written + [code])
            else Packs(row[index := filled], bits, 0, index, false, first, written + [code])
  {
    hide ByteOf, PlaceOf, CellWithin, WithCell, Mask, CellsPerByte, CellOf;
    var position := first + |written|;
    var within := PlaceOf(bits, position);
    CellsRead(row, bits, packed, at, pending, first, written, code);
    CellOrder(bits, position, position + 1);
    if pending {
      CellOrder(bits, position - 1, position);
    }
    StillEmpty(packed, bits, within, code);
    EmptyByte(bits);
  }

  /** Accumulates a byte of codes before storing it. Cells arrive in order, so a
      byte is written once. */
  class RowWriter {
    const plane: array<bv8>
    const base: nat
    const stride: nat
    const bits: bv8
    const perByte: nat
    var packed: bv8
    var at: nat
    var pending: bool

    // The codes put so far, at positions `first`, `first + 1`, ...
    ghost var first: nat
    ghost var written: seq<bv8>

    constructor (trace: Traceback, frame: nat)
      requires trace.Valid() && frame < trace.frames
      ensures Valid() && written == []
      ensures plane == trace.plane && base == frame * trace.stride && stride == trace.stride
      ensures bits == trace.bits && perByte == trace.perByte
    {
      trace.RowFits(frame);
      EmptyByte(trace.bits);
      plane := trace.plane;
      base := frame * trace.stride;
      stride := trace.stride;
      bits := trace.bits;
      perByte := trace.perByte;
      packed, at, pending := 0, 0, false;
      first, written := 0, [];
    }

    ghost predicate Shape() {
      Width(bits) && perByte == CellsPerByte(bits) && base + stride <= plane.Length
    }

    ghost function Row(): seq<bv8>
      requires Shape()
      reads plane
    {
      plane[base..base + stride]
    }

    ghost predicate Valid()
      reads this, plane
    {
      Shape() && Packs(Row(), bits, packed, at, pending, first, written)
    }

    method Put(position: nat, code: bv8)
      requires Valid() && code <= Mask(bits)
      requires position / perByte < stride
      requires written == [] || position == first + |written|
      modifies this, plane
      ensures Valid() && written == old(written) + [code]
      ensures first == if old(written) == [] then position else old(first)
      ensures SameOutside(old(plane[..]), plane[..], base, stride)
    {
      hide ByteOf, PlaceOf, CellWithin, WithCell, Mask, CellsPerByte, CellOf, EmptyFrom;
      if written == [] {
        first := position;
      }
      QuotientAndRemainder(bits, position);
      PutPacks(Row(), bits, packed, at, pending, first, written, code);
      ghost var row := Row();
      var within := position % perByte;
      packed := WithCell(packed, bits, within, code);
      at := position / perByte;
      pending := true;
      written := written + [code];
      if within == perByte - 1 {
        plane[base + at] := packed;
        assert Row() == row[at := packed];
        packed := 0;
        pending := false;
      }
    }

    /** Flushes the byte still being packed; every code put reads back. */
    method Finish()
      requires Valid()
      modifies plane
      ensures SameOutside(old(plane[..]), plane[..], base, stride)
      ensures forall k | 0 <= k < |written| :: Stored(plane[..], first + k, written[k])
    {
      hide ByteOf, PlaceOf, CellWithin, WithCell, Mask, CellsPerByte, EmptyFrom;
      ghost var row := Row();
      if pending {
        plane[base + at] := packed;
        assert Row() == row[at := packed];
      }
      forall k | 0 <= k < |written| ensures Stored(plane[..], first + k, written[k]) {
        assert CellOf(row, bits, packed, at, pending, first + k) == Some(written[k]);
        QuotientAndRemainder(bits, first + k);
        assert plane[base + ByteOf(bits, first + k)] == Row()[ByteOf(bits, first + k)];
      }
    }

    /** Whether a plane of these bytes holds `code` at `position` of this row. */
    ghost predicate Stored(bytes: seq<bv8>, position: nat, code: bv8)
      requires Shape() && |bytes| == plane.Length
    {
      position / perByte < stride && CellAt(bytes[base + position / perByte], bits, position) == code
    }
  }

  lemma SameAsItself(a: seq<bv8>, base: nat, stride: nat)
    ensures SameOutside(a, a, base, stride)
  {}

  lemma SameOutsideTwice(a: seq<bv8>, b: seq<bv8>, c: seq<bv8>, base: nat, stride: nat)
    requires SameOutside(a, b, base, stride) && SameOutside(b, c, base, stride)
    ensures SameOutside(a, c, base, stride)
  {}

  lemma DivisionIsMonotone(a: nat, b: nat, d: nat)
    requires a <= b && d > 0
    ensures a / d <= b / d
  {
    var (p, q) := (a / d, b / d);
    if p >= q + 1 {
      assert d * p >= d * (q + 1) by { MulMonotone(q + 1, p, d); }
      assert false;
    }
  }

  lemma MulMonotone(a: nat, b: nat, c: nat)
    requires a <= b
    ensures c * a <= c * b
  {}
}
