/**
 * Geometry of the cell grid of CellArea: its dimensions, the four
 * row-major partitions, the eight Moore offsets `s_NeighborIndexes`, the
 * decoding of a flattened offset back into a column and row step, and the
 * static neighbour table that `setNeighbor` builds.
 *
 * The grid is square (NumberOfCell_X == NumberOfCell_Y == w) and its side is
 * a parameter instead of the build-time constant 200 or 400.
 */
module Grid {

  /** The side lengths the engine supports: square, at least 3 wide and a
      whole number of rows per partition. */
  predicate ValidWidth(w: int) {
    w >= 3 && w % NumberOfThreads == 0
  }

  /** `s_NumberOfThreads`: the number of partitions. */
  const NumberOfThreads: nat := 4

  /** `NumberOfCell == NumberOfCell_X * NumberOfCell_Y` with X == Y == w. */
  function NumberOfCell(w: nat): nat {
    w * w
  }

  /** `s_NumberOfCellsPerPartition`. */
  function CellsPerPartition(w: nat): nat {
    NumberOfCell(w) / NumberOfThreads
  }

  /** `s_NumberOfCellsPerPartition_Y`. */
  function RowsPerPartition(w: nat): nat {
    w / NumberOfThreads
  }

  /** The four partitions cover the grid exactly and each is a whole number
      of rows. */
  lemma PartitionGeometry(w: nat)
    requires ValidWidth(w)
    ensures NumberOfCell(w) == NumberOfThreads * CellsPerPartition(w)
    ensures CellsPerPartition(w) == w * RowsPerPartition(w)
    ensures RowsPerPartition(w) >= 1 && CellsPerPartition(w) >= w
  {
    var q := w / 4;
    DivModOf(4, q, w % 4);
    assert w == q * 4;
    var s := q * w;
    assert w * w == s * 4 by {
      assert w * w == (q * 4) * w;
    }
    DivModOf(4, s, 0);
    assert CellsPerPartition(w) == s;
    assert s == w * q;
    MulAtLeast(q, w);
  }

  /** The partition a cell belongs to. */
  function PartitionOf(w: nat, i: nat): (q: nat)
    requires ValidWidth(w)
    ensures i < NumberOfCell(w) ==> q < NumberOfThreads
  {
    PartitionGeometry(w);
    i / CellsPerPartition(w)
  }

  /** A cell's index inside its partition: the index the neighbour table
      is read with. */
  function LocalIndex(w: nat, i: nat): (k: nat)
    requires ValidWidth(w)
    ensures k < CellsPerPartition(w)
    ensures i == PartitionOf(w, i) * CellsPerPartition(w) + k
  {
    PartitionGeometry(w);
    i % CellsPerPartition(w)
  }

  // ---------------------------------------------------------------------
  // C integer division
  // ---------------------------------------------------------------------

  /** C++ `a / b` on `int`: rounds toward zero. */
  function CDiv(a: int, b: int): int
    requires b > 0
  {
    if a >= 0 then a / b else -((-a) / b)
  }

  /** C++ `a % b` on `int`: takes the sign of `a`. */
  function CMod(a: int, b: int): int
    requires b > 0
  {
    if a >= 0 then a % b else -((-a) % b)
  }

  function Abs(a: int): nat {
    if a < 0 then -a else a
  }

  /** Division by `w` recovers row and column of `q * w + r`. */
  lemma DivModOf(w: int, q: int, r: int)
    requires w > 0 && 0 <= r < w
    ensures (q * w + r) / w == q && (q * w + r) % w == r
  {
    var a := q * w + r;
    var q', r' := a / w, a % w;
    assert a == q' * w + r';
    assert (q - q') * w == r' - r;
    if q - q' >= 1 {
      MulAtLeast(q - q', w);
    } else if q - q' <= -1 {
      MulAtLeast(q' - q, w);
    }
  }

  lemma MulAtLeast(k: int, w: int)
    requires k >= 1 && w > 0
    ensures k * w >= w
  {
    assert k * w == (k - 1) * w + w;
    assert (k - 1) * w >= 0;
  }

  // ---------------------------------------------------------------------
  // Moore offsets
  // ---------------------------------------------------------------------

  /** The eight (column step, row step) pairs in row-major order. */
  const Deltas: seq<(int, int)> :=
    [(-1, -1), (0, -1), (1, -1), (-1, 0), (1, 0), (-1, 1), (0, 1), (1, 1)]

  /** `s_NeighborIndexes`: the same eight steps flattened to `dy * w + dx`. */
  function NeighborOffsets(w: int): (offs: seq<int>)
    ensures |offs| == |Deltas|
  {
    [-w - 1, -w, -w + 1, -1, 1, w - 1, w, w + 1]
  }

  /** The offset table is exactly the eight flattened Moore steps, in
      row-major order, all distinct and none zero. */
  lemma NeighborOffsetsRowMajor(w: int)
    requires w >= 3
    ensures forall k :: 0 <= k < 8 ==> NeighborOffsets(w)[k] == Deltas[k].1 * w + Deltas[k].0
    ensures forall k :: 0 <= k < 8 ==> NeighborOffsets(w)[k] != 0
    ensures forall k, l :: 0 <= k < l < 8 ==> NeighborOffsets(w)[k] != NeighborOffsets(w)[l]
  {
  }

  /** The column step and row step that CellArea reads back out of a
      flattened offset (the xOffset / yOffset computation that `setNeighbor`
      and `moveMedecineCells` share), with C division. */
  function DecodeOffset(w: int, off: int): (int, int)
    requires w > 0
  {
    var xOffset := if off < 0 then off + w else off - w;
    var xOffset' := if Abs(off) == 1 then off else xOffset;
    var yOffset := if off < 0 then CDiv(off - 1, w) else CDiv(off + 1, w);
    (xOffset', yOffset)
  }

  /** Decoding recovers the step of every entry of the offset table once the
      grid is at least 3 wide. */
  lemma {:induction false} DecodeNeighborOffsets(w: int, k: int)
    requires w >= 3 && 0 <= k < 8
    ensures DecodeOffset(w, NeighborOffsets(w)[k]) == Deltas[k]
  {
    DivModOf(w, 1, 2);
    DivModOf(w, 1, 1);
    DivModOf(w, 1, 0);
    DivModOf(w, 0, 2);
  }

  // ---------------------------------------------------------------------
  // Adjacency
  // ---------------------------------------------------------------------

  /** Two distinct cells of a w-wide grid whose columns and rows differ by at
      most one: Moore neighbours, with no wrap-around at the side borders. */
  predicate Adjacent(w: int, a: int, b: int)
    requires w > 0
  {
    a != b && a >= 0 && b >= 0 &&
    -1 <= a % w - b % w <= 1 && -1 <= a / w - b / w <= 1
  }

  /** Moving both cells by whole rows keeps them neighbours or not. */
  lemma {:induction false} AdjacentShift(w: int, a: int, b: int, rows: int)
    requires w > 0 && a >= 0 && b >= 0 && rows >= 0
    ensures Adjacent(w, a + rows * w, b + rows * w) <==> Adjacent(w, a, b)
  {
    DivModOf(w, a / w + rows, a % w);
    DivModOf(w, b / w + rows, b % w);
    assert a + rows * w == (a / w + rows) * w + a % w;
    assert b + rows * w == (b / w + rows) * w + b % w;
  }

  /** Adjacency in terms of the offset table: b is a's neighbour exactly
      when b == a + offs[k] for a step k that keeps the column inside. */
  lemma {:induction false} AdjacentViaOffset(w: int, a: int, b: int)
    requires w >= 3 && a >= 0 && b >= 0
    ensures Adjacent(w, a, b) <==>
      exists k :: 0 <= k < 8 && b == a + NeighborOffsets(w)[k] && 0 <= a % w + Deltas[k].0 < w
  {
    if Adjacent(w, a, b) {
      var k := AdjacentStep(w, a, b);
    }
    if exists k :: 0 <= k < 8 && b == a + NeighborOffsets(w)[k] && 0 <= a % w + Deltas[k].0 < w {
      var k :| 0 <= k < 8 && b == a + NeighborOffsets(w)[k] && 0 <= a % w + Deltas[k].0 < w;
      StepAdjacent(w, a, k);
    }
  }

  lemma {:induction false} AdjacentStep(w: int, a: int, b: int) returns (k: int)
    requires w >= 3 && Adjacent(w, a, b)
    ensures 0 <= k < 8 && b == a + NeighborOffsets(w)[k] && 0 <= a % w + Deltas[k].0 < w
  {
    var x1, y1 := a % w, a / w;
    var x2, y2 := b % w, b / w;
    var dx, dy := x2 - x1, y2 - y1;
    assert b - a == dy * w + dx by {
      Distribute(y1, dy, w);
    }
    if dy == -1 {
      k := dx + 1;
    } else if dy == 0 {
      assert dx != 0;
      k := if dx == -1 then 3 else 4;
    } else {
      k := dx + 6;
    }
  }

  lemma {:induction false} StepAdjacent(w: int, a: int, k: int)
    requires w >= 3 && a >= 0 && 0 <= k < 8
    requires a + NeighborOffsets(w)[k] >= 0 && 0 <= a % w + Deltas[k].0 < w
    ensures Adjacent(w, a, a + NeighborOffsets(w)[k])
  {
    StepDecomposes(w, a, k);
    DivModOf(w, a / w + Deltas[k].1, a % w + Deltas[k].0);
  }

  /** A step of the offset table splits into a row step and a column step. */
  lemma StepDecomposes(w: int, cell: int, k: int)
    requires w >= 3 && 0 <= k < 8
    ensures cell + NeighborOffsets(w)[k] == (cell / w + Deltas[k].1) * w + (cell % w + Deltas[k].0)
  {
    NeighborOffsetsRowMajor(w);
    Distribute(cell / w, Deltas[k].1, w);
  }

  lemma Distribute(a: int, b: int, w: int)
    ensures (a + b) * w == a * w + b * w
  {
  }

  // ---------------------------------------------------------------------
  // The neighbour table (setNeighbor)
  // ---------------------------------------------------------------------

  /** The test `setNeighbor` applies to one offset of `index`: the decoded
      column and row steps must land exactly on the target's column and row
      (C `%` and `/`), and the target must lie in the first partition. */
  predicate NeighborTest(w: int, index: int, off: int)
    requires w > 0
  {
    var x1 := CMod(index, w);
    var y1 := CDiv(index, w);
    var partitionIndex := off + index;
    var x2 := CMod(partitionIndex, w);
    var y2 := CDiv(partitionIndex, w);
    var d := DecodeOffset(w, off);
    x1 + d.0 == x2 && y1 + d.1 == y2 &&
    partitionIndex >= 0 && partitionIndex < CellsPerPartition(w)
  }

  /** The targets kept out of `offs`, in order. */
  function Kept(w: int, index: int, offs: seq<int>): (r: seq<int>)
    requires w > 0
    ensures |r| <= |offs|
  {
    if offs == [] then []
    else
      var last := offs[|offs| - 1];
      Kept(w, index, offs[..|offs| - 1]) +
      (if NeighborTest(w, index, last) then [index + last] else [])
  }

  /** The list `m_Neighbors[index]` that `setNeighbor(index)` builds. */
  function NeighborsOf(w: int, index: int): seq<int>
    requires w > 0
  {
    Kept(w, index, NeighborOffsets(w))
  }

  /** The whole table: one list per index of the first partition. */
  function NeighborTable(w: nat): (table: seq<seq<int>>)
    requires w > 0
    ensures |table| == CellsPerPartition(w)
  {
    seq(CellsPerPartition(w), index => NeighborsOf(w, index))
  }

  lemma {:induction false} KeptMembers(w: int, index: int, offs: seq<int>, p: int)
    requires w > 0
    ensures p in Kept(w, index, offs) <==>
      exists k :: 0 <= k < |offs| && NeighborTest(w, index, offs[k]) && p == index + offs[k]
  {
    if offs != [] {
      var init := offs[..|offs| - 1];
      var last := offs[|offs| - 1];
      KeptMembers(w, index, init, p);
      assert Kept(w, index, offs) == Kept(w, index, init) + (if NeighborTest(w, index, last) then [index + last] else []);
      if p in Kept(w, index, offs) {
        if p in Kept(w, index, init) {
          var k :| 0 <= k < |init| && NeighborTest(w, index, init[k]) && p == index + init[k];
          assert offs[k] == init[k];
        } else {
          assert NeighborTest(w, index, offs[|offs| - 1]) && p == index + offs[|offs| - 1];
        }
      }
      if exists k :: 0 <= k < |offs| && NeighborTest(w, index, offs[k]) && p == index + offs[k] {
        var k :| 0 <= k < |offs| && NeighborTest(w, index, offs[k]) && p == index + offs[k];
        if k < |offs| - 1 {
          assert offs[k] == init[k];
          assert p in Kept(w, index, init);
        }
      }
    }
  }

  lemma {:induction false} KeptDistinct(w: int, index: int, offs: seq<int>)
    requires w > 0
    requires forall k, l :: 0 <= k < l < |offs| ==> offs[k] != offs[l]
    ensures forall i, j :: 0 <= i < j < |Kept(w, index, offs)| ==> Kept(w, index, offs)[i] != Kept(w, index, offs)[j]
  {
    if offs != [] {
      var init := offs[..|offs| - 1];
      var last := offs[|offs| - 1];
      KeptDistinct(w, index, init);
      if NeighborTest(w, index, last) {
        KeptMembers(w, index, init, index + last);
        assert index + last !in Kept(w, index, init);
      }
    }
  }

  /** One offset of `setNeighbor` in geometric terms: it is kept exactly when
      the target lies in the first partition and the step keeps the column
      inside the grid. */
  lemma {:induction false} NeighborTestGeometric(w: int, index: int, k: int)
    requires ValidWidth(w) && index >= 0 && 0 <= k < 8
    ensures NeighborTest(w, index, NeighborOffsets(w)[k]) <==>
      0 <= index + NeighborOffsets(w)[k] < CellsPerPartition(w) && 0 <= index % w + Deltas[k].0 < w
  {
    NeighborOffsetsRowMajor(w);
    DecodeNeighborOffsets(w, k);
    var off := NeighborOffsets(w)[k];
    var (dx, dy) := Deltas[k];
    var x1, y1 := index % w, index / w;
    var p := index + off;
    assert p == (y1 + dy) * w + (x1 + dx);
    if p >= 0 {
      if 0 <= x1 + dx < w {
        DivModOf(w, y1 + dy, x1 + dx);
      } else if x1 + dx == -1 {
        assert p == (y1 + dy - 1) * w + (w - 1);
        DivModOf(w, y1 + dy - 1, w - 1);
      } else {
        assert x1 + dx == w;
        assert p == (y1 + dy + 1) * w + 0;
        DivModOf(w, y1 + dy + 1, 0);
      }
    }
  }

  /** The neighbour list of a first-partition cell holds exactly its Moore
      neighbours inside the first partition: no wrap-around at the left or
      right border, nothing outside the partition. */
  lemma NeighborsOfExactly(w: int, index: int)
    requires ValidWidth(w) && 0 <= index < CellsPerPartition(w)
    ensures forall p :: p in NeighborsOf(w, index) <==> 0 <= p < CellsPerPartition(w) && Adjacent(w, index, p)
  {
    forall p
      ensures p in NeighborsOf(w, index) <==> 0 <= p < CellsPerPartition(w) && Adjacent(w, index, p)
    {
      KeptMembers(w, index, NeighborOffsets(w), p);
      forall k | 0 <= k < 8 {
        NeighborTestGeometric(w, index, k);
      }
      if p >= 0 {
        AdjacentViaOffset(w, index, p);
      }
    }
  }

  /** The neighbour list has at most 8 entries and no duplicates. */
  lemma NeighborsOfShape(w: int, index: int)
    requires ValidWidth(w)
    ensures |NeighborsOf(w, index)| <= 8
    ensures forall i, j :: 0 <= i < j < |NeighborsOf(w, index)| ==> NeighborsOf(w, index)[i] != NeighborsOf(w, index)[j]
  {
    NeighborOffsetsRowMajor(w);
    KeptDistinct(w, index, NeighborOffsets(w));
  }

  /** Every table entry points inside the first partition, so a local
      neighbour index never leaves the partition it is used in. */
  predicate TableInPartition(table: seq<seq<int>>)
  {
    forall i, j :: 0 <= i < |table| && 0 <= j < |table[i]| ==> 0 <= table[i][j] < |table|
  }

  lemma NeighborTableShape(w: nat)
    requires ValidWidth(w)
    ensures TableInPartition(NeighborTable(w))
    ensures forall i :: 0 <= i < |NeighborTable(w)| ==> |NeighborTable(w)[i]| <= 8
  {
    var t := NeighborTable(w);
    forall i, j | 0 <= i < |t| && 0 <= j < |t[i]|
      ensures 0 <= t[i][j] < |t|
    {
      NeighborsOfExactly(w, i);
      assert t[i][j] in NeighborsOf(w, i);
    }
    forall i | 0 <= i < |t| ensures |t[i]| <= 8 {
      NeighborsOfShape(w, i);
    }
  }
}
