/**
 * `CellArea::getIndex`: mapping a continuous coordinate to a cell index by
 * a bucket search over the precomputed cell positions. The positions are an
 * input (a GPU kernel fills them); column boundaries are the x of the first
 * row's cells, row boundaries the y of each row's first cell.
 */
module Locate {
  import opened Grid

  /** `Elysium::Vector2`, with reals in place of floats. */
  datatype Vec2 = Vec2(x: real, y: real)

  /** The first index whose boundary is at least `v`, or |bounds| if none. */
  function FirstAtLeast(bounds: seq<real>, v: real): (r: nat)
    ensures r <= |bounds|
    ensures forall k :: 0 <= k < r ==> bounds[k] < v
    ensures r < |bounds| ==> v <= bounds[r]
  {
    if bounds == [] then 0
    else if v <= bounds[0] then 0
    else 1 + FirstAtLeast(bounds[1..], v)
  }

  lemma RowStartInGrid(w: nat, r: int)
    requires 0 <= r < w
    ensures 0 <= r * w <= (w - 1) * w && r * w + w <= w * w
  {
    assert (w - 1) * w - r * w == (w - 1 - r) * w;
  }

  /** Column boundaries: `Positions[i].x` for the cells of the first row. */
  function ColumnBounds(positions: seq<Vec2>, w: nat): (b: seq<real>)
    requires |positions| >= w
    ensures |b| == w
  {
    seq(w, i requires 0 <= i < w => positions[i].x)
  }

  /** Row boundaries: `Positions[r * w].y` for the first cell of each row. */
  function RowBounds(positions: seq<Vec2>, w: nat): (b: seq<real>)
    requires |positions| == NumberOfCell(w)
    ensures |b| == w
  {
    seq(w, r requires 0 <= r < w => RowStartInGrid(w, r); positions[r * w].y)
  }

  /** The column search: one before the first boundary at or beyond the
      coordinate, clamped to column 0 on the left and to the last column when
      every boundary lies before it. */
  function ColumnOf(positions: seq<Vec2>, w: nat, px: real): (c: nat)
    requires w > 0 && |positions| >= w
    ensures c < w
    ensures px <= positions[0].x ==> c == 0
    ensures positions[0].x < px ==>
      (forall k :: 0 <= k <= c ==> positions[k].x < px) && (c == w - 1 || px <= positions[c + 1].x)
  {
    var bounds := ColumnBounds(positions, w);
    var f := FirstAtLeast(bounds, px);
    assert forall k :: 0 <= k < w ==> bounds[k] == positions[k].x;
    if f == w then w - 1 else if f == 0 then 0 else f - 1
  }

  /** The row search: the first row boundary at or beyond the coordinate, or
      the last row when every boundary lies before it. Unlike the column it
      is not stepped back by one. */
  function RowOf(positions: seq<Vec2>, w: nat, py: real): (r: nat)
    requires w > 0 && |positions| == NumberOfCell(w)
    ensures r < w
    ensures forall k :: 0 <= k < r ==> RowBounds(positions, w)[k] < py
    ensures r < w - 1 ==> py <= RowBounds(positions, w)[r]
  {
    var f := FirstAtLeast(RowBounds(positions, w), py);
    if f == w then w - 1 else f
  }

  /** The cell `getIndex` returns. */
  function CellIndexOf(positions: seq<Vec2>, w: nat, position: Vec2): (index: nat)
    requires w > 0 && |positions| == NumberOfCell(w)
    ensures index < NumberOfCell(w)
    ensures index % w == ColumnOf(positions, w, position.x)
    ensures index / w == RowOf(positions, w, position.y)
  {
    var c := ColumnOf(positions, w, position.x);
    var r := RowOf(positions, w, position.y);
    RowStartInGrid(w, r);
    DivModOf(w, r, c);
    c + r * w
  }

  lemma MulLessCancel(a: int, b: int, w: int)
    requires w > 0 && a * w < b * w
    ensures a < b
  {
  }

  lemma MulStrictMono(a: int, b: int, w: int)
    requires w > 0 && a < b
    ensures a * w < b * w
  {
    assert b * w - a * w == (b - a) * w;
    MulAtLeast(b - a, w);
  }

  /** `getIndex`: the column search followed by the row search. */
  method GetIndex(positions: seq<Vec2>, w: nat, position: Vec2) returns (index: nat)
    requires ValidWidth(w) && |positions| == NumberOfCell(w)
    ensures index == CellIndexOf(positions, w, position)
    ensures index < NumberOfCell(w)
  {
    var x := SearchColumn(positions, w, position.x);
    var y := SearchRow(positions, w, position.y);
    index := x + y * w;
  }

  /** The column loop of `getIndex`. */
  method SearchColumn(positions: seq<Vec2>, w: nat, px: real) returns (x: nat)
    requires ValidWidth(w) && |positions| == NumberOfCell(w)
    ensures x == ColumnOf(positions, w, px)
  {
    x := 0;
    var i := 0;
    while i < w
      invariant 0 <= i < w
      invariant forall k :: 0 <= k < i ==> px > positions[k].x
    {
      if px <= positions[i].x && i == 0 {
        x := 0;
        break;
      } else if px <= positions[i].x {
        x := i - 1;
        break;
      } else if px > positions[i].x && i == w - 1 {
        x := w - 1;
        break;
      }
      i := i + 1;
    }
  }

  /** The row loop of `getIndex`, stepping through the first cell of every
      row. Its branch for the index `NumberOfCell_Y - 1` never fires on a
      square grid (see RowGuardNeverFires). */
  method SearchRow(positions: seq<Vec2>, w: nat, py: real) returns (y: nat)
    requires ValidWidth(w) && |positions| == NumberOfCell(w)
    ensures y == RowOf(positions, w, py)
  {
    var row: int := -1;
    var i := 0;
    while i < NumberOfCell(w)
      invariant -1 <= row < w
      invariant i == (row + 1) * w
      invariant forall k :: 0 <= k <= row ==> py > RowBounds(positions, w)[k]
    {
      row := row + 1;
      assert row < w && positions[i].y == RowBounds(positions, w)[row] by {
        MulLessCancel(row, w, w);
      }
      if py <= positions[i].y {
        break;
      } else if py > positions[i].y && i == w - 1 {
        RowGuardNeverFires(w, row);
        assert false;
      }
      Distribute(row, 1, w);
      i := i + w;
    }
    assert row == w - 1 || py <= RowBounds(positions, w)[row] by {
      if i >= NumberOfCell(w) && row + 1 < w {
        MulStrictMono(row + 1, w, w);
      }
    }
    y := row;
  }

  /** On a square grid at least two wide the row loop's index, a multiple of
      the width, never equals `NumberOfCell_Y - 1`, so the branch of the row
      loop guarded by that test is dead. */
  lemma RowGuardNeverFires(w: int, row: int)
    requires w >= 2 && row >= 0
    ensures row * w != w - 1
  {
    if row >= 1 {
      MulAtLeast(row, w);
    }
  }

  /** The search is monotone: a coordinate further
      right never lands in a column further left. */
  lemma {:induction false} FirstAtLeastMonotone(bounds: seq<real>, v: real, v': real)
    requires v <= v'
    ensures FirstAtLeast(bounds, v) <= FirstAtLeast(bounds, v')
  {
    if bounds != [] && !(v <= bounds[0]) {
      FirstAtLeastMonotone(bounds[1..], v, v');
    }
  }

  lemma ColumnOfMonotone(positions: seq<Vec2>, w: nat, px: real, px': real)
    requires w > 0 && |positions| >= w && px <= px'
    ensures ColumnOf(positions, w, px) <= ColumnOf(positions, w, px')
  {
    FirstAtLeastMonotone(ColumnBounds(positions, w), px, px');
  }

  lemma RowOfMonotone(positions: seq<Vec2>, w: nat, py: real, py': real)
    requires w > 0 && |positions| == NumberOfCell(w) && py <= py'
    ensures RowOf(positions, w, py) <= RowOf(positions, w, py')
  {
    FirstAtLeastMonotone(RowBounds(positions, w), py, py');
  }
}
