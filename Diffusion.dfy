/**
 * The second loop of `CellArea::updateCellsInPartition` and
 * `CellArea::moveMedecineCells`: every cell of the partition is counted by
 * its live type, and a MEDECINE cell that has not been consumed by a cure
 * hands its cell back to the type it displaced and takes one more step in
 * its direction of travel, recording itself in the partition's new medicine
 * map. The records it reads are the previous tick's medicine map.
 */
module Diffusion {
  import opened Cells
  import opened Grid

  /** A record as the engine creates it: a real displaced type and one of
      the eight Moore steps as its direction of travel. */
  predicate RecordOk(w: int, rec: MedRecord) {
    rec.previousType != NONE && rec.offset in NeighborOffsets(w)
  }

  /** A medicine map keyed by cells of the grid, every record well formed. */
  predicate RecordsOk(w: nat, records: map<int, MedRecord>) {
    forall g :: g in records ==> 0 <= g < NumberOfCell(w) && RecordOk(w, records[g])
  }

  /** The state the counting loop of one partition works on: the live cell
      types, the partition's new medicine map (`medecineMap`), the cells
      whose medicine has already been dealt with this tick
      (`updatedMedecine`) and the partition's counters. */
  datatype Sweep = Sweep(types: seq<CellType>, medMap: map<int, MedRecord>, updated: set<int>, stats: PartitionStats)

  /** The state invariant of a sweep. */
  predicate SweepOk(w: nat, s: Sweep) {
    |s.types| == NumberOfCell(w) && NoNone(s.types) && RecordsOk(w, s.medMap)
  }

  /** The bounds test of `moveMedecineCells` for medicine at `cell` moving
      by `offset`: decoded column and row of the destination inside the
      grid, and the flattened destination inside the grid. */
  predicate MoveInGrid(w: nat, cell: int, offset: int)
    requires w > 0
  {
    var (xOffset, yOffset) := DecodeOffset(w, offset);
    var x := CMod(cell, w);
    var y := CDiv(cell, w);
    var index := cell + offset;
    0 <= x + xOffset < w && 0 <= y + yOffset < w && 0 <= index < NumberOfCell(w)
  }

  /** `moveMedecineCells` for one cell. Nothing happens to a cell already
      dealt with or without a record. Otherwise the displaced type comes
      back first (unless it was MEDECINE itself), and then, if the step
      stays inside the grid, the destination turns MEDECINE, the partition's
      map records what it displaced (an existing entry is kept: the first
      insertion wins) and the cell counts as dealt with. */
  function MoveMedecine(w: nat, records: map<int, MedRecord>, s: Sweep, cell: int): (r: Sweep)
    requires w > 0 && 0 <= cell < |s.types| && |s.types| == NumberOfCell(w)
    ensures |r.types| == |s.types| && r.stats == s.stats
    ensures r.updated <= s.updated + {cell} && s.updated <= r.updated
    ensures s.medMap.Keys <= r.medMap.Keys && forall g :: g in s.medMap ==> r.medMap[g] == s.medMap[g]
    ensures cell in s.updated || cell !in records ==> r == s
  {
    if cell in s.updated || cell !in records then s
    else
      var rec := records[cell];
      var restored := if rec.previousType != MEDECINE then s.types[cell := rec.previousType] else s.types;
      if MoveInGrid(w, cell, rec.offset) then
        var index := cell + rec.offset;
        var medMap := if index in s.medMap then s.medMap else s.medMap[index := MedRecord(restored[index], rec.offset)];
        Sweep(restored[index := MEDECINE], medMap, s.updated + {cell}, s.stats)
      else
        s.(types := restored)
  }

  /** The move does not read the counters. */
  lemma MoveIgnoresStats(w: nat, records: map<int, MedRecord>, s: Sweep, cell: int)
    requires w > 0 && 0 <= cell < |s.types| && |s.types| == NumberOfCell(w)
    ensures MoveMedecine(w, records, s, cell) == MoveMedecine(w, records, s.(stats := ZeroStats), cell).(stats := s.stats)
  {
  }

  /** For a direction of travel from the offset table, the bounds test
      passes exactly when the destination is a Moore neighbour of the cell
      inside the grid: the step neither leaves the grid nor wraps around a
      side border. */
  lemma MoveInGridGeometric(w: nat, cell: int, k: int)
    requires ValidWidth(w) && 0 <= cell < NumberOfCell(w) && 0 <= k < 8
    ensures var dest := cell + NeighborOffsets(w)[k];
      MoveInGrid(w, cell, NeighborOffsets(w)[k]) <==> 0 <= dest < NumberOfCell(w) && Adjacent(w, cell, dest)
  {
    var dest := cell + NeighborOffsets(w)[k];
    if MoveInGrid(w, cell, NeighborOffsets(w)[k]) {
      DecodeNeighborOffsets(w, k);
      StepAdjacent(w, cell, k);
    }
    if 0 <= dest < NumberOfCell(w) && Adjacent(w, cell, dest) {
      MoveInGridComplete(w, cell, k);
    }
  }

  lemma MoveInGridComplete(w: nat, cell: int, k: int)
    requires ValidWidth(w) && 0 <= cell < NumberOfCell(w) && 0 <= k < 8
    requires 0 <= cell + NeighborOffsets(w)[k] < NumberOfCell(w) && Adjacent(w, cell, cell + NeighborOffsets(w)[k])
    ensures MoveInGrid(w, cell, NeighborOffsets(w)[k])
  {
    AdjacentColumnStep(w, cell, k);
    StepRowInside(w, cell, k);
    DecodeNeighborOffsets(w, k);
  }

  /** A step from the table to a neighbour keeps the column inside. */
  lemma AdjacentColumnStep(w: nat, cell: int, k: int)
    requires w >= 3 && 0 <= cell && 0 <= k < 8
    requires Adjacent(w, cell, cell + NeighborOffsets(w)[k])
    ensures 0 <= cell % w + Deltas[k].0 < w
  {
    var dest := cell + NeighborOffsets(w)[k];
    NeighborOffsetsRowMajor(w);
    AdjacentViaOffset(w, cell, dest);
    var k' :| 0 <= k' < 8 && dest == cell + NeighborOffsets(w)[k'] && 0 <= cell % w + Deltas[k'].0 < w;
    assert k' == k;
  }

  /** A step that keeps the column inside and lands inside the grid keeps
      the row inside. */
  lemma StepRowInside(w: nat, cell: int, k: int)
    requires w >= 3 && 0 <= cell && 0 <= k < 8
    requires 0 <= cell % w + Deltas[k].0 < w && 0 <= cell + NeighborOffsets(w)[k] < w * w
    ensures 0 <= cell / w + Deltas[k].1 < w
  {
    StepDecomposes(w, cell, k);
    RowInside(w, cell / w + Deltas[k].1, cell % w + Deltas[k].0);
  }

  lemma RowInside(w: int, q: int, r: int)
    requires w > 0 && 0 <= r < w && 0 <= q * w + r < w * w
    ensures 0 <= q < w
  {
    if q >= w {
      MulAtLeastRows(q, w);
    } else if q < 0 {
      MulAtLeast(-q, w);
    }
  }

  lemma MulAtLeastRows(k: int, w: int)
    requires 0 < w <= k
    ensures k * w >= w * w
  {
    assert k * w - w * w == (k - w) * w;
  }

  /** What one move does. The cell's displaced type comes back whether or
      not the step succeeds, so medicine whose step would leave the grid
      disappears; the step succeeds exactly when its destination is a
      neighbour inside the grid, and then the destination is MEDECINE, the
      partition's map holds a record for it travelling the same way (a
      fresh one holding what it displaced unless one was there already),
      and no other cell changes. */
  lemma MoveMedecineSpec(w: nat, records: map<int, MedRecord>, s: Sweep, cell: int)
    requires ValidWidth(w) && RecordsOk(w, records) && SweepOk(w, s) && 0 <= cell < NumberOfCell(w)
    requires cell !in s.updated && cell in records
    ensures var rec := records[cell];
      var r := MoveMedecine(w, records, s, cell);
      var dest := cell + rec.offset;
      var back := if rec.previousType != MEDECINE then rec.previousType else s.types[cell];
      && (cell in r.updated <==> 0 <= dest < NumberOfCell(w) && Adjacent(w, cell, dest))
      && r.types[cell] == back
      && (cell in r.updated ==>
            r.types[dest] == MEDECINE &&
            (dest !in s.medMap ==> r.medMap[dest] == MedRecord(s.types[dest], rec.offset)) &&
            r.medMap.Keys == s.medMap.Keys + {dest} &&
            forall g :: 0 <= g < |s.types| && g != cell && g != dest ==> r.types[g] == s.types[g])
      && (cell !in r.updated ==>
            r.medMap == s.medMap && r.updated == s.updated &&
            forall g :: 0 <= g < |s.types| && g != cell ==> r.types[g] == s.types[g])
  {
    var rec := records[cell];
    var k :| 0 <= k < 8 && NeighborOffsets(w)[k] == rec.offset;
    MoveInGridGeometric(w, cell, k);
    NeighborOffsetsRowMajor(w);
  }

  /** One iteration of the counting loop: the cell is counted by its live
      type, and a MEDECINE cell moves. */
  function Visit(w: nat, records: map<int, MedRecord>, s: Sweep, cell: int): (r: Sweep)
    requires w > 0 && 0 <= cell < |s.types| && |s.types| == NumberOfCell(w)
    ensures |r.types| == |s.types|
    ensures r.stats == s.stats.Count(s.types[cell])
  {
    var t := s.types[cell];
    var moved := if t == MEDECINE then MoveMedecine(w, records, s, cell) else s;
    moved.(stats := s.stats.Count(t))
  }

  /** The counting loop after visiting cells min..min+i-1. */
  function SweepUpTo(w: nat, records: map<int, MedRecord>, s: Sweep, min: int, i: int): (r: Sweep)
    requires w > 0 && |s.types| == NumberOfCell(w) && 0 <= min && 0 <= i && min + i <= NumberOfCell(w)
    ensures |r.types| == |s.types|
  {
    if i == 0 then s
    else Visit(w, records, SweepUpTo(w, records, s, min, i - 1), min + i - 1)
  }

  /** A visit keeps the sweep invariant and raises the counters by one. */
  lemma VisitPreserves(w: nat, records: map<int, MedRecord>, s: Sweep, cell: int)
    requires ValidWidth(w) && RecordsOk(w, records) && SweepOk(w, s) && 0 <= cell < NumberOfCell(w)
    ensures SweepOk(w, Visit(w, records, s, cell))
    ensures Visit(w, records, s, cell).stats.Total() == s.stats.Total() + 1
  {
    if s.types[cell] == MEDECINE && cell !in s.updated && cell in records {
      MoveMedecineSpec(w, records, s, cell);
    }
  }

  /** The counting loop keeps every cell one of the three real states and
      the new medicine map well formed. */
  lemma {:induction false} SweepKeepsOk(w: nat, records: map<int, MedRecord>, s: Sweep, min: int, i: int)
    requires ValidWidth(w) && RecordsOk(w, records) && SweepOk(w, s)
    requires 0 <= min && 0 <= i && min + i <= NumberOfCell(w)
    ensures SweepOk(w, SweepUpTo(w, records, s, min, i))
  {
    if i > 0 {
      var prev := SweepUpTo(w, records, s, min, i - 1);
      SweepKeepsOk(w, records, s, min, i - 1);
      VisitPreserves(w, records, prev, min + i - 1);
    }
  }

  /** The counting loop counts every visited cell exactly once: the
      counters of a partition add up to the number of cells visited. */
  lemma {:induction false} SweepCounts(w: nat, records: map<int, MedRecord>, s: Sweep, min: int, i: int)
    requires ValidWidth(w) && RecordsOk(w, records) && SweepOk(w, s)
    requires 0 <= min && 0 <= i && min + i <= NumberOfCell(w)
    ensures SweepUpTo(w, records, s, min, i).stats.Total() == s.stats.Total() + i
  {
    if i > 0 {
      var prev := SweepUpTo(w, records, s, min, i - 1);
      SweepCounts(w, records, s, min, i - 1);
      SweepKeepsOk(w, records, s, min, i - 1);
      assert prev.types[min + i - 1] != NONE;
    }
  }

  /** Entries of the new medicine map are never overwritten during the
      sweep: what the map held before, it still holds. */
  lemma {:induction false} SweepKeepsEntries(w: nat, records: map<int, MedRecord>, s: Sweep, min: int, i: int)
    requires w > 0 && |s.types| == NumberOfCell(w) && 0 <= min && 0 <= i && min + i <= NumberOfCell(w)
    ensures var r := SweepUpTo(w, records, s, min, i);
      s.medMap.Keys <= r.medMap.Keys && (forall g :: g in s.medMap ==> r.medMap[g] == s.medMap[g]) &&
      s.updated <= r.updated
  {
    if i > 0 {
      SweepKeepsEntries(w, records, s, min, i - 1);
    }
  }
}
