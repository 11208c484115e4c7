/**
 * One simulation tick of `CellArea::onUpdate` after injection: a copy of
 * every partition's cell types is taken first, the four partitions are
 * updated (the rule, then the counting and medicine sweep), and the
 * partitions' medicine maps and counters are merged.
 *
 * The source runs the four partitions on four threads that share the live
 * cell types; here they run one after another in partition order.
 */
module Update {
  import opened Cells
  import opened Grid
  import opened Rules
  import opened Diffusion

  /** Where partition `p` starts and ends. */
  lemma PartitionBounds(w: nat, p: int)
    requires ValidWidth(w) && 0 <= p < NumberOfThreads
    ensures 0 <= p * CellsPerPartition(w)
    ensures (p + 1) * CellsPerPartition(w) == p * CellsPerPartition(w) + CellsPerPartition(w)
    ensures (p + 1) * CellsPerPartition(w) <= NumberOfCell(w)
  {
    PartitionGeometry(w);
    var n := CellsPerPartition(w);
    assert (NumberOfThreads - (p + 1)) * n >= 0;
    assert NumberOfThreads * n - (p + 1) * n == (NumberOfThreads - (p + 1)) * n;
  }

  /** `updateCellsInPartition` for the partition starting at `min`, read
      from the snapshot `snap`: the rule loop, then the counting loop
      starting from an empty medicine map, the consumed medicine as the
      updated set and zero counters. */
  function UpdatePartition(w: nat, records: map<int, MedRecord>, cur: seq<CellType>, snap: seq<CellType>, min: int): (r: Sweep)
    requires ValidWidth(w) && |cur| == NumberOfCell(w) && |snap| == CellsPerPartition(w)
    requires 0 <= min && min + CellsPerPartition(w) <= NumberOfCell(w)
    ensures |r.types| == |cur|
  {
    NeighborTableShape(w);
    var table := NeighborTable(w);
    var ruled := RulesUpTo(cur, snap, table, min, |snap|);
    SweepUpTo(w, records, Sweep(ruled, map[], ConsumedUpTo(snap, table, min, |snap|), ZeroStats), min, |snap|)
  }

  /** A partition update keeps every cell a real state, produces a well
      formed medicine map, and its counters add up to the size of the
      partition: every cell of it is counted exactly once. */
  lemma UpdatePartitionCounts(w: nat, records: map<int, MedRecord>, cur: seq<CellType>, snap: seq<CellType>, min: int)
    requires ValidWidth(w) && |cur| == NumberOfCell(w) && |snap| == CellsPerPartition(w)
    requires 0 <= min && min + CellsPerPartition(w) <= NumberOfCell(w)
    requires NoNone(cur) && RecordsOk(w, records)
    ensures SweepOk(w, UpdatePartition(w, records, cur, snap, min))
    ensures UpdatePartition(w, records, cur, snap, min).stats.Total() == CellsPerPartition(w)
  {
    NeighborTableShape(w);
    var table := NeighborTable(w);
    RulesKeepNoNone(cur, snap, table, min);
    var ruled := RulesUpTo(cur, snap, table, min, |snap|);
    SweepKeepsOk(w, records, Sweep(ruled, map[], ConsumedUpTo(snap, table, min, |snap|), ZeroStats), min, |snap|);
    SweepCounts(w, records, Sweep(ruled, map[], ConsumedUpTo(snap, table, min, |snap|), ZeroStats), min, |snap|);
  }

  /** The four copies `partitions[i]`, taken from the same cell types
      before any partition runs. */
  function Snapshots(w: nat, types: seq<CellType>): (snaps: seq<seq<CellType>>)
    requires ValidWidth(w) && |types| == NumberOfCell(w)
    ensures |snaps| == NumberOfThreads
    ensures forall p :: 0 <= p < NumberOfThreads ==> |snaps[p]| == CellsPerPartition(w)
  {
    seq(NumberOfThreads, p requires 0 <= p < NumberOfThreads =>
      PartitionBounds(w, p);
      types[p * CellsPerPartition(w)..(p + 1) * CellsPerPartition(w)])
  }

  /** Snapshots are exact copies: cell `k` of partition `p`'s snapshot is
      the cell `p * P + k` of the grid. */
  lemma SnapshotCells(w: nat, types: seq<CellType>, p: int, k: int)
    requires ValidWidth(w) && |types| == NumberOfCell(w)
    requires 0 <= p < NumberOfThreads && 0 <= k < CellsPerPartition(w)
    ensures Snapshots(w, types)[p][k] == types[p * CellsPerPartition(w) + k]
  {
    PartitionBounds(w, p);
  }

  predicate SnapshotsShape(w: nat, snaps: seq<seq<CellType>>) {
    |snaps| == NumberOfThreads && forall p :: 0 <= p < NumberOfThreads ==> |snaps[p]| == CellsPerPartition(w)
  }

  /** The state after some partitions ran: the live cell types and, per
      partition that ran, its medicine map and its counters. */
  datatype Run = Run(types: seq<CellType>, maps: seq<map<int, MedRecord>>, stats: seq<PartitionStats>)

  /** Partitions 0..p-1 run in order on the live types, each reading its
      own snapshot. */
  function RunUpTo(w: nat, records: map<int, MedRecord>, cur: seq<CellType>, snaps: seq<seq<CellType>>, p: int): (r: Run)
    requires ValidWidth(w) && |cur| == NumberOfCell(w) && SnapshotsShape(w, snaps) && 0 <= p <= NumberOfThreads
    ensures |r.types| == |cur| && |r.maps| == p && |r.stats| == p
  {
    if p == 0 then Run(cur, [], [])
    else
      var prev := RunUpTo(w, records, cur, snaps, p - 1);
      PartitionBounds(w, p - 1);
      var s := UpdatePartition(w, records, prev.types, snaps[p - 1], (p - 1) * CellsPerPartition(w));
      Run(s.types, prev.maps + [s.medMap], prev.stats + [s.stats])
  }

  /** Every partition that ran keeps the cells real states, leaves a well
      formed medicine map and counts exactly its own cells. */
  lemma {:induction false} RunCounts(w: nat, records: map<int, MedRecord>, cur: seq<CellType>, snaps: seq<seq<CellType>>, p: int)
    requires ValidWidth(w) && |cur| == NumberOfCell(w) && SnapshotsShape(w, snaps) && 0 <= p <= NumberOfThreads
    requires NoNone(cur) && RecordsOk(w, records)
    ensures var r := RunUpTo(w, records, cur, snaps, p);
      && NoNone(r.types)
      && (forall q :: 0 <= q < p ==> RecordsOk(w, r.maps[q]) && r.stats[q].Total() == CellsPerPartition(w))
  {
    if p > 0 {
      RunCounts(w, records, cur, snaps, p - 1);
      var prev := RunUpTo(w, records, cur, snaps, p - 1);
      PartitionBounds(w, p - 1);
      var s := UpdatePartition(w, records, prev.types, snaps[p - 1], (p - 1) * CellsPerPartition(w));
      UpdatePartitionCounts(w, records, prev.types, snaps[p - 1], (p - 1) * CellsPerPartition(w));
      var r := RunUpTo(w, records, cur, snaps, p);
      assert r == Run(s.types, prev.maps + [s.medMap], prev.stats + [s.stats]);
      forall q | 0 <= q < p
        ensures RecordsOk(w, r.maps[q]) && r.stats[q].Total() == CellsPerPartition(w)
      {
        if q < p - 1 {
          assert r.maps[q] == prev.maps[q] && r.stats[q] == prev.stats[q];
        }
      }
    }
  }

  /** `m_MedecineCells.insert(first, last)` for the maps in partition
      order: a key already present is not overwritten. */
  function Merge(maps: seq<map<int, MedRecord>>): map<int, MedRecord>
  {
    if maps == [] then map[]
    else maps[|maps| - 1] + Merge(maps[..|maps| - 1])
  }

  /** Merging one more partition's map: its keys are added where the
      earlier partitions did not have them. */
  lemma MergeStep(maps: seq<map<int, MedRecord>>, p: int)
    requires 0 <= p < |maps|
    ensures Merge(maps[..p + 1]) == maps[p] + Merge(maps[..p])
  {
    assert maps[..p + 1][..p] == maps[..p];
  }

  /** The merged map holds every key of every partition's map, with the
      record of the first partition that has it. */
  lemma {:induction false} MergeFirstWins(maps: seq<map<int, MedRecord>>, g: int)
    ensures g in Merge(maps) <==> exists p :: 0 <= p < |maps| && g in maps[p]
    ensures forall p :: 0 <= p < |maps| && g in maps[p] && (forall q :: 0 <= q < p ==> g !in maps[q]) ==>
      Merge(maps)[g] == maps[p][g]
  {
    if maps != [] {
      var init := maps[..|maps| - 1];
      MergeFirstWins(init, g);
      assert forall p :: 0 <= p < |init| ==> init[p] == maps[p];
    }
  }

  /** Merging well formed maps gives a well formed map. */
  lemma MergeOk(w: nat, maps: seq<map<int, MedRecord>>)
    requires forall p :: 0 <= p < |maps| ==> RecordsOk(w, maps[p])
    ensures RecordsOk(w, Merge(maps))
  {
    forall g | g in Merge(maps) ensures 0 <= g < NumberOfCell(w) && RecordOk(w, Merge(maps)[g]) {
      MergeFirstWins(maps, g);
      var p :| 0 <= p < |maps| && g in maps[p] && (forall q :: 0 <= q < p ==> g !in maps[q]) by {
        FirstHolder(maps, g);
      }
    }
  }

  /** A key that some map holds has a first map that holds it. */
  lemma {:induction false} FirstHolder(maps: seq<map<int, MedRecord>>, g: int)
    requires exists p :: 0 <= p < |maps| && g in maps[p]
    ensures exists p :: 0 <= p < |maps| && g in maps[p] && (forall q :: 0 <= q < p ==> g !in maps[q])
  {
    var init := maps[..|maps| - 1];
    if exists p :: 0 <= p < |init| && g in init[p] {
      FirstHolder(init, g);
      var p :| 0 <= p < |init| && g in init[p] && (forall q :: 0 <= q < p ==> g !in init[q]);
      assert g in maps[p] && forall q :: 0 <= q < p ==> g !in maps[q];
    } else {
      var p := |maps| - 1;
      assert forall q :: 0 <= q < p ==> g !in maps[q] by {
        forall q | 0 <= q < p ensures g !in maps[q] {
          assert init[q] == maps[q];
        }
      }
    }
  }

  /** The counters of all partitions added up. */
  function SumStats(stats: seq<PartitionStats>): (s: PartitionStats)
  {
    if stats == [] then ZeroStats
    else SumStats(stats[..|stats| - 1]).Plus(stats[|stats| - 1])
  }

  /** Adding one more partition's counters. */
  lemma SumStatsStep(stats: seq<PartitionStats>, p: int)
    requires 0 <= p < |stats|
    ensures SumStats(stats[..p + 1]) == SumStats(stats[..p]).Plus(stats[p])
  {
    assert stats[..p + 1][..p] == stats[..p];
  }

  lemma {:induction false} SumStatsTotal(stats: seq<PartitionStats>, n: nat)
    requires forall q :: 0 <= q < |stats| ==> stats[q].Total() == n
    ensures SumStats(stats).Total() == |stats| * n
  {
    if stats != [] {
      SumStatsTotal(stats[..|stats| - 1], n);
      assert (|stats| - 1) * n + n == |stats| * n;
    }
  }

  /** A whole tick after injection. */
  function TickFrom(w: nat, records: map<int, MedRecord>, types: seq<CellType>): (r: Run)
    requires ValidWidth(w) && |types| == NumberOfCell(w)
    ensures |r.types| == |types| && |r.maps| == NumberOfThreads && |r.stats| == NumberOfThreads
  {
    RunUpTo(w, records, types, Snapshots(w, types), NumberOfThreads)
  }

  /** After a tick every cell is one of the three real states, the merged
      medicine map is well formed, and the three population counters add up
      to the number of cells of the grid. */
  lemma TickCounts(w: nat, records: map<int, MedRecord>, types: seq<CellType>)
    requires ValidWidth(w) && |types| == NumberOfCell(w) && NoNone(types) && RecordsOk(w, records)
    ensures var r := TickFrom(w, records, types);
      && NoNone(r.types)
      && RecordsOk(w, Merge(r.maps))
      && SumStats(r.stats).Total() == NumberOfCell(w)
  {
    var r := TickFrom(w, records, types);
    RunCounts(w, records, types, Snapshots(w, types), NumberOfThreads);
    MergeOk(w, r.maps);
    SumStatsTotal(r.stats, CellsPerPartition(w));
    PartitionGeometry(w);
  }
}
