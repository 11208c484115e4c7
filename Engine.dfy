/**
 * `CellArea` itself: the engine object that owns the cell types, the
 * medicine map, the pending injections, the neighbour table and the
 * population counters, and updates them in place.
 */
module Engine {
  import opened Cells
  import opened Grid
  import opened Locate
  import opened Rules
  import opened Diffusion
  import opened Injection
  import opened Update

  /** `UpdateTime` of `onUpdate`: thirty ticks a second. */
  const UpdateTime: real := 1.0 / 30.0

  /** The number of cancer cells seeded: the drawn fraction of a quarter of
      the grid, truncated, plus a quarter of the grid. */
  function SeedCount(w: nat, percentage: real): (n: nat)
    requires 0.0 <= percentage <= 1.0
    ensures NumberOfCell(w) / 4 <= n <= 2 * (NumberOfCell(w) / 4) <= NumberOfCell(w)
  {
    var minimum := NumberOfCell(w) / 4;
    FractionFloor(percentage, minimum);
    (percentage * minimum as real).Floor + minimum
  }

  /** A fraction of `m`, truncated, lies between 0 and `m`. */
  lemma FractionFloor(p: real, m: nat)
    requires 0.0 <= p <= 1.0
    ensures 0 <= (p * m as real).Floor <= m
  {
    var x := m as real;
    assert p * x <= x by {
      assert x - p * x == (1.0 - p) * x;
    }
  }

  /** `order` visits every element of `s` exactly once. */
  ghost predicate Lists(order: seq<int>, s: set<int>) {
    (forall x :: x in order <==> x in s) &&
    (forall a, b :: 0 <= a < b < |order| ==> order[a] != order[b])
  }

  /** The cells 0..n-1. */
  function Range(n: nat): (r: set<int>)
    ensures forall i :: i in r <==> 0 <= i < n
    ensures |r| == n
  {
    if n == 0 then {} else Range(n - 1) + {n - 1}
  }

  /** Fewer than n chosen cells leave a cell of 0..n-1 unchosen, so the
      redraw loop of the seeding always finds a fresh index. */
  lemma FreeIndexExists(chosen: set<int>, n: nat)
    requires |chosen| < n
    ensures exists i :: 0 <= i < n && i !in chosen
  {
    if forall i :: 0 <= i < n ==> i in chosen {
      assert Range(n) <= chosen;
      assert false by {
        SubsetCard(Range(n), chosen);
      }
    }
  }

  /** The seeding loop of the constructor: `seeds` distinct random cells
      (`:|` stands for the random draw, redrawn while already chosen). */
  method DrawSeeds(n: nat, seeds: nat) returns (indexes: set<int>)
    requires seeds <= n
    ensures |indexes| == seeds
    ensures forall i :: i in indexes ==> 0 <= i < n
  {
    indexes := {};
    var counter := 0;
    while counter < seeds
      invariant counter <= seeds && |indexes| == counter
      invariant forall i :: i in indexes ==> 0 <= i < n
    {
      FreeIndexExists(indexes, n);
      var index :| 0 <= index < n && index !in indexes;
      indexes := indexes + {index};
      counter := counter + 1;
    }
  }

  /** An enumeration of a set of cells, each exactly once, in an order
      left open (`:|` picks the next element). */
  method Enumerate(s: set<int>) returns (order: seq<int>)
    ensures Lists(order, s)
  {
    var pending := s;
    order := [];
    while pending != {}
      invariant pending <= s
      invariant forall x :: x in order <==> x in s && x !in pending
      invariant forall a, b :: 0 <= a < b < |order| ==> order[a] != order[b]
      decreases |pending|
    {
      MemberOrEmpty(pending);
      var i :| i in pending;
      order := order + [i];
      pending := pending - {i};
    }
  }

  /** A set without members is empty. */
  lemma MemberOrEmpty(s: set<int>)
    ensures s == {} || exists x :: x in s
  {
    if forall x :: x !in s {
      assert s == {};
    }
  }

  lemma SubsetCard(a: set<int>, b: set<int>)
    requires a <= b
    ensures |a| <= |b|
  {
    assert b == a + (b - a);
  }

  class CellArea {
    /** `NumberOfCell_X == NumberOfCell_Y`. */
    const W: nat
    /** `Positions`: the centre of every cell, as the GPU kernel laid them out. */
    const positions: seq<Vec2>
    /** `m_Types`. */
    const types: array<CellType>
    /** `m_MedecineCells`: the medicine map of the previous tick. */
    var medecineCells: map<int, MedRecord>
    /** `m_InputBuffer`: cells waiting for an injection. */
    var inputBuffer: set<int>
    /** `m_Neighbors`: the neighbour lists of the first partition. */
    var neighbors: seq<seq<int>>
    var numberOfCancerCells: nat
    var numberOfHealthyCells: nat
    var numberOfMedecineCells: nat
    /** `m_CurrentTime`: time accumulated towards the next tick. */
    var currentTime: real

    ghost predicate Valid()
      reads this, types
    {
      ValidWidth(W) && |positions| == NumberOfCell(W) && types.Length == NumberOfCell(W) &&
      neighbors == NeighborTable(W) && NoNone(types[..]) && RecordsOk(W, medecineCells) &&
      (forall i :: i in inputBuffer ==> 0 <= i < NumberOfCell(W))
    }

    /** The constructor, after the GPU has computed `positions`: seeds
        `SeedCount` distinct cancer cells at random (`:|` stands for the
        redraw-until-fresh loop), makes every other cell healthy and builds
        the neighbour table of the first partition. */
    constructor (w: nat, positions: seq<Vec2>, percentage: real)
      requires ValidWidth(w) && |positions| == NumberOfCell(w) && 0.0 <= percentage <= 1.0
      ensures Valid() && fresh(types)
      ensures W == w && this.positions == positions
      ensures numberOfCancerCells == SeedCount(w, percentage)
      ensures numberOfHealthyCells == NumberOfCell(w) - SeedCount(w, percentage)
      ensures numberOfMedecineCells == 0 && medecineCells == map[] && inputBuffer == {} && currentTime == 0.0
      ensures forall i :: 0 <= i < types.Length ==> types[i] == CANCER || types[i] == HEALTHY
      ensures |set i | 0 <= i < types.Length && types[i] == CANCER| == SeedCount(w, percentage)
    {
      PartitionGeometry(w);
      var n := NumberOfCell(w);
      var seeds := SeedCount(w, percentage);
      var indexes := DrawSeeds(n, seeds);
      W := w;
      this.positions := positions;
      types := new CellType[n](_ => HEALTHY);
      medecineCells := map[];
      inputBuffer := {};
      neighbors := seq(CellsPerPartition(w), _ => []);
      numberOfCancerCells := seeds;
      numberOfHealthyCells := 0;
      numberOfMedecineCells := 0;
      currentTime := 0.0;
      new;
      InitCells(indexes);
      assert (set k | 0 <= k < types.Length && types[k] == CANCER) == indexes;
    }

    /** The constructor's cell loop: the first partition's neighbour lists
        are built and every cell is seeded CANCER when drawn, HEALTHY (and
        counted) otherwise. */
    method InitCells(indexes: set<int>)
      requires ValidWidth(W) && types.Length == NumberOfCell(W)
      requires neighbors == seq(CellsPerPartition(W), _ => []) && numberOfHealthyCells == 0
      requires forall k :: k in indexes ==> 0 <= k < NumberOfCell(W)
      modifies this`neighbors, this`numberOfHealthyCells, types
      ensures neighbors == NeighborTable(W)
      ensures forall k :: 0 <= k < types.Length ==> types[k] == if k in indexes then CANCER else HEALTHY
      ensures numberOfHealthyCells == NumberOfCell(W) - |indexes|
    {
      PartitionGeometry(W);
      var n := NumberOfCell(W);
      ghost var seen: set<int> := {};
      assert forall k :: 0 <= k < CellsPerPartition(W) ==> neighbors[k] == [];
      var i := 0;
      while i < n
        invariant 0 <= i <= n && ListedUpTo(i) && SeededUpTo(i, indexes, seen)
      {
        ListNext(i);
        seen := SeedNext(i, indexes, seen);
        i := i + 1;
      }
      assert neighbors == NeighborTable(W);
      assert forall k :: k in seen <==> k in indexes;
      assert seen == indexes;
    }

    /** The neighbour lists after the constructor's loop visited cells
        0..i-1: built for the visited cells of the first partition, still
        empty for the others. */
    ghost predicate ListedUpTo(i: int)
      reads this`neighbors
    {
      ValidWidth(W) && |neighbors| == CellsPerPartition(W) &&
      forall k :: 0 <= k < CellsPerPartition(W) ==> neighbors[k] == if k < i then NeighborsOf(W, k) else []
    }

    /** The cells after the constructor's loop visited cells 0..i-1: each
        visited cell is CANCER when drawn and HEALTHY otherwise, and the
        healthy ones among them are counted; `seen` holds the drawn ones. */
    ghost predicate SeededUpTo(i: int, indexes: set<int>, seen: set<int>)
      reads this`numberOfHealthyCells, types
    {
      0 <= i <= types.Length &&
      (forall k :: 0 <= k < i ==> types[k] == if k in indexes then CANCER else HEALTHY) &&
      (forall k :: k in seen <==> k in indexes && 0 <= k < i) && numberOfHealthyCells + |seen| == i
    }

    /** The neighbour half of one turn of the constructor's loop: a cell of
        the first partition gets its list. */
    method ListNext(i: int)
      requires ListedUpTo(i) && 0 <= i
      modifies this`neighbors
      ensures ListedUpTo(i + 1)
      ensures neighbors == if i < CellsPerPartition(W) then old(neighbors)[i := NeighborsOf(W, i)] else old(neighbors)
    {
      if i < CellsPerPartition(W) {
        SetNeighbor(i);
        assert old(neighbors)[i] == [];
      }
    }

    /** The seeding half of one turn of the constructor's loop: the cell is
        CANCER when drawn, else HEALTHY and counted. */
    method SeedNext(i: int, indexes: set<int>, ghost seen: set<int>) returns (ghost seen': set<int>)
      requires SeededUpTo(i, indexes, seen) && i < types.Length
      modifies this`numberOfHealthyCells, types
      ensures SeededUpTo(i + 1, indexes, seen')
      ensures types[..] == old(types[..])[i := if i in indexes then CANCER else HEALTHY]
    {
      assert i !in seen;
      if i in indexes {
        types[i] := CANCER;
        seen' := seen + {i};
      } else {
        types[i] := HEALTHY;
        numberOfHealthyCells := numberOfHealthyCells + 1;
        seen' := seen;
      }
    }

    /** `setNeighbor`: append to the list of `index` every offset whose
        decoded step lands exactly on the target and whose target lies in
        the first partition. */
    method SetNeighbor(index: int)
      requires ValidWidth(W) && 0 <= index < |neighbors|
      modifies this`neighbors
      ensures neighbors == old(neighbors)[index := old(neighbors)[index] + NeighborsOf(W, index)]
    {
      var offs := NeighborOffsets(W);
      assert offs[..0] == [] && old(neighbors)[index] + [] == old(neighbors)[index];
      var i := 0;
      while i < |offs|
        invariant 0 <= i <= |offs|
        invariant neighbors == old(neighbors)[index := old(neighbors)[index] + Kept(W, index, offs[..i])]
      {
        var x1 := CMod(index, W);
        var y1 := CDiv(index, W);
        var partitionIndex := offs[i] + index;
        var x2 := CMod(partitionIndex, W);
        var y2 := CDiv(partitionIndex, W);
        var (xOffset, yOffset) := DecodeOffset(W, offs[i]);
        ghost var kept := Kept(W, index, offs[..i]);
        assert Kept(W, index, offs[..i + 1]) ==
          kept + (if NeighborTest(W, index, offs[i]) then [index + offs[i]] else []) by {
          assert offs[..i + 1][..i] == offs[..i];
        }
        if x1 + xOffset == x2 && y1 + yOffset == y2 && partitionIndex >= 0 && partitionIndex < CellsPerPartition(W) {
          assert NeighborTest(W, index, offs[i]);
          assert old(neighbors)[index] + kept + [partitionIndex] == old(neighbors)[index] + (kept + [partitionIndex]);
          neighbors := neighbors[index := neighbors[index] + [partitionIndex]];
        } else {
          assert !NeighborTest(W, index, offs[i]);
          assert kept + [] == kept;
        }
        i := i + 1;
      }
      assert offs[..i] == offs;
    }

    /** `injectMedecine`: queue the cell under `position` for injection. */
    method InjectMedecine(position: Vec2)
      requires Valid()
      modifies this`inputBuffer
      ensures Valid()
      ensures inputBuffer == old(inputBuffer) + {CellIndexOf(positions, W, position)}
    {
      var index := GetIndex(positions, W, position);
      inputBuffer := inputBuffer + {index};
    }

    /** The injection block of `onUpdate`: every queued cell, in an order
        the hash set chooses (returned as `order`), sends medicine to the
        first entries of its neighbour list. */
    method InjectPending(draw: int -> int) returns (order: seq<int>)
      requires Valid()
      modifies this`medecineCells, types
      ensures Valid()
      ensures Lists(order, inputBuffer)
      ensures (forall m :: 0 <= m < |order| ==> 0 <= order[m] < NumberOfCell(W)) &&
        Field(types[..], medecineCells) == InjectAll(W, old(Field(types[..], medecineCells)), order, draw)
    {
      ghost var start := Field(types[..], medecineCells);
      order := InjectBuffer(draw);
      InjectAllKeeps(W, start, order, draw);
      assert FieldOk(W, Field(types[..], medecineCells));
    }

    /** The loop over `m_InputBuffer`, in the order the set enumerates it. */
    method InjectBuffer(draw: int -> int) returns (order: seq<int>)
      requires ValidWidth(W) && types.Length == NumberOfCell(W) && neighbors == NeighborTable(W)
      requires forall i :: i in inputBuffer ==> 0 <= i < NumberOfCell(W)
      modifies this`medecineCells, types
      ensures Lists(order, inputBuffer)
      ensures (forall m :: 0 <= m < |order| ==> 0 <= order[m] < NumberOfCell(W)) &&
        Field(types[..], medecineCells) == InjectAll(W, old(Field(types[..], medecineCells)), order, draw)
    {
      ghost var start := Field(types[..], medecineCells);
      order := Enumerate(inputBuffer);
      assert forall m :: 0 <= m < |order| ==> 0 <= order[m] < NumberOfCell(W) by {
        forall m | 0 <= m < |order| ensures 0 <= order[m] < NumberOfCell(W) {
          assert order[m] in order;
        }
      }
      var k := 0;
      while k < |order|
        invariant 0 <= k <= |order| && types.Length == NumberOfCell(W) && |start.types| == NumberOfCell(W)
        invariant Field(types[..], medecineCells) == InjectAll(W, start, order[..k], draw)
      {
        InjectNext(start, order, k, draw);
        k := k + 1;
      }
      assert order[..k] == order;
    }

    /** The loop body over `m_InputBuffer`: injection at one more cell. */
    method InjectNext(ghost start: Field, order: seq<int>, k: int, draw: int -> int)
      requires ValidWidth(W) && types.Length == NumberOfCell(W) && neighbors == NeighborTable(W)
      requires |start.types| == NumberOfCell(W) && 0 <= k < |order|
      requires forall m :: 0 <= m < |order| ==> 0 <= order[m] < NumberOfCell(W)
      requires Field(types[..], medecineCells) == InjectAll(W, start, order[..k], draw)
      modifies this`medecineCells, types
      ensures Field(types[..], medecineCells) == InjectAll(W, start, order[..k + 1], draw)
    {
      InjectAt(order[k], draw(order[k]));
      InjectAllStep(W, start, order, k, draw);
    }

    /** One cell of the injection block: the loop over its neighbour list
        stops once its counter reaches the drawn number. The target is the
        neighbour shifted into the partition of `i`. */
    method InjectAt(i: int, numberOfCells: int)
      requires ValidWidth(W) && types.Length == NumberOfCell(W) && neighbors == NeighborTable(W)
      requires 0 <= i < NumberOfCell(W)
      modifies this`medecineCells, types
      ensures Field(types[..], medecineCells) ==
        InjectTargets(old(Field(types[..], medecineCells)), i, Targets(W, i, numberOfCells))
    {
      ghost var before := Field(types[..], medecineCells);
      ghost var ts := Targets(W, i, numberOfCells);
      var list := neighbors[LocalIndex(W, i)];
      var counter := 0;
      var p := 0;
      while p < |list|
        invariant 0 <= p <= |list| && counter == p && types.Length == NumberOfCell(W)
        invariant p <= FanOutCount(numberOfCells, |list|)
        invariant Field(types[..], medecineCells) == InjectTargets(before, i, ts[..p])
      {
        counter := counter + 1;
        if counter >= numberOfCells {
          break;
        }
        var j := list[p];
        var index := Target(W, i, j);
        assert ts[..p + 1][..p] == ts[..p] && ts[p] == index;
        InjectTarget(i, index);
        p := p + 1;
      }
      assert ts[..p] == ts;
    }

    /** One turn of the inner injection loop: a cell not yet in the map
        records what it held and its offset from `i`, and turns MEDECINE. */
    method InjectTarget(i: int, index: int)
      requires 0 <= index < types.Length
      modifies this`medecineCells, types
      ensures Field(types[..], medecineCells) == InjectOne(old(Field(types[..], medecineCells)), i, index)
    {
      if index !in medecineCells {
        medecineCells := medecineCells[index := MedRecord(types[index], index - i)];
        types[index] := MEDECINE;
      }
    }

    /** The rule loop of `updateCellsInPartition`; returns the consumed
        medicine (`updatedMedecine`). */
    method ApplyRules(snap: seq<CellType>, min: int) returns (updated: set<int>)
      requires ValidWidth(W) && types.Length == NumberOfCell(W) && neighbors == NeighborTable(W)
      requires |snap| == CellsPerPartition(W) && 0 <= min && min + |snap| <= types.Length
      modifies types
      ensures TableInPartition(neighbors) && types[..] == RulesUpTo(old(types[..]), snap, neighbors, min, |snap|)
      ensures TableInPartition(neighbors) && updated == ConsumedUpTo(snap, neighbors, min, |snap|)
    {
      NeighborTableShape(W);
      ghost var cur := types[..];
      updated := {};
      var i := 0;
      while i < |snap|
        invariant 0 <= i <= |snap|
        invariant types[..] == RulesUpTo(cur, snap, neighbors, min, i)
        invariant updated == ConsumedUpTo(snap, neighbors, min, i)
      {
        var consumed := ApplyRuleAt(snap, min, i);
        updated := updated + consumed;
        i := i + 1;
      }
    }

    /** One iteration of the rule loop, for local cell `i`: a CANCER cell
        with enough MEDECINE neighbours is cured together with those
        neighbours (returned as consumed), a HEALTHY cell with enough CANCER
        neighbours turns CANCER. */
    method ApplyRuleAt(snap: seq<CellType>, min: int, i: int) returns (consumed: set<int>)
      requires |neighbors| == |snap| && TableInPartition(neighbors)
      requires 0 <= min && min + |snap| <= types.Length && 0 <= i < |snap|
      modifies types
      ensures Frame(old(types[..]), snap, neighbors, min)
      ensures types[..] == RuleAt(old(types[..]), snap, neighbors, min, i)
      ensures consumed == ConsumedAt(snap, neighbors, min, i)
    {
      consumed := {};
      match snap[i] {
      case CANCER => {
        var meds := CollectMedecine(snap, neighbors[i], min);
        if |meds| >= Threshold {
          assert forall j :: 0 <= j < |meds| ==> 0 <= meds[j] < types.Length by {
            forall j | 0 <= j < |meds| ensures 0 <= meds[j] < types.Length {
              assert meds[j] in meds;
            }
          }
          Heal(i + min, meds);
          consumed := set g | g in meds;
        }
      }
      case HEALTHY => {
        var cancerCount := CountCancer(snap, neighbors[i]);
        if cancerCount >= Threshold {
          types[i + min] := CANCER;
        }
      }
      case _ =>
      }
    }

    /** The cure branch: the cancer cell and the listed medicine cells
        become healthy. */
    method Heal(cell: int, meds: seq<int>)
      requires 0 <= cell < types.Length && forall j :: 0 <= j < |meds| ==> 0 <= meds[j] < types.Length
      modifies types
      ensures types[..] == HealAll(old(types[..])[cell := HEALTHY], meds)
    {
      types[cell] := HEALTHY;
      ghost var start := types[..];
      var j := 0;
      while j < |meds|
        invariant 0 <= j <= |meds|
        invariant types[..] == HealAll(start, meds[..j])
      {
        types[meds[j]] := HEALTHY;
        j := j + 1;
      }
      assert meds[..j] == meds;
    }

    /** `moveMedecineCells` on the live types, with the partition's map and
        updated set passed in and handed back. The record lookup reads the
        previous tick's map, which holds at most one record per cell. */
    method MoveMedecineCells(cellIndex: int, medMap: map<int, MedRecord>, updated: set<int>)
      returns (medMap': map<int, MedRecord>, updated': set<int>)
      requires ValidWidth(W) && types.Length == NumberOfCell(W) && 0 <= cellIndex < types.Length
      modifies types
      ensures var r := MoveMedecine(W, medecineCells, Sweep(old(types[..]), medMap, updated, ZeroStats), cellIndex);
        types[..] == r.types && medMap' == r.medMap && updated' == r.updated
    {
      medMap', updated' := medMap, updated;
      if cellIndex !in updated && cellIndex in medecineCells {
        var rec := medecineCells[cellIndex];
        if rec.previousType != MEDECINE {
          types[cellIndex] := rec.previousType;
        }
        var index := cellIndex + rec.offset;
        var (xOffset, yOffset) := DecodeOffset(W, rec.offset);
        var x := CMod(cellIndex, W);
        var y := CDiv(cellIndex, W);
        if 0 <= x + xOffset < W && 0 <= y + yOffset < W && 0 <= index < types.Length {
          updated' := updated' + {cellIndex};
          if index !in medMap' {
            medMap' := medMap'[index := MedRecord(types[index], rec.offset)];
          }
          types[index] := MEDECINE;
        }
      }
    }

    /** `updateCellsInPartition` for the partition starting at `min`. */
    method UpdateCellsInPartition(snap: seq<CellType>, min: int) returns (stats: PartitionStats, medMap: map<int, MedRecord>)
      requires ValidWidth(W) && types.Length == NumberOfCell(W) && neighbors == NeighborTable(W)
      requires |snap| == CellsPerPartition(W) && 0 <= min && min + CellsPerPartition(W) <= NumberOfCell(W)
      modifies types
      ensures var r := UpdatePartition(W, medecineCells, old(types[..]), snap, min);
        types[..] == r.types && stats == r.stats && medMap == r.medMap
    {
      NeighborTableShape(W);
      var updated := ApplyRules(snap, min);
      ghost var s0 := Sweep(types[..], map[], updated, ZeroStats);
      stats := ZeroStats;
      medMap := map[];
      var i := 0;
      while i < |snap|
        invariant 0 <= i <= |snap|
        invariant Sweep(types[..], medMap, updated, stats) == SweepUpTo(W, medecineCells, s0, min, i)
      {
        medMap, updated, stats := CountCell(i + min, medMap, updated, stats);
        i := i + 1;
      }
    }

    /** One iteration of the counting loop: count the cell by its live type
        and move it if it is MEDECINE. */
    method CountCell(cell: int, medMap: map<int, MedRecord>, updated: set<int>, stats: PartitionStats)
      returns (medMap': map<int, MedRecord>, updated': set<int>, stats': PartitionStats)
      requires ValidWidth(W) && types.Length == NumberOfCell(W) && 0 <= cell < types.Length
      modifies types
      ensures Sweep(types[..], medMap', updated', stats') ==
        Visit(W, medecineCells, Sweep(old(types[..]), medMap, updated, stats), cell)
    {
      ghost var s := Sweep(types[..], medMap, updated, stats);
      medMap', updated', stats' := medMap, updated, stats;
      match types[cell] {
      case CANCER =>
        stats' := stats.(cancer := stats.cancer + 1);
      case HEALTHY =>
        stats' := stats.(healthy := stats.healthy + 1);
      case MEDECINE =>
        medMap', updated' := MoveMedecineCells(cell, medMap, updated);
        MoveIgnoresStats(W, medecineCells, s, cell);
        stats' := stats.(medecine := stats.medecine + 1);
      case NONE =>
      }
    }

    /** The thread block and the merge of `onUpdate`: copy every partition,
        update the partitions, then rebuild the medicine map (first
        partition wins on a shared key) and add up the counters. */
    method RunPartitions()
      requires Valid()
      modifies this`medecineCells, this`numberOfCancerCells, this`numberOfHealthyCells, this`numberOfMedecineCells, types
      ensures var r := TickFrom(W, old(medecineCells), old(types[..]));
        && types[..] == r.types && medecineCells == Merge(r.maps)
        && numberOfCancerCells == old(numberOfCancerCells) + SumStats(r.stats).cancer
        && numberOfHealthyCells == old(numberOfHealthyCells) + SumStats(r.stats).healthy
        && numberOfMedecineCells == old(numberOfMedecineCells) + SumStats(r.stats).medecine
    {
      var partitions := TakeSnapshots();
      var maps, stats := RunThreads(partitions);
      MergeResults(maps, stats);
    }

    /** `partitions[i]`: copies of the four partitions, all taken before
        any partition is updated. */
    method TakeSnapshots() returns (partitions: seq<seq<CellType>>)
      requires ValidWidth(W) && types.Length == NumberOfCell(W)
      ensures partitions == Snapshots(W, types[..])
    {
      var size := CellsPerPartition(W);
      partitions := [];
      var p := 0;
      while p < NumberOfThreads
        invariant 0 <= p <= NumberOfThreads
        invariant partitions == Snapshots(W, types[..])[..p]
      {
        PartitionBounds(W, p);
        partitions := partitions + [types[p * size..(p + 1) * size]];
        p := p + 1;
      }
    }

    /** The four partition updates, one after another; partition `p` reads
        its own copy and writes the live types. */
    method RunThreads(partitions: seq<seq<CellType>>) returns (maps: seq<map<int, MedRecord>>, stats: seq<PartitionStats>)
      requires ValidWidth(W) && types.Length == NumberOfCell(W) && neighbors == NeighborTable(W)
      requires SnapshotsShape(W, partitions)
      modifies types
      ensures Run(types[..], maps, stats) == RunUpTo(W, medecineCells, old(types[..]), partitions, NumberOfThreads)
    {
      ghost var cur := types[..];
      maps, stats := [], [];
      var p := 0;
      while p < NumberOfThreads
        invariant 0 <= p <= NumberOfThreads
        invariant |maps| == p && |stats| == p && types.Length == NumberOfCell(W)
        invariant Run(types[..], maps, stats) == RunUpTo(W, medecineCells, cur, partitions, p)
      {
        maps, stats := RunThread(cur, partitions, p, maps, stats);
        p := p + 1;
      }
    }

    /** Thread `p`: update partition `p` and collect its map and counters. */
    method RunThread(ghost cur: seq<CellType>, partitions: seq<seq<CellType>>, p: int,
                     maps: seq<map<int, MedRecord>>, stats: seq<PartitionStats>)
      returns (maps': seq<map<int, MedRecord>>, stats': seq<PartitionStats>)
      requires ValidWidth(W) && types.Length == NumberOfCell(W) && neighbors == NeighborTable(W)
      requires |cur| == NumberOfCell(W) && SnapshotsShape(W, partitions) && 0 <= p < NumberOfThreads
      requires Run(types[..], maps, stats) == RunUpTo(W, medecineCells, cur, partitions, p)
      modifies types
      ensures Run(types[..], maps', stats') == RunUpTo(W, medecineCells, cur, partitions, p + 1)
    {
      PartitionBounds(W, p);
      var st, mm := UpdateCellsInPartition(partitions[p], p * CellsPerPartition(W));
      maps' := maps + [mm];
      stats' := stats + [st];
    }

    /** The merge: `m_MedecineCells` becomes the partitions' maps inserted
        in partition order, and the counters gain the partitions' counts. */
    method MergeResults(maps: seq<map<int, MedRecord>>, stats: seq<PartitionStats>)
      requires |maps| == NumberOfThreads && |stats| == NumberOfThreads
      modifies this`medecineCells, this`numberOfCancerCells, this`numberOfHealthyCells, this`numberOfMedecineCells
      ensures medecineCells == Merge(maps)
      ensures numberOfCancerCells == old(numberOfCancerCells) + SumStats(stats).cancer
      ensures numberOfHealthyCells == old(numberOfHealthyCells) + SumStats(stats).healthy
      ensures numberOfMedecineCells == old(numberOfMedecineCells) + SumStats(stats).medecine
    {
      var merged: map<int, MedRecord> := map[];
      var sum := ZeroStats;
      var p := 0;
      while p < NumberOfThreads
        invariant 0 <= p <= NumberOfThreads
        invariant merged == Merge(maps[..p]) && sum == SumStats(stats[..p])
        modifies {}
      {
        MergeStep(maps, p);
        SumStatsStep(stats, p);
        merged := maps[p] + merged;
        sum := sum.Plus(stats[p]);
        p := p + 1;
      }
      assert maps[..p] == maps && stats[..p] == stats;
      medecineCells := merged;
      numberOfCancerCells := numberOfCancerCells + sum.cancer;
      numberOfHealthyCells := numberOfHealthyCells + sum.healthy;
      numberOfMedecineCells := numberOfMedecineCells + sum.medecine;
    }

    /** `onUpdate`: accumulate the frame time; once a thirtieth of a second
        has gathered, take it off, reset the counters, inject the queued
        medicine (in the order returned) and run a tick. After a tick the
        three counters add up to the number of cells. */
    method OnUpdate(ts: real, draw: int -> int) returns (order: seq<int>)
      requires Valid()
      modifies this, types
      ensures Valid()
      ensures neighbors == old(neighbors)
      ensures old(currentTime) + ts < UpdateTime ==>
        currentTime == old(currentTime) + ts && types[..] == old(types[..]) &&
        medecineCells == old(medecineCells) && inputBuffer == old(inputBuffer) && order == [] &&
        numberOfCancerCells == old(numberOfCancerCells) && numberOfHealthyCells == old(numberOfHealthyCells) &&
        numberOfMedecineCells == old(numberOfMedecineCells)
      ensures old(currentTime) + ts >= UpdateTime ==>
        (forall m :: 0 <= m < |order| ==> 0 <= order[m] < NumberOfCell(W)) &&
        var f := InjectAll(W, Field(old(types[..]), old(medecineCells)), order, draw);
        var r := TickFrom(W, f.records, f.types);
        && currentTime == old(currentTime) + ts - UpdateTime
        && inputBuffer == {} && Lists(order, old(inputBuffer))
        && types[..] == r.types && medecineCells == Merge(r.maps)
        && numberOfCancerCells == SumStats(r.stats).cancer
        && numberOfHealthyCells == SumStats(r.stats).healthy
        && numberOfMedecineCells == SumStats(r.stats).medecine
        && numberOfCancerCells + numberOfHealthyCells + numberOfMedecineCells == NumberOfCell(W)
    {
      order := [];
      currentTime := currentTime + ts;
      if currentTime >= UpdateTime {
        currentTime := currentTime - UpdateTime;
        order := Tick(draw);
      }
    }

    /** The tick itself: reset the counters, inject the queued medicine (in
        the order returned), clear the queue and update the partitions. */
    method Tick(draw: int -> int) returns (order: seq<int>)
      requires Valid()
      modifies this`medecineCells, this`inputBuffer, this`numberOfCancerCells, this`numberOfHealthyCells, this`numberOfMedecineCells, types
      ensures Valid()
      ensures inputBuffer == {} && Lists(order, old(inputBuffer))
      ensures (forall m :: 0 <= m < |order| ==> 0 <= order[m] < NumberOfCell(W)) &&
        var f := InjectAll(W, Field(old(types[..]), old(medecineCells)), order, draw);
        var r := TickFrom(W, f.records, f.types);
        && types[..] == r.types && medecineCells == Merge(r.maps)
        && numberOfCancerCells == SumStats(r.stats).cancer
        && numberOfHealthyCells == SumStats(r.stats).healthy
        && numberOfMedecineCells == SumStats(r.stats).medecine
      ensures numberOfCancerCells + numberOfHealthyCells + numberOfMedecineCells == NumberOfCell(W)
    {
      numberOfCancerCells := 0;
      numberOfHealthyCells := 0;
      numberOfMedecineCells := 0;
      order := [];
      if inputBuffer != {} {
        order := InjectPending(draw);
        inputBuffer := {};
      }
      ghost var f := Field(types[..], medecineCells);
      TickCounts(W, f.records, f.types);
      RunPartitions();
    }
  }
}
