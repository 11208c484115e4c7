/**
 * The injection step at the start of a tick (`CellArea::onUpdate`): every
 * cell waiting in the input buffer sends medicine to a random number of the
 * first entries of its neighbour list. The neighbour table only covers the
 * first partition, so a neighbour's local index is shifted into the
 * partition of the injected cell before it is used.
 */
module Injection {
  import opened Cells
  import opened Grid
  import opened Diffusion

  /** The shifted neighbour as the source computes it: the partition base
      is taken from `i + 1` instead of `i`. */
  function TargetAsWritten(w: nat, i: nat, j: int): int
    requires ValidWidth(w)
  {
    PartitionGeometry(w);
    j + ((i + 1) / CellsPerPartition(w)) * CellsPerPartition(w)
  }

  /** The shifted neighbour as intended: local neighbour `j` moved into the
      partition that holds `i`. */
  function Target(w: nat, i: nat, j: int): (t: int)
    requires ValidWidth(w)
    ensures i < NumberOfCell(w) && 0 <= j < CellsPerPartition(w) ==>
      0 <= t < NumberOfCell(w) && PartitionOf(w, t) == PartitionOf(w, i) && LocalIndex(w, t) == j
  {
    PartitionGeometry(w);
    var t := j + (i / CellsPerPartition(w)) * CellsPerPartition(w);
    if i < NumberOfCell(w) && 0 <= j < CellsPerPartition(w) then
      ShiftPartition(w, PartitionOf(w, i), j);
      t
    else t
  }

  /** The two bases agree except for the last cell of a partition. */
  lemma AsWrittenAgrees(w: nat, i: nat, j: int)
    requires ValidWidth(w)
    ensures TargetAsWritten(w, i, j) == Target(w, i, j) <==> LocalIndex(w, i) != CellsPerPartition(w) - 1
  {
    PartitionGeometry(w);
    var p := CellsPerPartition(w);
    var q, r := i / p, i % p;
    assert i + 1 == q * p + (r + 1);
    if r + 1 < p {
      DivModOf(p, q, r + 1);
    } else {
      assert i + 1 == (q + 1) * p + 0;
      DivModOf(p, q + 1, 0);
      assert (q + 1) * p == q * p + p;
    }
  }

  /** The cell before a partition boundary shows the defect: its left
      neighbour is in its neighbour list, but the source sends the medicine
      to the matching cell of the next partition instead. */
  lemma AsWrittenLeavesPartition(w: nat)
    requires ValidWidth(w)
    ensures var p := CellsPerPartition(w);
      && p >= 2
      && (p - 2) in NeighborsOf(w, LocalIndex(w, p - 1))
      && PartitionOf(w, p - 1) == 0
      && TargetAsWritten(w, p - 1, p - 2) == 2 * p - 2
      && PartitionOf(w, 2 * p - 2) == 1
  {
    PartitionGeometry(w);
    var p := CellsPerPartition(w);
    DivModOf(p, 0, p - 1);
    LeftNeighborListed(w);
    assert TargetAsWritten(w, p - 1, p - 2) == 2 * p - 2 by {
      DivModOf(p, 1, 0);
    }
    DivModOf(p, 1, p - 2);
  }

  /** For the last cell of the grid the computed cell lies past the end of
      the grid. */
  lemma AsWrittenPastEnd(w: nat)
    requires ValidWidth(w)
    ensures var p := CellsPerPartition(w);
      var n := NumberOfCell(w);
      && (p - 2) in NeighborsOf(w, LocalIndex(w, n - 1))
      && TargetAsWritten(w, n - 1, p - 2) >= n
  {
    PartitionGeometry(w);
    var p := CellsPerPartition(w);
    var n := NumberOfCell(w);
    assert n - 1 == 3 * p + (p - 1);
    DivModOf(p, 3, p - 1);
    DivModOf(p, 4, 0);
    LeftNeighborListed(w);
  }

  /** The last cell of the first partition lists its left neighbour. */
  lemma LeftNeighborListed(w: nat)
    requires ValidWidth(w)
    ensures CellsPerPartition(w) >= 2 && (CellsPerPartition(w) - 2) in NeighborsOf(w, CellsPerPartition(w) - 1)
  {
    PartitionGeometry(w);
    var p := CellsPerPartition(w);
    var rows := RowsPerPartition(w);
    Distribute(rows - 1, 1, w);
    assert p - 1 == (rows - 1) * w + (w - 1);
    DivModOf(w, rows - 1, w - 1);
    DivModOf(w, rows - 1, w - 2);
    assert Adjacent(w, p - 1, p - 2);
    NeighborsOfExactly(w, p - 1);
  }

  /** A cell of the grid that medicine injected at `i` may land on: a
      Moore neighbour in the same partition, reached by an entry of the
      offset table. */
  predicate Reachable(w: nat, i: nat, g: int)
    requires ValidWidth(w)
  {
    0 <= g < NumberOfCell(w) && Adjacent(w, i, g) &&
    PartitionOf(w, g) == PartitionOf(w, i) && g - i in NeighborOffsets(w)
  }

  /** With the intended base, every neighbour-list entry of the local
      index of `i` leads to a neighbour of `i` in its own partition. */
  lemma TargetIsNeighbor(w: nat, i: nat, j: int)
    requires ValidWidth(w) && i < NumberOfCell(w)
    requires j in NeighborsOf(w, LocalIndex(w, i))
    ensures Reachable(w, i, Target(w, i, j))
  {
    var q, r := PartitionOf(w, i), LocalIndex(w, i);
    var p := CellsPerPartition(w);
    NeighborsOfExactly(w, r);
    var t := Target(w, i, j);
    assert t == j + q * p;
    ShiftPartition(w, q, j);
    ShiftAdjacent(w, q, r, j);
    var k := AdjacentStep(w, i, t);
    assert t - i == NeighborOffsets(w)[k];
  }

  /** Moving a first-partition cell by whole partitions. */
  lemma ShiftPartition(w: nat, q: nat, j: int)
    requires ValidWidth(w) && q < NumberOfThreads && 0 <= j < CellsPerPartition(w)
    ensures j + q * CellsPerPartition(w) < NumberOfCell(w)
    ensures PartitionOf(w, j + q * CellsPerPartition(w)) == q
    ensures LocalIndex(w, j + q * CellsPerPartition(w)) == j
  {
    PartitionGeometry(w);
    var p := CellsPerPartition(w);
    DivModOf(p, q, j);
    assert q * p <= 3 * p by {
      assert 3 * p - q * p == (3 - q) * p;
    }
  }

  lemma ShiftAdjacent(w: nat, q: nat, r: int, j: int)
    requires ValidWidth(w) && 0 <= r && 0 <= j && Adjacent(w, r, j)
    ensures Adjacent(w, r + q * CellsPerPartition(w), j + q * CellsPerPartition(w))
  {
    PartitionGeometry(w);
    var rows := RowsPerPartition(w);
    assert q * CellsPerPartition(w) == (q * rows) * w;
    AdjacentShift(w, r, j, q * rows);
  }

  /** How many neighbours receive medicine when `n` was drawn: the loop
      stops as soon as its counter, raised before the test, reaches `n`. */
  function FanOutCount(n: int, len: nat): (c: nat)
    ensures c <= len
    ensures c < len ==> c == if n <= 1 then 0 else n - 1
    ensures n <= 1 ==> c == 0
    ensures n >= 2 ==> c <= n - 1
  {
    if n <= 1 then 0 else if n - 1 < len then n - 1 else len
  }

  /** The cells that medicine injected at `i` goes to, in list order. */
  function Targets(w: nat, i: nat, n: int): (ts: seq<int>)
    requires ValidWidth(w) && i < NumberOfCell(w)
    ensures |ts| <= 8
    ensures |ts| == FanOutCount(n, |NeighborsOf(w, LocalIndex(w, i))|)
    ensures n <= 1 ==> ts == []
    ensures n >= 1 ==> |ts| < n
    ensures forall k :: 0 <= k < |ts| ==> 0 <= ts[k] < NumberOfCell(w)
    ensures forall k :: 0 <= k < |ts| ==> LocalIndex(w, ts[k]) == NeighborsOf(w, LocalIndex(w, i))[k]
    ensures forall a, b :: 0 <= a < b < |ts| ==> ts[a] != ts[b]
  {
    var nbrs := NeighborsOf(w, LocalIndex(w, i));
    NeighborsOfShape(w, LocalIndex(w, i));
    NeighborsOfExactly(w, LocalIndex(w, i));
    var c := FanOutCount(n, |nbrs|);
    var ts := seq(c, k requires 0 <= k < c => Target(w, i, nbrs[k]));
    assert forall k :: 0 <= k < c ==> nbrs[k] in nbrs && ts[k] == Target(w, i, nbrs[k]);
    ts
  }

  /** Every target is a neighbour of the injected cell in its partition. */
  lemma TargetsReachable(w: nat, i: nat, n: int)
    requires ValidWidth(w) && i < NumberOfCell(w)
    ensures forall k :: 0 <= k < |Targets(w, i, n)| ==> Reachable(w, i, Targets(w, i, n)[k])
  {
    var nbrs := NeighborsOf(w, LocalIndex(w, i));
    forall k | 0 <= k < |Targets(w, i, n)|
      ensures Reachable(w, i, Targets(w, i, n)[k])
    {
      TargetIsNeighbor(w, i, nbrs[k]);
    }
  }

  /** Every listed target lies in the grid, a step of the offset table
      away from cell `i`. */
  predicate AllSteps(w: nat, i: int, ts: seq<int>) {
    forall k :: 0 <= k < |ts| ==> 0 <= ts[k] < NumberOfCell(w) && ts[k] - i in NeighborOffsets(w)
  }

  /** Every target is a step of the offset table away from the cell. */
  lemma TargetsAreSteps(w: nat, i: nat, n: int)
    requires ValidWidth(w) && i < NumberOfCell(w)
    ensures AllSteps(w, i, Targets(w, i, n))
  {
    TargetsReachable(w, i, n);
  }

  /** The cell types and the medicine map that injection updates. */
  datatype Field = Field(types: seq<CellType>, records: map<int, MedRecord>)

  predicate FieldOk(w: nat, f: Field) {
    |f.types| == NumberOfCell(w) && NoNone(f.types) && RecordsOk(w, f.records)
  }

  /** Injection at `i` into the listed cells: a cell already in the map is
      left alone; any other cell records what it held and the offset back
      from `i`, and turns MEDECINE. */
  function InjectTargets(f: Field, i: int, ts: seq<int>): (r: Field)
    requires forall k :: 0 <= k < |ts| ==> 0 <= ts[k] < |f.types|
    ensures |r.types| == |f.types|
  {
    if ts == [] then f
    else InjectOne(InjectTargets(f, i, ts[..|ts| - 1]), i, ts[|ts| - 1])
  }

  /** One turn of the inner loop: a cell already in the map is left alone;
      any other cell records what it held and the offset back from `i`,
      and turns MEDECINE. */
  function InjectOne(f: Field, i: int, index: int): (r: Field)
    requires 0 <= index < |f.types|
    ensures |r.types| == |f.types|
  {
    if index in f.records then f
    else Field(f.types[index := MEDECINE], f.records[index := MedRecord(f.types[index], index - i)])
  }

  /** A turn of the inner loop keeps the field well formed when the target
      is a step of the offset table away from the cell. */
  lemma InjectOneOk(w: nat, f: Field, i: int, index: int)
    requires ValidWidth(w) && FieldOk(w, f) && 0 <= index < |f.types| && index - i in NeighborOffsets(w)
    ensures FieldOk(w, InjectOne(f, i, index))
  {
    if index !in f.records {
      var r := InjectOne(f, i, index);
      assert RecordOk(w, r.records[index]);
      assert forall g :: 0 <= g < |r.types| ==> r.types[g] == if g == index then MEDECINE else f.types[g];
    }
  }

  /** What injection at one cell does: every target ends up in the map,
      entries already there are kept, and each new entry is a target that
      is now MEDECINE, remembers what it held and travels on in the
      direction it came from; no other cell changes. */
  lemma {:induction false} InjectTargetsFacts(f: Field, i: int, ts: seq<int>)
    requires forall k :: 0 <= k < |ts| ==> 0 <= ts[k] < |f.types|
    ensures var r := InjectTargets(f, i, ts);
      && (forall k :: 0 <= k < |ts| ==> ts[k] in r.records)
      && (forall g :: g in f.records ==> g in r.records && r.records[g] == f.records[g])
      && (forall g :: g in r.records && g !in f.records ==>
            g in ts && 0 <= g < |f.types| && r.types[g] == MEDECINE && r.records[g] == MedRecord(f.types[g], g - i))
      && (forall g :: 0 <= g < |f.types| && g !in r.records - f.records.Keys ==> r.types[g] == f.types[g])
  {
    if ts != [] {
      var init := ts[..|ts| - 1];
      InjectTargetsFacts(f, i, init);
      forall k | 0 <= k < |ts| - 1 ensures ts[k] in init {
        assert ts[k] == init[k];
      }
    }
  }

  /** Injection at one cell keeps the field well formed when every target
      is a step of the offset table away from the cell. */
  lemma {:induction false} InjectTargetsOk(w: nat, f: Field, i: nat, ts: seq<int>)
    requires ValidWidth(w) && FieldOk(w, f) && AllSteps(w, i, ts)
    ensures FieldOk(w, InjectTargets(f, i, ts))
  {
    if ts != [] {
      var init := ts[..|ts| - 1];
      InjectTargetsOk(w, f, i, init);
      InjectOneOk(w, InjectTargets(f, i, init), i, ts[|ts| - 1]);
    }
  }

  /** Injection at every pending cell, in the order the input buffer is
      visited; `draw(i)` is the number drawn for cell `i`. */
  function InjectAll(w: nat, f: Field, order: seq<int>, draw: int -> int): (r: Field)
    requires ValidWidth(w) && |f.types| == NumberOfCell(w)
    requires forall m :: 0 <= m < |order| ==> 0 <= order[m] < NumberOfCell(w)
    ensures |r.types| == |f.types|
  {
    if order == [] then f
    else
      var i := order[|order| - 1];
      InjectTargets(InjectAll(w, f, order[..|order| - 1], draw), i, Targets(w, i, draw(i)))
  }

  /** One more origin of the order taken in. */
  lemma InjectAllStep(w: nat, f: Field, order: seq<int>, k: int, draw: int -> int)
    requires ValidWidth(w) && |f.types| == NumberOfCell(w) && 0 <= k < |order|
    requires forall m :: 0 <= m < |order| ==> 0 <= order[m] < NumberOfCell(w)
    ensures InjectAll(w, f, order[..k + 1], draw) ==
      InjectTargets(InjectAll(w, f, order[..k], draw), order[k], Targets(w, order[k], draw(order[k])))
  {
    assert order[..k + 1][..k] == order[..k];
  }

  /** Injection keeps the field well formed and never overwrites a
      record, and a cell that gets no new record keeps its type. */
  lemma {:induction false} InjectAllKeeps(w: nat, f: Field, order: seq<int>, draw: int -> int)
    requires ValidWidth(w) && FieldOk(w, f)
    requires forall m :: 0 <= m < |order| ==> 0 <= order[m] < NumberOfCell(w)
    ensures var r := InjectAll(w, f, order, draw);
      && FieldOk(w, r)
      && (forall g :: g in f.records ==> g in r.records && r.records[g] == f.records[g])
      && (forall g :: 0 <= g < |f.types| && g !in r.records - f.records.Keys ==> r.types[g] == f.types[g])
  {
    if order != [] {
      var init := order[..|order| - 1];
      var i := order[|order| - 1];
      InjectAllKeeps(w, f, init, draw);
      var prev := InjectAll(w, f, init, draw);
      var ts := Targets(w, i, draw(i));
      TargetsAreSteps(w, i, draw(i));
      InjectTargetsFacts(prev, i, ts);
      InjectTargetsOk(w, prev, i, ts);
      var r := InjectTargets(prev, i, ts);
      assert InjectAll(w, f, order, draw) == r;
      forall g | 0 <= g < |f.types| && g !in r.records - f.records.Keys
        ensures r.types[g] == f.types[g]
      {
        assert g !in r.records - prev.records.Keys;
      }
    }
  }

  /** The cell that medicine recorded at `g` came from. */
  function Origin(f: Field, g: int): int
    requires g in f.records
  {
    g - f.records[g].offset
  }

  /** Every new record sits on a MEDECINE cell next to one of the pending
      cells, in that cell's partition, and travels away from it. */
  lemma {:induction false} InjectAllOrigins(w: nat, f: Field, order: seq<int>, draw: int -> int)
    requires ValidWidth(w) && |f.types| == NumberOfCell(w)
    requires forall m :: 0 <= m < |order| ==> 0 <= order[m] < NumberOfCell(w)
    ensures var r := InjectAll(w, f, order, draw);
      forall g :: g in r.records && g !in f.records ==>
        0 <= g < |r.types| && r.types[g] == MEDECINE && Origin(r, g) in order &&
        0 <= Origin(r, g) && Reachable(w, Origin(r, g), g)
  {
    if order != [] {
      var init := order[..|order| - 1];
      var i := order[|order| - 1];
      assert order == init + [i];
      InjectAllOrigins(w, f, init, draw);
      var prev := InjectAll(w, f, init, draw);
      var ts := Targets(w, i, draw(i));
      InjectTargetsFacts(prev, i, ts);
      var r := InjectTargets(prev, i, ts);
      forall g | g in r.records && g !in f.records
        ensures 0 <= g < |r.types| && r.types[g] == MEDECINE && Origin(r, g) in order &&
          0 <= Origin(r, g) && Reachable(w, Origin(r, g), g)
      {
        if g in prev.records {
          assert r.records[g] == prev.records[g];
          assert g !in r.records - prev.records.Keys;
          assert r.types[g] == prev.types[g];
          var o := Origin(prev, g);
          assert o in init && Reachable(w, o, g);
          assert Origin(r, g) == o;
          assert o in order;
        } else {
          assert Origin(r, g) == i;
          assert Reachable(w, i, g) by {
            TargetsReachable(w, i, draw(i));
            var k :| 0 <= k < |ts| && ts[k] == g;
          }
        }
      }
    }
  }
}
