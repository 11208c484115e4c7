/**
 * The transition rule of `CellArea::updateCellsInPartition` (its first
 * loop): every decision is read from the partition's snapshot `partition[]`
 * taken before any partition ran, while the writes go to the live cell
 * types. A HEALTHY cell with at least six CANCER neighbours turns CANCER; a
 * CANCER cell with at least six MEDECINE neighbours turns HEALTHY together
 * with those neighbours, which are remembered as already updated.
 *
 * Indices: `k` is a local index of the partition (an index into the
 * snapshot and the neighbour table), `min + k` the global cell index.
 */
module Rules {
  import opened Cells
  import opened Grid

  /** The number of neighbours needed to turn a cell over. */
  const Threshold: nat := 6

  /** Every entry of a neighbour list is a local index of the partition. */
  predicate LocalIndices(nbrs: seq<int>, size: int) {
    forall j :: 0 <= j < |nbrs| ==> 0 <= nbrs[j] < size
  }

  /** A snapshot of one partition, its neighbour table and where the
      partition starts inside the live types. */
  predicate Frame(cur: seq<CellType>, snap: seq<CellType>, table: seq<seq<int>>, min: int) {
    |table| == |snap| && TableInPartition(table) && 0 <= min && min + |snap| <= |cur|
  }

  /** How many of the listed neighbours hold `t` in the snapshot. */
  function CountOf(snap: seq<CellType>, nbrs: seq<int>, t: CellType): (n: nat)
    requires LocalIndices(nbrs, |snap|)
    ensures n <= |nbrs|
  {
    if nbrs == [] then 0
    else
      var last := nbrs[|nbrs| - 1];
      CountOf(snap, nbrs[..|nbrs| - 1], t) + (if snap[last] == t then 1 else 0)
  }

  /** The global indices of the listed neighbours that are MEDECINE in the
      snapshot, in list order (the `medecineCells` buffer). */
  function MedNeighbors(snap: seq<CellType>, nbrs: seq<int>, min: int): (meds: seq<int>)
    requires LocalIndices(nbrs, |snap|)
    ensures |meds| == CountOf(snap, nbrs, MEDECINE)
    ensures forall j :: j in nbrs && snap[j] == MEDECINE ==> j + min in meds
    ensures forall g :: g in meds ==> 0 <= g - min < |snap| && g - min in nbrs && snap[g - min] == MEDECINE
  {
    if nbrs == [] then []
    else
      var last := nbrs[|nbrs| - 1];
      MedNeighbors(snap, nbrs[..|nbrs| - 1], min) + (if snap[last] == MEDECINE then [last + min] else [])
  }

  /** The CANCER branch of the rule fires for local cell k. */
  predicate Cured(snap: seq<CellType>, table: seq<seq<int>>, k: int)
    requires |table| == |snap| && TableInPartition(table) && 0 <= k < |snap|
  {
    snap[k] == CANCER && CountOf(snap, table[k], MEDECINE) >= Threshold
  }

  /** The HEALTHY branch of the rule fires for local cell k. */
  predicate Infected(snap: seq<CellType>, table: seq<seq<int>>, k: int)
    requires |table| == |snap| && TableInPartition(table) && 0 <= k < |snap|
  {
    snap[k] == HEALTHY && CountOf(snap, table[k], CANCER) >= Threshold
  }

  /** Every listed cell set to HEALTHY. */
  function HealAll(cur: seq<CellType>, meds: seq<int>): (r: seq<CellType>)
    ensures |r| == |cur|
  {
    seq(|cur|, g requires 0 <= g < |cur| => if g in meds then HEALTHY else cur[g])
  }

  /** The writes of one iteration of the rule loop, for local cell k. */
  function RuleAt(cur: seq<CellType>, snap: seq<CellType>, table: seq<seq<int>>, min: int, k: int): (r: seq<CellType>)
    requires Frame(cur, snap, table, min) && 0 <= k < |snap|
    ensures |r| == |cur|
  {
    if Cured(snap, table, k) then
      HealAll(cur[min + k := HEALTHY], MedNeighbors(snap, table[k], min))
    else if Infected(snap, table, k) then
      cur[min + k := CANCER]
    else
      cur
  }

  /** The live types after the rule loop has visited local cells 0..i-1. */
  function RulesUpTo(cur: seq<CellType>, snap: seq<CellType>, table: seq<seq<int>>, min: int, i: int): (r: seq<CellType>)
    requires Frame(cur, snap, table, min) && 0 <= i <= |snap|
    ensures |r| == |cur|
  {
    if i == 0 then cur
    else RuleAt(RulesUpTo(cur, snap, table, min, i - 1), snap, table, min, i - 1)
  }

  /** `updatedMedecine` after the rule loop has visited local cells
      0..i-1: the MEDECINE neighbours of every cured cell. */
  function ConsumedUpTo(snap: seq<CellType>, table: seq<seq<int>>, min: int, i: int): set<int>
    requires |table| == |snap| && TableInPartition(table) && 0 <= i <= |snap|
  {
    if i == 0 then {}
    else
      ConsumedUpTo(snap, table, min, i - 1) + ConsumedAt(snap, table, min, i - 1)
  }

  /** The medicine that local cell k consumes: all its MEDECINE neighbours
      if it is cured, none otherwise. */
  function ConsumedAt(snap: seq<CellType>, table: seq<seq<int>>, min: int, k: int): set<int>
    requires |table| == |snap| && TableInPartition(table) && 0 <= k < |snap|
  {
    if Cured(snap, table, k) then var meds := MedNeighbors(snap, table[k], min); set g | g in meds else {}
  }

  /** The rule, cell by cell, once local cells 0..i-1 have been visited: a
      visited cell that the HEALTHY branch fires for is CANCER, one that the
      CANCER branch fires for is HEALTHY, a MEDECINE neighbour of a cured
      cell is HEALTHY, and every other cell keeps its live type. Only the
      snapshot decides, so the order of the visits does not matter. */
  function TransitionAt(cur: seq<CellType>, snap: seq<CellType>, table: seq<seq<int>>, min: int, i: int, g: int): CellType
    requires Frame(cur, snap, table, min) && 0 <= i <= |snap| && 0 <= g < |cur|
  {
    var k := g - min;
    if 0 <= k < i && Infected(snap, table, k) then CANCER
    else if 0 <= k < i && Cured(snap, table, k) then HEALTHY
    else if g in ConsumedUpTo(snap, table, min, i) then HEALTHY
    else cur[g]
  }

  lemma {:induction false} ConsumedAreMedecine(snap: seq<CellType>, table: seq<seq<int>>, min: int, i: int, g: int)
    requires |table| == |snap| && TableInPartition(table) && 0 <= i <= |snap|
    requires g in ConsumedUpTo(snap, table, min, i)
    ensures 0 <= g - min < |snap| && snap[g - min] == MEDECINE
  {
    if g !in ConsumedUpTo(snap, table, min, i - 1) {
      assert g in MedNeighbors(snap, table[i - 1], min);
    } else {
      ConsumedAreMedecine(snap, table, min, i - 1, g);
    }
  }

  /** The rule loop computes the cell-by-cell rule. */
  lemma {:induction false} RulesPointwise(cur: seq<CellType>, snap: seq<CellType>, table: seq<seq<int>>, min: int, i: int, g: int)
    requires Frame(cur, snap, table, min) && 0 <= i <= |snap| && 0 <= g < |cur|
    ensures RulesUpTo(cur, snap, table, min, i)[g] == TransitionAt(cur, snap, table, min, i, g)
  {
    if i > 0 {
      RulesPointwise(cur, snap, table, min, i - 1, g);
      var prev := RulesUpTo(cur, snap, table, min, i - 1);
      var meds := MedNeighbors(snap, table[i - 1], min);
      if g in ConsumedUpTo(snap, table, min, i) {
        ConsumedAreMedecine(snap, table, min, i, g);
      }
      if Cured(snap, table, i - 1) && g in meds {
        assert g in ConsumedUpTo(snap, table, min, i);
      }
    }
  }

  /** The MEDECINE cells a cure consumes are exactly the snapshot-MEDECINE
      neighbours of a visited cured cell. */
  lemma {:induction false} ConsumedMembers(snap: seq<CellType>, table: seq<seq<int>>, min: int, i: int, g: int)
    requires |table| == |snap| && TableInPartition(table) && 0 <= i <= |snap|
    ensures g in ConsumedUpTo(snap, table, min, i) <==>
      exists c :: 0 <= c < i && Cured(snap, table, c) && g - min in table[c] && 0 <= g - min < |snap| && snap[g - min] == MEDECINE
  {
    if i > 0 {
      ConsumedMembers(snap, table, min, i - 1, g);
      ConsumedAtMembers(snap, table, min, i - 1, g);
      if g in ConsumedAt(snap, table, min, i - 1) {
        assert 0 <= i - 1 < i && Cured(snap, table, i - 1) && g - min in table[i - 1];
      }
      if exists c :: 0 <= c < i && Cured(snap, table, c) && g - min in table[c] && 0 <= g - min < |snap| && snap[g - min] == MEDECINE {
        var c :| 0 <= c < i && Cured(snap, table, c) && g - min in table[c] && 0 <= g - min < |snap| && snap[g - min] == MEDECINE;
        if c < i - 1 {
          assert g in ConsumedUpTo(snap, table, min, i - 1);
        }
      }
    }
  }

  /** What one cured cell consumes, member by member. */
  lemma ConsumedAtMembers(snap: seq<CellType>, table: seq<seq<int>>, min: int, k: int, g: int)
    requires |table| == |snap| && TableInPartition(table) && 0 <= k < |snap|
    ensures g in ConsumedAt(snap, table, min, k) <==>
      Cured(snap, table, k) && g - min in table[k] && 0 <= g - min < |snap| && snap[g - min] == MEDECINE
  {
    if Cured(snap, table, k) && g - min in table[k] && 0 <= g - min < |snap| && snap[g - min] == MEDECINE {
      assert (g - min) + min in MedNeighbors(snap, table[k], min);
    }
  }

  /** The rules as the whole loop leaves them: a snapshot-HEALTHY cell with
      at least six snapshot-CANCER neighbours becomes CANCER; a
      snapshot-CANCER cell with at least six snapshot-MEDECINE neighbours
      becomes HEALTHY and so does each of those neighbours, which is then in
      the updated set; below the threshold a HEALTHY or CANCER cell keeps
      its live type, and nothing outside the partition changes. */
  lemma TransitionRule(cur: seq<CellType>, snap: seq<CellType>, table: seq<seq<int>>, min: int, k: int)
    requires Frame(cur, snap, table, min) && 0 <= k < |snap|
    ensures var r := RulesUpTo(cur, snap, table, min, |snap|);
      && (snap[k] == HEALTHY && CountOf(snap, table[k], CANCER) >= Threshold ==> r[min + k] == CANCER)
      && (snap[k] == HEALTHY && CountOf(snap, table[k], CANCER) < Threshold ==> r[min + k] == cur[min + k])
      && (snap[k] == CANCER && CountOf(snap, table[k], MEDECINE) < Threshold ==> r[min + k] == cur[min + k])
      && (snap[k] == CANCER && CountOf(snap, table[k], MEDECINE) >= Threshold ==>
            r[min + k] == HEALTHY &&
            forall j :: j in table[k] && snap[j] == MEDECINE ==>
              r[min + j] == HEALTHY && min + j in ConsumedUpTo(snap, table, min, |snap|))
  {
    var n := |snap|;
    RulesPointwise(cur, snap, table, min, n, min + k);
    if snap[k] != MEDECINE && min + k in ConsumedUpTo(snap, table, min, n) {
      ConsumedAreMedecine(snap, table, min, n, min + k);
    }
    if Cured(snap, table, k) {
      forall j | j in table[k] && snap[j] == MEDECINE
        ensures RulesUpTo(cur, snap, table, min, n)[min + j] == HEALTHY
        ensures min + j in ConsumedUpTo(snap, table, min, n)
      {
        ConsumedMembers(snap, table, min, n, min + j);
        RulesPointwise(cur, snap, table, min, n, min + j);
      }
    }
  }

  /** The rule writes only inside its own partition. */
  lemma RulesStayInPartition(cur: seq<CellType>, snap: seq<CellType>, table: seq<seq<int>>, min: int, g: int)
    requires Frame(cur, snap, table, min) && 0 <= g < |cur| && !(min <= g < min + |snap|)
    ensures RulesUpTo(cur, snap, table, min, |snap|)[g] == cur[g]
  {
    RulesPointwise(cur, snap, table, min, |snap|, g);
    if g in ConsumedUpTo(snap, table, min, |snap|) {
      ConsumedAreMedecine(snap, table, min, |snap|, g);
    }
  }

  /** The rule only ever writes HEALTHY or CANCER, so no cell becomes NONE. */
  lemma RulesKeepNoNone(cur: seq<CellType>, snap: seq<CellType>, table: seq<seq<int>>, min: int)
    requires Frame(cur, snap, table, min) && NoNone(cur)
    ensures NoNone(RulesUpTo(cur, snap, table, min, |snap|))
  {
    forall g | 0 <= g < |cur| ensures RulesUpTo(cur, snap, table, min, |snap|)[g] != NONE {
      RulesPointwise(cur, snap, table, min, |snap|, g);
    }
  }

  /** The inner loop of the CANCER branch: collect the MEDECINE neighbours
      of one cell into the `medecineCells` buffer. */
  method CollectMedecine(snap: seq<CellType>, nbrs: seq<int>, min: int) returns (meds: seq<int>)
    requires LocalIndices(nbrs, |snap|)
    ensures meds == MedNeighbors(snap, nbrs, min)
    ensures |meds| <= |nbrs|
  {
    meds := [];
    var j := 0;
    while j < |nbrs|
      invariant 0 <= j <= |nbrs|
      invariant meds == MedNeighbors(snap, nbrs[..j], min)
    {
      assert nbrs[..j + 1][..j] == nbrs[..j];
      if snap[nbrs[j]] == MEDECINE {
        meds := meds + [nbrs[j] + min];
      }
      j := j + 1;
    }
    assert nbrs[..j] == nbrs;
  }

  /** The inner loop of the HEALTHY branch: count the CANCER neighbours. */
  method CountCancer(snap: seq<CellType>, nbrs: seq<int>) returns (cancerCount: nat)
    requires LocalIndices(nbrs, |snap|)
    ensures cancerCount == CountOf(snap, nbrs, CANCER)
    ensures cancerCount <= |nbrs|
  {
    cancerCount := 0;
    var j := 0;
    while j < |nbrs|
      invariant 0 <= j <= |nbrs|
      invariant cancerCount == CountOf(snap, nbrs[..j], CANCER)
    {
      assert nbrs[..j + 1][..j] == nbrs[..j];
      cancerCount := cancerCount + if snap[nbrs[j]] == CANCER then 1 else 0;
      j := j + 1;
    }
    assert nbrs[..j] == nbrs;
  }
}
