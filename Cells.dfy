/**
 * The per-cell values of CellArea: the cell type, the medicine record kept
 * for a cell that medicine occupies, the per-partition population counters
 * and the colour a type is drawn with.
 */
module Cells {

  /** `CellArea::CellType`. NONE (-1 in the source) only ever appears as
      the "no previous type" of a default medicine record. */
  datatype CellType = NONE | CANCER | HEALTHY | MEDECINE

  /** `CellArea::MedecineCell` as the engine uses it: the type the cell had
      before medicine arrived, and the flattened offset in which the medicine
      keeps travelling. */
  datatype MedRecord = MedRecord(previousType: CellType, offset: int)

  /** A default-constructed `MedecineCell`. */
  const DefaultRecord := MedRecord(NONE, 0)

  /** `CellArea::PartitionStats`. */
  datatype PartitionStats = PartitionStats(cancer: nat, healthy: nat, medecine: nat)
  {
    function Total(): nat {
      cancer + healthy + medecine
    }

    /** The counter incremented for a visited cell of type `t`; NONE has no
        counter. */
    function Count(t: CellType): (s: PartitionStats)
      ensures s.cancer == cancer + (if t == CANCER then 1 else 0)
      ensures s.healthy == healthy + (if t == HEALTHY then 1 else 0)
      ensures s.medecine == medecine + (if t == MEDECINE then 1 else 0)
      ensures s.Total() == Total() + (if t == NONE then 0 else 1)
    {
      match t
      case CANCER => this.(cancer := cancer + 1)
      case HEALTHY => this.(healthy := healthy + 1)
      case MEDECINE => this.(medecine := medecine + 1)
      case NONE => this
    }

    /** Adding one partition's counters to the running totals. */
    function Plus(other: PartitionStats): (s: PartitionStats)
      ensures s.cancer == cancer + other.cancer && s.healthy == healthy + other.healthy
      ensures s.medecine == medecine + other.medecine
      ensures s.Total() == Total() + other.Total()
    {
      PartitionStats(cancer + other.cancer, healthy + other.healthy, medecine + other.medecine)
    }
  }

  /** A default-constructed `PartitionStats`: every counter zero. */
  const ZeroStats := PartitionStats(0, 0, 0)

  /** Every cell holds one of the three real states. */
  predicate NoNone(types: seq<CellType>) {
    forall i :: 0 <= i < |types| ==> types[i] != NONE
  }

  /** An RGBA colour. */
  datatype Color = Color(r: real, g: real, b: real, a: real)

  /** The colour each real state is drawn with (`s_ColorRed`, `s_ColorGreen`,
      `s_ColorYellow`). */
  function ColorOf(t: CellType): (c: Color)
    requires t != NONE
    ensures c.a == 1.0
    ensures t == HEALTHY <==> c.r == 0.0
    ensures t == CANCER <==> c.g == 0.0
  {
    match t
    case CANCER => Color(0.75, 0.0, 0.0, 1.0)
    case HEALTHY => Color(0.0, 1.0, 0.0, 1.0)
    case MEDECINE => Color(1.0, 1.0, 0.0, 1.0)
  }
}
