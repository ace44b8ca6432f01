/** The decoded data model and the failure modes of one exchange with the pack (internal/bms/types.go). */
module Sample {
  type Byte = b: int | 0 <= b < 256

  // ErrPort stands for every error that wraps none of the four sentinels: a failed reset, write, drain or read.
  datatype BmsError = ErrTimeout | ErrFraming | ErrImplausible | ErrBMS | ErrPort

  // One temperature probe reading, in tenths of a degree.
  datatype Temp = Temp(probe: string, deciC: int)

  // The timestamp is in epoch milliseconds; the decoder leaves it 0 for the caller to stamp.
  datatype PackSample = PackSample(
    ts: int, cells: seq<int>, temps: seq<Temp>, packMV: int, packMA: int,
    socPct: int, sohPct: int, cycles: int, remainMAH: int, fullMAH: int)

  const CELL_MV_MIN := 1000
  const CELL_MV_MAX := 5000
  const PACK_MV_MIN := 10000
  const PACK_MV_MAX := 60000
  const CURRENT_MA_MAX := 500000
  const DECI_C_MIN := -500
  const DECI_C_MAX := 1500
  const TEMP_OFFSET := 2731

  predicate CellsPlausible(cells: seq<int>) {
    forall i :: 0 <= i < |cells| ==> CELL_MV_MIN <= cells[i] <= CELL_MV_MAX
  }

  predicate ProbesDistinct(temps: seq<Temp>) {
    forall i, j :: 0 <= i < j < |temps| ==> temps[i].probe != temps[j].probe
  }

  // What every consumer of a sample may rely on.
  predicate Plausible(s: PackSample) {
    && |s.cells| <= 32
    && CellsPlausible(s.cells)
    && |s.temps| <= 8
    && (forall i :: 0 <= i < |s.temps| ==> DECI_C_MIN <= s.temps[i].deciC <= DECI_C_MAX)
    && ProbesDistinct(s.temps)
    && PACK_MV_MIN <= s.packMV <= PACK_MV_MAX
    && -CURRENT_MA_MAX <= s.packMA <= CURRENT_MA_MAX
    && 0 <= s.socPct <= 100
    && 0 <= s.sohPct <= 100
  }
}
