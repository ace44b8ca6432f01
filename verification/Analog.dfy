/**
 * The analog-data payload (internal/bms/parse.go): the cursor-driven decoder, its layout read off at absolute
 * offsets, and the encoder of the device's side.
 */
module Analog {
  import opened Wrappers
  import opened Sample
  import opened Hex

  const MAX_CELLS := 32
  const MAX_TEMPS := 8

  const TEMP_LABELS: seq<string> := ["t1", "t2", "t3", "t4", "mos", "env"]

  // The letter t and the 1-based position, a single digit since there are at most eight probes.
  function Numbered(i: int): string
    requires 0 <= i < MAX_TEMPS
  {
    ['t', (49 + i) as char]
  }

  // Probes past the named ones are called by their position.
  function Label(i: int): string
    requires 0 <= i < MAX_TEMPS
  {
    if i < |TEMP_LABELS| then TEMP_LABELS[i] else Numbered(i)
  }

  lemma LabelsDistinct(i: int, j: int)
    requires 0 <= i < MAX_TEMPS && 0 <= j < MAX_TEMPS && Label(i) == Label(j)
    ensures i == j
  {
  }

  function U16(info: seq<Byte>, p: int): (n: int)
    requires 0 <= p && p + 2 <= |info|
    ensures 0 <= n < 0x1_0000
  {
    info[p] as int * 0x100 + info[p + 1]
  }

  function S16(raw: int): int {
    if raw > 32767 then raw - 65536 else raw
  }

  predicate DeciInRange(deci: int) {
    DECI_C_MIN <= deci <= DECI_C_MAX
  }

  // ---- The layout, at absolute offsets ----

  function CellCount(info: seq<Byte>): (c: nat)
    requires |info| >= 10
    ensures c <= MAX_CELLS
  {
    Min(info[1], MAX_CELLS)
  }

  // The offset of the temperature count, right after the cells.
  function TempAt(info: seq<Byte>): (q: nat)
    requires |info| >= 10
  {
    2 + 2 * CellCount(info)
  }

  function TempCount(info: seq<Byte>): (t: nat)
    requires |info| >= 10 && TempAt(info) < |info|
    ensures t <= MAX_TEMPS
  {
    Min(info[TempAt(info)], MAX_TEMPS)
  }

  // The offset of the main block, right after the temperatures.
  function MainAt(info: seq<Byte>): (m: nat)
    requires |info| >= 10 && TempAt(info) < |info|
  {
    TempAt(info) + 1 + 2 * TempCount(info)
  }

  function CellsOf(info: seq<Byte>, c: nat): (cells: seq<int>)
    requires 2 + 2 * c <= |info|
    ensures |cells| == c
  {
    seq(c, i requires 0 <= i < c => U16(info, 2 + 2 * i))
  }

  // The in-range readings among the first t of the two-byte slots at p, each with the label of its slot.
  function TempsOf(info: seq<Byte>, p: nat, t: nat): (temps: seq<Temp>)
    requires t <= MAX_TEMPS && p + 2 * t <= |info|
    ensures |temps| <= t
  {
    if t == 0 then []
    else
      var deci := U16(info, p + 2 * (t - 1)) - TEMP_OFFSET;
      TempsOf(info, p, t - 1) + if DeciInRange(deci) then [Temp(Label(t - 1), deci)] else []
  }

  predicate Truncated(info: seq<Byte>) {
    || |info| < 10
    || |info| < TempAt(info)
    || (TempAt(info) < |info| && |info| < MainAt(info))
  }

  predicate HasMain(info: seq<Byte>) {
    |info| >= 10 && TempAt(info) < |info| && MainAt(info) + 6 <= |info|
  }

  function PackMVOf(info: seq<Byte>): int
    requires HasMain(info)
  {
    U16(info, MainAt(info) + 2) * 10
  }

  predicate CoreInRange(info: seq<Byte>)
    requires HasMain(info)
  {
    CellsPlausible(CellsOf(info, CellCount(info))) && PACK_MV_MIN <= PackMVOf(info) <= PACK_MV_MAX
  }

  // A state-of-charge or -health byte over 100 reads as 0.
  function Percent(raw: int): int {
    if raw > 100 then 0 else raw
  }

  function Decoded(info: seq<Byte>): PackSample
    requires HasMain(info)
  {
    var m := MainAt(info);
    PackSample(0, CellsOf(info, CellCount(info)), TempsOf(info, TempAt(info) + 1, TempCount(info)),
      PackMVOf(info), S16(U16(info, m)) * 10,
      if m + 13 <= |info| then Percent(info[m + 11]) else 0,
      if m + 13 <= |info| then Percent(info[m + 12]) else 0,
      if m + 13 <= |info| then info[m + 10] else 0,
      U16(info, m + 4) * 10,
      if m + 9 <= |info| then U16(info, m + 7) * 10 else 0)
  }

  // Exactly which payloads are accepted, which error the others get, and what an accepted one decodes to.
  function AnalogSpec(info: seq<Byte>): Result<PackSample, BmsError> {
    if Truncated(info) then Failure(ErrFraming)
    else if !HasMain(info) || !CoreInRange(info) then Failure(ErrImplausible)
    else Success(Decoded(info))
  }

  // ---- The decoder ----

  // The first 2-byte slots at p, or None when the payload ends inside one of them.
  method ReadCells(info: seq<Byte>, start: nat, count: nat) returns (cells: Option<seq<int>>, p: nat)
    requires start == 2 <= |info|
    ensures cells == if 2 + 2 * count <= |info| then Some(CellsOf(info, count)) else None
    ensures cells.Some? ==> p == 2 + 2 * count
  {
    p := start;
    var read := [];
    for i := 0 to count
      invariant p == 2 + 2 * i <= |info|
      invariant read == CellsOf(info, i)
    {
      if p + 2 > |info| {
        return None, p;
      }
      read := read + [U16(info, p)];
      p := p + 2;
    }
    cells := Some(read);
  }

  // The labelled in-range readings of count slots at start; an out-of-range slot is skipped and keeps its label unused.
  method ReadTemps(info: seq<Byte>, start: nat, count: nat) returns (temps: Option<seq<Temp>>, p: nat)
    requires count <= MAX_TEMPS && start <= |info|
    ensures temps == if start + 2 * count <= |info| then Some(TempsOf(info, start, count)) else None
    ensures temps.Some? ==> p == start + 2 * count
  {
    p := start;
    var read := [];
    for i := 0 to count
      invariant p == start + 2 * i <= |info|
      invariant read == TempsOf(info, start, i)
    {
      if p + 2 > |info| {
        return None, p;
      }
      var deci := U16(info, p) - TEMP_OFFSET;
      p := p + 2;
      if deci < DECI_C_MIN || deci > DECI_C_MAX {
        continue;
      }
      var probe := Numbered(i);
      if i < |TEMP_LABELS| {
        probe := TEMP_LABELS[i];
      }
      read := read + [Temp(probe, deci)];
    }
    temps := Some(read);
  }

  // Core voltages out of range discard the sample; secondary values out of range are zeroed.
  method CheckPlausible(decoded: PackSample) returns (r: Result<PackSample, BmsError>)
    ensures r == if !CellsPlausible(decoded.cells) || !(PACK_MV_MIN <= decoded.packMV <= PACK_MV_MAX)
                 then Failure(ErrImplausible)
                 else Success(decoded.(
                   packMA := if -CURRENT_MA_MAX <= decoded.packMA <= CURRENT_MA_MAX then decoded.packMA else 0,
                   socPct := if 0 <= decoded.socPct <= 100 then decoded.socPct else 0,
                   sohPct := if 0 <= decoded.sohPct <= 100 then decoded.sohPct else 0))
  {
    var s := decoded;
    for i := 0 to |s.cells|
      invariant CellsPlausible(s.cells[..i])
    {
      if s.cells[i] < CELL_MV_MIN || s.cells[i] > CELL_MV_MAX {
        return Failure(ErrImplausible);
      }
    }
    assert s.cells[..|s.cells|] == s.cells;
    if s.packMV < PACK_MV_MIN || s.packMV > PACK_MV_MAX {
      return Failure(ErrImplausible);
    }
    if s.packMA < -CURRENT_MA_MAX || s.packMA > CURRENT_MA_MAX {
      s := s.(packMA := 0);
    }
    if s.socPct < 0 || s.socPct > 100 {
      s := s.(socPct := 0);
    }
    if s.sohPct < 0 || s.sohPct > 100 {
      s := s.(sohPct := 0);
    }
    r := Success(s);
  }

  // The three groups after the temperatures, each read only if the payload reaches past it and the ones before.
  method ReadTail(info: seq<Byte>, at: nat, sample: PackSample) returns (s: PackSample)
    ensures at + 6 > |info| ==> s == sample
    ensures at + 6 <= |info| ==>
              s == sample.(
                packMA := S16(U16(info, at)) * 10, packMV := U16(info, at + 2) * 10,
                remainMAH := U16(info, at + 4) * 10,
                fullMAH := if at + 9 <= |info| then U16(info, at + 7) * 10 else sample.fullMAH,
                cycles := if at + 13 <= |info| then info[at + 10] else sample.cycles,
                socPct := if at + 13 <= |info| then info[at + 11] else sample.socPct,
                sohPct := if at + 13 <= |info| then info[at + 12] else sample.sohPct)
  {
    hide U16;
    s := sample;
    var p := at;
    if p + 6 <= |info| {
      var raw := U16(info, p);
      if raw > 32767 {
        raw := raw - 65536;
      }
      s := s.(packMA := raw * 10);
      p := p + 2;
      s := s.(packMV := U16(info, p) * 10);
      p := p + 2;
      s := s.(remainMAH := U16(info, p) * 10);
      p := p + 2;
      if p + 3 <= |info| {
        p := p + 1; // skip byte
        s := s.(fullMAH := U16(info, p) * 10);
        p := p + 2;
        if p + 4 <= |info| {
          p := p + 1; // skip byte
          s := s.(cycles := info[p]);
          p := p + 1;
          var socInt := info[p];
          p := p + 1;
          var soh := info[p];
          p := p + 1;
          s := s.(socPct := socInt, sohPct := soh);
        }
      }
    }
  }

  method ParseAnalog(info: seq<Byte>) returns (r: Result<PackSample, BmsError>)
    ensures r == AnalogSpec(info)
  {
    hide CellsOf, TempsOf, U16;
    if |info| < 10 {
      return Failure(ErrFraming);
    }
    var s := PackSample(0, [], [], 0, 0, 0, 0, 0, 0, 0);
    var p: nat := 0;
    p := p + 1; // flag
    var cellCount: int := info[p];
    p := p + 1;
    if cellCount > 32 {
      cellCount := 32;
    }
    var cells;
    cells, p := ReadCells(info, p, cellCount);
    if cells.None? {
      return Failure(ErrFraming);
    }
    s := s.(cells := cells.value);
    if p + 1 <= |info| {
      var tempCount: int := info[p];
      p := p + 1;
      if tempCount > 8 {
        tempCount := 8;
      }
      var temps;
      temps, p := ReadTemps(info, p, tempCount);
      if temps.None? {
        return Failure(ErrFraming);
      }
      s := s.(temps := temps.value);
    }
    s := ReadTail(info, p, s);
    r := CheckPlausible(s);
  }

  // Acceptance in plain arithmetic: with c the cell count capped at 32 and t the temperature count capped at 8, a
  // payload decodes iff it has at least 10 bytes, reaches past the six bytes of the main block, and its cells and
  // pack voltage are in range. What is not accepted is a framing error or implausible, never anything else.
  lemma AcceptedIff(info: seq<Byte>)
    ensures AnalogSpec(info).Success? <==>
            && |info| >= 10
            && var c := Min(info[1], 32);
            && 2 + 2 * c < |info|
            && var t := Min(info[2 + 2 * c], 8);
            && 3 + 2 * c + 2 * t + 6 <= |info|
            && (forall i :: 0 <= i < c ==> 1000 <= U16(info, 2 + 2 * i) <= 5000)
            && 10000 <= 10 * U16(info, 5 + 2 * c + 2 * t) <= 60000
    ensures AnalogSpec(info).Failure? ==> AnalogSpec(info).error in {ErrFraming, ErrImplausible}
  {
    hide U16, CellsOf;
    if |info| >= 10 && TempAt(info) < |info| {
      CellsPlausibleIff(info, CellCount(info));
    }
  }

  lemma CellsPlausibleIff(info: seq<Byte>, c: nat)
    requires 2 + 2 * c <= |info|
    ensures CellsPlausible(CellsOf(info, c)) <==> forall i :: 0 <= i < c ==> 1000 <= U16(info, 2 + 2 * i) <= 5000
  {
    hide U16;
    var cells := CellsOf(info, c);
    assert forall i :: 0 <= i < c ==> cells[i] == U16(info, 2 + 2 * i);
    if CellsPlausible(cells) {
      forall i | 0 <= i < c
        ensures 1000 <= U16(info, 2 + 2 * i) <= 5000
      {
        assert cells[i] == U16(info, 2 + 2 * i);
      }
    }
  }

  // Which error: a payload that ends inside its fixed part, its cells or its temperatures is a framing error, any
  // other that is not accepted is implausible.
  lemma RejectedIff(info: seq<Byte>)
    ensures AnalogSpec(info) == Failure(ErrFraming) <==>
            || |info| < 10
            || var c := Min(info[1], 32);
               |info| < 2 + 2 * c || (2 + 2 * c < |info| && |info| < 3 + 2 * c + 2 * Min(info[2 + 2 * c], 8))
    ensures AnalogSpec(info) in {Failure(ErrFraming), Failure(ErrImplausible)} || AnalogSpec(info).Success?
  {
    hide U16, CellsOf;
  }

  // Two bytes, the high one first.
  function Word(info: seq<Byte>, p: nat): int
    requires p + 2 <= |info|
  {
    256 * (info[p] as int) + info[p + 1]
  }

  function UpTo100(x: int): int {
    if x <= 100 then x else 0
  }

  // A sample with these bytes: c cells from offset 2, the main block at m, the temperatures apart.
  predicate HasBytes(s: PackSample, info: seq<Byte>, c: nat, m: nat)
    requires 2 + 2 * c <= m && m + 6 <= |info|
  {
    && s.ts == 0 && |s.cells| == c && (forall i :: 0 <= i < c ==> s.cells[i] == Word(info, 2 + 2 * i))
    && s.packMA == 10 * (if info[m] >= 128 then Word(info, m) - 65536 else Word(info, m))
    && s.packMV == 10 * Word(info, m + 2) && s.remainMAH == 10 * Word(info, m + 4)
    && s.fullMAH == (if m + 9 <= |info| then 10 * Word(info, m + 7) else 0)
    && s.cycles == (if m + 13 <= |info| then info[m + 10] else 0)
    && s.socPct == (if m + 13 <= |info| then UpTo100(info[m + 11]) else 0)
    && s.sohPct == (if m + 13 <= |info| then UpTo100(info[m + 12]) else 0)
  }

  // What an accepted payload decodes to, byte by byte.
  lemma DecodedBytes(info: seq<Byte>)
    requires AnalogSpec(info).Success?
    ensures |info| >= 10 && 2 + 2 * Min(info[1], 32) < |info|
    ensures var c: nat := Min(info[1], 32);
            var m: nat := 3 + 2 * c + 2 * Min(info[2 + 2 * c], 8);
            m + 6 <= |info| && HasBytes(AnalogSpec(info).value, info, c, m)
  {
    hide TempsOf;
    var m := MainAt(info);
    assert U16(info, m) == Word(info, m) && U16(info, m + 2) == Word(info, m + 2);
    assert U16(info, m + 4) == Word(info, m + 4);
  }

  const PROBES: seq<string> := ["t1", "t2", "t3", "t4", "mos", "env", "t7", "t8"]

  lemma ProbeNames(i: int)
    requires 0 <= i < 8
    ensures Label(i) == PROBES[i]
  {
  }

  // A slot reads between -50.0 and 150.0 degrees, in tenths over 2731.
  predicate SlotReads(info: seq<Byte>, p: nat) {
    p + 2 <= |info| && -500 <= Word(info, p) - 2731 <= 1500
  }

  // The slots kept among the first t of those at p, in order.
  ghost predicate KeptSlots(slots: seq<nat>, info: seq<Byte>, p: nat, t: nat) {
    && (forall i, j :: 0 <= i < j < |slots| ==> slots[i] < slots[j])
    && forall i: nat :: i in slots <==> i < t && SlotReads(info, p + 2 * i)
  }

  // Each kept slot with its own value and the name of its position.
  ghost predicate ReadFrom(temps: seq<Temp>, slots: seq<nat>, info: seq<Byte>, p: nat) {
    && |temps| == |slots|
    && forall j :: 0 <= j < |slots| ==>
         slots[j] < 8 && SlotReads(info, p + 2 * slots[j])
         && temps[j] == Temp(PROBES[slots[j]], Word(info, p + 2 * slots[j]) - 2731)
  }

  // Which temperatures an accepted payload decodes to: exactly the slots in range, the others are left out.
  lemma DecodedTemps(info: seq<Byte>) returns (slots: seq<nat>)
    requires AnalogSpec(info).Success?
    ensures |info| >= 10 && 2 + 2 * Min(info[1], 32) < |info|
    ensures KeptSlots(slots, info, 3 + 2 * Min(info[1], 32), Min(info[2 + 2 * Min(info[1], 32)], 8))
    ensures ReadFrom(AnalogSpec(info).value.temps, slots, info, 3 + 2 * Min(info[1], 32))
  {
    hide U16, CellsOf, TempsOf, KeptSlots, ReadFrom;
    slots := TempSlotsOf(info, TempAt(info) + 1, TempCount(info));
  }

  lemma {:induction false} TempSlotsOf(info: seq<Byte>, p: nat, t: nat) returns (slots: seq<nat>)
    requires t <= 8 && p + 2 * t <= |info|
    ensures KeptSlots(slots, info, p, t) && ReadFrom(TempsOf(info, p, t), slots, info, p)
  {
    hide KeptSlots, ReadFrom, SlotReads, U16, Label, Word;
    if t == 0 {
      slots := [];
      NoSlot(info, p);
    } else {
      slots := TempSlotsOf(info, p, t - 1);
      OneMoreTemp(info, p, t);
      OneMoreSlot(slots, TempsOf(info, p, t - 1), info, p, t);
      if SlotReads(info, p + 2 * (t - 1)) {
        slots := slots + [t - 1];
      }
    }
  }

  lemma NoSlot(info: seq<Byte>, p: nat)
    requires p <= |info|
    ensures KeptSlots([], info, p, 0) && TempsOf(info, p, 0) == [] && ReadFrom([], [], info, p)
  {
  }

  lemma OneMoreTemp(info: seq<Byte>, p: nat, t: nat)
    requires 0 < t <= 8 && p + 2 * t <= |info|
    ensures var q, before := p + 2 * (t - 1), TempsOf(info, p, t - 1);
            TempsOf(info, p, t)
            == if SlotReads(info, q) then before + [Temp(PROBES[t - 1], Word(info, q) - 2731)] else before
  {
    var q := p + 2 * (t - 1);
    assert U16(info, q) == Word(info, q);
    hide Label;
    ProbeNames(t - 1);
  }

  lemma OneMoreSlot(slots: seq<nat>, temps: seq<Temp>, info: seq<Byte>, p: nat, t: nat)
    requires 0 < t <= 8 && KeptSlots(slots, info, p, t - 1) && ReadFrom(temps, slots, info, p)
    ensures var q := p + 2 * (t - 1);
            if SlotReads(info, q)
            then KeptSlots(slots + [t - 1], info, p, t)
                 && ReadFrom(temps + [Temp(PROBES[t - 1], Word(info, q) - 2731)], slots + [t - 1], info, p)
            else KeptSlots(slots, info, p, t)
  {
    hide Word;
    assert forall i :: 0 <= i < |slots| ==> slots[i] in slots;
  }

  // Every accepted payload decodes to a plausible sample, and its current is the transmitted one: no 16-bit
  // reading reaches the bound at which the decoder would null it.
  lemma DecodedIsPlausible(info: seq<Byte>)
    requires AnalogSpec(info).Success?
    ensures Plausible(AnalogSpec(info).value)
    ensures AnalogSpec(info).value.packMA == S16(U16(info, MainAt(info))) * 10
    ensures -327680 <= AnalogSpec(info).value.packMA <= 327670
  {
    TempsWellFormed(info, TempAt(info) + 1, TempCount(info));
    LabelledProbes(AnalogSpec(info).value.temps, TempCount(info));
  }

  // The labels of t slots, in order.
  ghost predicate Labelled(temps: seq<Temp>, t: nat)
    requires t <= MAX_TEMPS
  {
    if t == 0 then temps == []
    else if temps != [] && temps[|temps| - 1].probe == Label(t - 1)
    then DeciInRange(temps[|temps| - 1].deciC) && Labelled(temps[..|temps| - 1], t - 1)
    else Labelled(temps, t - 1)
  }

  lemma {:induction false} TempsWellFormed(info: seq<Byte>, p: nat, t: nat)
    requires t <= MAX_TEMPS && p + 2 * t <= |info|
    ensures Labelled(TempsOf(info, p, t), t)
  {
    hide U16, Label, DeciInRange;
    if t > 0 {
      var deci := U16(info, p + 2 * (t - 1)) - TEMP_OFFSET;
      var before := TempsOf(info, p, t - 1);
      TempsWellFormed(info, p, t - 1);
      if DeciInRange(deci) {
        assert TempsOf(info, p, t)[..|before|] == before;
      } else {
        assert TempsOf(info, p, t) == before;
        LabelledProbes(before, t - 1);
      }
    }
  }

  // Labelled readings name distinct slots below t and are in range.
  lemma {:induction false} LabelledProbes(temps: seq<Temp>, t: nat)
    requires t <= MAX_TEMPS && Labelled(temps, t)
    ensures |temps| <= t && ProbesDistinct(temps)
    ensures forall i :: 0 <= i < |temps| ==> DeciInRange(temps[i].deciC)
    ensures forall i, j :: 0 <= i < |temps| && t <= j < MAX_TEMPS ==> temps[i].probe != Label(j)
  {
    hide Label, DeciInRange;
    if t > 0 {
      var k := |temps| - 1;
      if temps != [] && temps[k].probe == Label(t - 1) {
        LabelledProbes(temps[..k], t - 1);
        forall j | t <= j < MAX_TEMPS
          ensures temps[k].probe != Label(j)
        {
          if Label(t - 1) == Label(j) {
            LabelsDistinct(t - 1, j);
          }
        }
        assert forall i :: 0 <= i < k ==> temps[..k][i] == temps[i];
      } else {
        LabelledProbes(temps, t - 1);
      }
    }
  }

  // ---- The device's encoder ----

  function Be16(n: int): (b: seq<Byte>)
    requires 0 <= n < 0x1_0000
    ensures |b| == 2
  {
    [n / 0x100, n % 0x100]
  }

  function CellBytes(cells: seq<int>): (b: seq<Byte>)
    requires CellsPlausible(cells)
    ensures |b| == 2 * |cells|
  {
    if cells == [] then [] else CellBytes(cells[..|cells| - 1]) + Be16(cells[|cells| - 1])
  }

  // The last reading belongs to slot t, counted from 1.
  predicate FillsSlot(temps: seq<Temp>, t: nat)
    requires 0 < t <= MAX_TEMPS
  {
    temps != [] && temps[|temps| - 1].probe == Label(t - 1)
  }

  function BeforeSlot(temps: seq<Temp>, t: nat): (r: seq<Temp>)
    requires 0 < t <= MAX_TEMPS && Labelled(temps, t)
    ensures Labelled(r, t - 1)
  {
    if FillsSlot(temps, t) then temps[..|temps| - 1] else temps
  }

  function SlotRaw(temps: seq<Temp>, t: nat): (raw: int)
    requires 0 < t <= MAX_TEMPS && Labelled(temps, t)
    ensures 0 <= raw < 0x1_0000
    ensures DeciInRange(raw - TEMP_OFFSET) <==> FillsSlot(temps, t)
  {
    if FillsSlot(temps, t) then temps[|temps| - 1].deciC + TEMP_OFFSET else 0
  }

  // A list of readings, put together again from its last slot.
  lemma SlotSplit(temps: seq<Temp>, t: nat)
    requires 0 < t <= MAX_TEMPS && Labelled(temps, t)
    ensures temps == BeforeSlot(temps, t) +
              if FillsSlot(temps, t) then [Temp(Label(t - 1), SlotRaw(temps, t) - TEMP_OFFSET)] else []
  {
    hide Label, DeciInRange, Labelled;
    if FillsSlot(temps, t) {
      var k := |temps| - 1;
      assert temps == temps[..k] + [temps[k]];
      assert temps[k] == Temp(Label(t - 1), SlotRaw(temps, t) - TEMP_OFFSET);
    }
  }

  // Two bytes per slot; a slot without a reading holds 0 K, which the decoder takes for an unconnected probe.
  function TempSlots(temps: seq<Temp>, t: nat): (b: seq<Byte>)
    requires t <= MAX_TEMPS && Labelled(temps, t)
    ensures |b| == 2 * t
  {
    if t == 0 then [] else TempSlots(BeforeSlot(temps, t), t - 1) + Be16(SlotRaw(temps, t))
  }

  // The samples a device with t probe slots can transmit.
  ghost predicate Encodable(s: PackSample, t: nat) {
    && s.ts == 0
    && |s.cells| <= MAX_CELLS && CellsPlausible(s.cells)
    && t <= MAX_TEMPS && Labelled(s.temps, t)
    && PACK_MV_MIN <= s.packMV <= PACK_MV_MAX && s.packMV % 10 == 0
    && -327680 <= s.packMA <= 327670 && s.packMA % 10 == 0
    && 0 <= s.remainMAH <= 655350 && s.remainMAH % 10 == 0
    && 0 <= s.fullMAH <= 655350 && s.fullMAH % 10 == 0
    && 0 <= s.cycles < 0x100 && 0 <= s.socPct <= 100 && 0 <= s.sohPct <= 100
  }

  function MainBytes(s: PackSample): (b: seq<Byte>)
    requires exists t :: Encodable(s, t)
    ensures |b| == 13
  {
    Be16(s.packMA / 10 % 0x1_0000) + Be16(s.packMV / 10) + Be16(s.remainMAH / 10)
    + [5] + Be16(s.fullMAH / 10) + [0, s.cycles, s.socPct, s.sohPct]
  }

  ghost function EncodeAnalog(s: PackSample, t: nat): (b: seq<Byte>)
    requires Encodable(s, t)
    ensures |b| == 16 + 2 * |s.cells| + 2 * t
  {
    [0, |s.cells|] + CellBytes(s.cells) + [t] + TempSlots(s.temps, t) + MainBytes(s)
  }

  lemma U16OfBe16(info: seq<Byte>, p: nat, n: int)
    requires 0 <= n < 0x1_0000 && p + 2 <= |info| && info[p..p + 2] == Be16(n)
    ensures U16(info, p) == n
  {
    assert info[p] == info[p..p + 2][0] && info[p + 1] == info[p..p + 2][1];
  }

  lemma {:induction false} CellsRoundTrip(info: seq<Byte>, cells: seq<int>)
    requires CellsPlausible(cells) && 2 + 2 * |cells| <= |info| && info[2..2 + 2 * |cells|] == CellBytes(cells)
    ensures CellsOf(info, |cells|) == cells
  {
    if cells != [] {
      hide U16;
      var k := |cells| - 1;
      Slice(info, 2, 2 + 2 * |cells|, 0, 2 * k);
      Slice(info, 2, 2 + 2 * |cells|, 2 * k, 2 * k + 2);
      assert CellBytes(cells)[0..2 * k] == CellBytes(cells[..k]);
      assert CellBytes(cells)[2 * k..2 * k + 2] == Be16(cells[k]);
      CellsRoundTrip(info, cells[..k]);
      U16OfBe16(info, 2 + 2 * k, cells[k]);
      assert CellsOf(info, |cells|) == CellsOf(info, k) + [cells[k]];
    }
  }

  lemma {:induction false} TempsRoundTrip(info: seq<Byte>, p: nat, temps: seq<Temp>, t: nat)
    requires t <= MAX_TEMPS && Labelled(temps, t)
    requires p + 2 * t <= |info| && info[p..p + 2 * t] == TempSlots(temps, t)
    ensures TempsOf(info, p, t) == temps
    decreases t
  {
    hide U16, Label, Be16, Labelled, DeciInRange, FillsSlot, BeforeSlot, SlotRaw;
    if t > 0 {
      var q, rest, raw := p + 2 * (t - 1), BeforeSlot(temps, t), SlotRaw(temps, t);
      Slice(info, p, p + 2 * t, 0, 2 * (t - 1));
      Slice(info, p, p + 2 * t, 2 * (t - 1), 2 * t);
      var slots := TempSlots(temps, t);
      assert slots == TempSlots(rest, t - 1) + Be16(raw);
      assert slots[0..2 * (t - 1)] == TempSlots(rest, t - 1) && slots[2 * (t - 1)..2 * t] == Be16(raw);
      TempsRoundTrip(info, p, rest, t - 1);
      U16OfBe16(info, q, raw);
      SlotSplit(temps, t);
    } else {
      NoSlots(temps);
    }
  }

  lemma NoSlots(temps: seq<Temp>)
    requires Labelled(temps, 0)
    ensures temps == []
  {
  }

  lemma MainRoundTrip(info: seq<Byte>, m: nat, s: PackSample, t: nat)
    requires Encodable(s, t) && m + 13 <= |info| && info[m..m + 13] == MainBytes(s)
    ensures S16(U16(info, m)) * 10 == s.packMA
    ensures U16(info, m + 2) * 10 == s.packMV
    ensures U16(info, m + 4) * 10 == s.remainMAH
    ensures U16(info, m + 7) * 10 == s.fullMAH
    ensures info[m + 10..m + 13] == [s.cycles, s.socPct, s.sohPct]
  {
    hide Be16, U16;
    var b := info[m..m + 13];
    assert info[m..m + 2] == b[0..2] == Be16(s.packMA / 10 % 0x1_0000);
    Slice(info, m, m + 13, 2, 4);
    assert b[2..4] == Be16(s.packMV / 10);
    Slice(info, m, m + 13, 4, 6);
    assert b[4..6] == Be16(s.remainMAH / 10);
    Slice(info, m, m + 13, 7, 9);
    assert b[7..9] == Be16(s.fullMAH / 10);
    Slice(info, m, m + 13, 10, 13);
    U16OfBe16(info, m, s.packMA / 10 % 0x1_0000);
    U16OfBe16(info, m + 2, s.packMV / 10);
    U16OfBe16(info, m + 4, s.remainMAH / 10);
    U16OfBe16(info, m + 7, s.fullMAH / 10);
  }

  lemma EncodedLayout(s: PackSample, t: nat, rest: seq<Byte>)
    requires Encodable(s, t)
    ensures var info, c := EncodeAnalog(s, t) + rest, |s.cells|;
            var m := 3 + 2 * c + 2 * t;
            && |info| >= m + 13 && CellCount(info) == c && TempCount(info) == t && MainAt(info) == m
            && info[2..2 + 2 * c] == CellBytes(s.cells) && info[3 + 2 * c..m] == TempSlots(s.temps, t)
            && info[m..m + 13] == MainBytes(s)
  {
    hide CellBytes, TempSlots, MainBytes, Labelled;
    var info := EncodeAnalog(s, t) + rest;
    assert info[1] == |s.cells| && info[2 + 2 * |s.cells|] == t;
  }

  // The decoder undoes the encoder, whatever bytes follow the payload.
  lemma AnalogRoundTrip(s: PackSample, t: nat, rest: seq<Byte>)
    requires Encodable(s, t)
    ensures AnalogSpec(EncodeAnalog(s, t) + rest) == Success(s)
  {
    hide CellsOf, TempsOf, U16, CellBytes, TempSlots, MainBytes, S16, EncodeAnalog, Labelled, Label;
    var info := EncodeAnalog(s, t) + rest;
    var c := |s.cells|;
    EncodedLayout(s, t, rest);
    CellsRoundTrip(info, s.cells);
    TempsRoundTrip(info, 3 + 2 * c, s.temps, t);
    var m := MainAt(info);
    MainRoundTrip(info, m, s, t);
    assert info[m + 10] == info[m + 10..m + 13][0] && info[m + 11] == info[m + 10..m + 13][1]
           && info[m + 12] == info[m + 10..m + 13][2];
  }

  // Conversely, every sample the decoder returns is one the device could have encoded; so the decoder's results
  // are exactly the encodable samples.
  lemma DecodedIsEncodable(info: seq<Byte>)
    requires AnalogSpec(info).Success?
    ensures Encodable(AnalogSpec(info).value, TempCount(info))
  {
    hide TempsOf, U16;
    TempsWellFormed(info, TempAt(info) + 1, TempCount(info));
  }

  lemma DecodedLabels(info: seq<Byte>) returns (t: nat)
    requires AnalogSpec(info).Success?
    ensures t <= MAX_TEMPS && Labelled(AnalogSpec(info).value.temps, t)
  {
    hide TempsOf, U16, Labelled;
    t := TempCount(info);
    TempsWellFormed(info, TempAt(info) + 1, t);
  }

  lemma DecoderImage(s: PackSample)
    ensures (exists info :: AnalogSpec(info) == Success(s)) <==> (exists t :: Encodable(s, t))
  {
    hide AnalogSpec, Encodable;
    if info :| AnalogSpec(info) == Success(s) {
      DecodedIsEncodable(info);
    }
    if t :| Encodable(s, t) {
      AnalogRoundTrip(s, t, []);
      assert AnalogSpec(EncodeAnalog(s, t) + []) == Success(s);
    }
  }

  lemma {:induction false} TempsPrefix(info: seq<Byte>, rest: seq<Byte>, p: nat, t: nat)
    requires t <= MAX_TEMPS && p + 2 * t <= |info|
    ensures TempsOf(info + rest, p, t) == TempsOf(info, p, t)
  {
    if t > 0 {
      TempsPrefix(info, rest, p, t - 1);
    }
  }

  // Bytes past the tail group never matter.
  lemma TailIgnored(info: seq<Byte>, rest: seq<Byte>)
    requires |info| >= 10 && TempAt(info) < |info| && MainAt(info) + 13 <= |info|
    ensures AnalogSpec(info + rest) == AnalogSpec(info)
  {
    hide TempsOf;
    var all := info + rest;
    assert CellsOf(all, CellCount(info)) == CellsOf(info, CellCount(info));
    TempsPrefix(info, rest, TempAt(info) + 1, TempCount(info));
  }
}
