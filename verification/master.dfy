/** The master component table (`master.csv`): `convert_master_to_json`,
    which turns each numbered row into a pixel record with its per-slot
    reconfiguration flags and its lookup descriptions. */
module Master {
  import opened Wrappers
  import opened Text
  import opened Numbers
  import opened Rows
  import opened Lists

  const PixelNumberColumn := "Pixel number"
  const GenerationColumn := "Generation"
  const StateColumn := "State"
  const StrengthColumn := "fc'"
  const WeightColumn := "Weight (kg)"
  const ConcreteMixColumn := "Concrete mix"
  const FiberTypeColumn := "Fiber type"
  const FiberDosageColumn := "Fiber dosage"
  const ManufactureColumn := "Date of manufacture"
  const CountColumn := "Number of reconfigurations at present"
  const GifColumn := "GIF"
  const NotesColumn := "notes"

  /** The reconfiguration slots a master row can flag. */
  const FirstSlot := 1
  const LastSlot := 15

  datatype Fiber = Fiber(kind: Option<string>, dosage: Option<string>)

  /** One entry of the `pixels` list. */
  datatype Pixel = Pixel(
    pixelNumber: Option<int>,
    generation: Option<int>,
    generationDescription: Option<string>,
    stateDescription: Option<string>,
    state: Option<int>,
    fc: Option<real>,
    weight: Option<real>,
    concreteMix: Option<string>,
    fiber: Fiber,
    dateOfManufacture: Option<string>,
    numberOfReconfigurations: Option<int>,
    reconfigurations: map<int, bool>,
    gif: bool,
    notes: Option<string>)

  /** The word that opens every slot column's title. */
  const SlotWord := "Reconfiguration"

  /** `f"Reconfiguration {i}"`. */
  function SlotColumn(i: nat): string {
    SlotWord + " " + DecimalText(i)
  }

  /** Whether a slot's (untrimmed) cell marks the slot as applied. The
      `public/` script wants exactly `"1"` after trimming; the older one
      reads `safe_int(cell, 0)` and takes any nonzero integer. */
  predicate SlotFlag(variant: Variant, cell: string) {
    match variant
    case Public => Trim(cell) == "1"
    case Legacy => SafeInt(Some(Trim(cell))).GetOr(0) != 0
  }

  /** Whether slot `i` gets a key: in the `public/` script when the row has
      the column, in the older one when `i` is a number of the event lookup. */
  predicate HasSlot(variant: Variant, row: Row, events: set<int>, i: nat) {
    match variant
    case Public => SlotColumn(i) in row
    case Legacy => i in events
  }

  /** The flags of slots `i` to 15. */
  function SlotFlagsFrom(variant: Variant, row: Row, events: set<int>, i: nat): (flags: map<int, bool>)
    requires i >= FirstSlot
    ensures forall j :: j in flags <==> i <= j <= LastSlot && HasSlot(variant, row, events, j)
    ensures forall j :: j in flags ==> flags[j] == SlotFlag(variant, GetOr(row, SlotColumn(j), ""))
    decreases LastSlot + 1 - i
  {
    if i > LastSlot then map[]
    else
      var rest := SlotFlagsFrom(variant, row, events, i + 1);
      if HasSlot(variant, row, events, i) then
        rest[i := SlotFlag(variant, GetOr(row, SlotColumn(i), ""))]
      else rest
  }

  /** The per-slot object of `convert_master_to_json`, keyed by slot number
      (the JSON key is the number's decimal text). */
  function SlotFlags(variant: Variant, row: Row, events: set<int>): (flags: map<int, bool>)
    ensures forall j :: j in flags <==> FirstSlot <= j <= LastSlot && HasSlot(variant, row, events, j)
    ensures forall j :: j in flags ==> flags[j] == SlotFlag(variant, GetOr(row, SlotColumn(j), ""))
  {
    SlotFlagsFrom(variant, row, events, FirstSlot)
  }

  /** `value.strip() or None`: text without surrounding whitespace, or null
      when nothing else is left. */
  function TrimOrNone(value: string): (r: Option<string>)
    ensures r.None? <==> Trim(value) == ""
    ensures r.Some? ==> r.value == Trim(value) && r.value != ""
  {
    var t := Trim(value);
    if t == "" then None else Some(t)
  }

  /** A kept value is already trimmed, so trimming it again keeps it. */
  lemma TrimOrNoneStable(value: string)
    requires TrimOrNone(value).Some?
    ensures TrimOrNone(TrimOrNone(value).value) == TrimOrNone(value)
  {
    TrimIdempotent(value);
  }

  /** `lookup.get(code) if code else None`: a missing or zero code and a
      code the lookup lacks all describe as null. */
  function Describe(code: Option<int>, lookup: map<int, string>): (r: Option<string>)
    ensures r.Some? <==> code.Some? && code.value != 0 && code.value in lookup
    ensures r.Some? ==> r.value == lookup[code.value]
  {
    if code.None? || code.value == 0 || code.value !in lookup then None
    else Some(lookup[code.value])
  }

  /** `convert_master_to_json` skips a row whose pixel number is missing or blank. */
  predicate HasPixelNumber(row: Row) {
    GetOr(row, PixelNumberColumn, "") != ""
  }

  /** The pixel record `convert_master_to_json` builds from one row. `events`
      is the key set of the event lookup, which only the older script consults. */
  function PixelOf(variant: Variant, row: Row, generations: map<int, string>,
                   states: map<int, string>, events: set<int>): (p: Pixel)
    ensures HasPixelNumber(row) ==> p.pixelNumber == ParseInt(row[PixelNumberColumn])
    ensures p.reconfigurations == SlotFlags(variant, row, events)
    ensures p.generationDescription.Some? <==> p.generation.Some? && p.generation.value != 0 && p.generation.value in generations
    ensures p.stateDescription.Some? <==> p.state.Some? && p.state.value != 0 && p.state.value in states
    ensures p.generation == SafeInt(Get(row, GenerationColumn))
    ensures p.state == SafeInt(Get(row, StateColumn))
    ensures p.generationDescription.Some? ==> p.generationDescription.value == generations[p.generation.value]
    ensures p.stateDescription.Some? ==> p.stateDescription.value == states[p.state.value]
    ensures p.fc == SafeFloat(Get(row, StrengthColumn)) && p.weight == SafeFloat(Get(row, WeightColumn))
    ensures p.concreteMix == TrimOrNone(GetOr(row, ConcreteMixColumn, ""))
    ensures p.fiber.kind == TrimOrNone(GetOr(row, FiberTypeColumn, ""))
    ensures p.fiber.dosage == TrimOrNone(GetOr(row, FiberDosageColumn, ""))
    ensures p.gif <==> IsYes(GetOr(row, GifColumn, ""))
    ensures p.dateOfManufacture == Get(row, ManufactureColumn) && p.notes == Get(row, NotesColumn)
    ensures p.numberOfReconfigurations == SafeInt(Get(row, CountColumn))
  {
    var generation := SafeInt(Get(row, GenerationColumn));
    var state := SafeInt(Get(row, StateColumn));
    Pixel(
      SafeInt(Get(row, PixelNumberColumn)),
      generation,
      Describe(generation, generations),
      Describe(state, states),
      state,
      SafeFloat(Get(row, StrengthColumn)),
      SafeFloat(Get(row, WeightColumn)),
      TrimOrNone(GetOr(row, ConcreteMixColumn, "")),
      Fiber(TrimOrNone(GetOr(row, FiberTypeColumn, "")), TrimOrNone(GetOr(row, FiberDosageColumn, ""))),
      Get(row, ManufactureColumn),
      SafeInt(Get(row, CountColumn)),
      SlotFlags(variant, row, events),
      IsYes(GetOr(row, GifColumn, "")),
      Get(row, NotesColumn))
  }

  /** `convert_master_to_json`: the `pixels` list. */
  function ConvertMaster(variant: Variant, rows: seq<Row>, generations: map<int, string>,
                         states: map<int, string>, events: set<int>): seq<Pixel> {
    KeepMap(rows, HasPixelNumber, row => PixelOf(variant, row, generations, states, events))
  }

  /** One pixel per numbered row, in table order, each built from its row
      and so carrying that row's number. */
  lemma ConvertMasterRows(variant: Variant, rows: seq<Row>, generations: map<int, string>,
                          states: map<int, string>, events: set<int>)
    ensures var pixels := ConvertMaster(variant, rows, generations, states, events);
      && |pixels| == |Filter(rows, HasPixelNumber)|
      && forall k :: 0 <= k < |pixels| ==>
           && pixels[k] == PixelOf(variant, Filter(rows, HasPixelNumber)[k], generations, states, events)
           && pixels[k].pixelNumber == ParseInt(Filter(rows, HasPixelNumber)[k][PixelNumberColumn])
  {
    KeepMapOfFilter(rows, HasPixelNumber, row => PixelOf(variant, row, generations, states, events));
  }

  /** The two flag rules agree on the table's usual cells: `"1"`, `"0"` and
      blank, with or without surrounding whitespace. */
  lemma FlagRulesAgree(cell: string)
    requires Trim(cell) == "1" || Trim(cell) == "0" || Trim(cell) == ""
    ensures SlotFlag(Public, cell) <==> Trim(cell) == "1"
    ensures SlotFlag(Legacy, cell) <==> Trim(cell) == "1"
  {
    var t := Trim(cell);
    if t != "" {
      TrimUnchanged(t);
      ParseDigits(t);
      assert DigitsValue(t) == DigitValue(t[0]);
    }
  }

  /** On a digit cell the older rule marks every nonzero value, the newer
      one only the value 1 written without leading zeros. */
  lemma FlagRulesOnDigits(cell: string)
    requires |Trim(cell)| > 0 && AllDigits(Trim(cell))
    ensures SlotFlag(Legacy, cell) <==> DigitsValue(Trim(cell)) != 0
    ensures SlotFlag(Public, cell) ==> DigitsValue(Trim(cell)) == 1
  {
    var t := Trim(cell);
    TrimIsSlice(cell);
    TrimUnchanged(t);
    ParseDigits(t);
    if t == "1" {
      assert DigitsValue(t) == DigitValue(t[0]);
    }
  }

  /** So `"2"` marks a slot only under the older rule. */
  lemma FlagRulesDiffer()
    ensures SlotFlag(Legacy, "2") && !SlotFlag(Public, "2")
  {
    var t := "2";
    TrimUnchanged(t);
    assert AllDigits(t) by { assert IsDigit(t[0]); }
    assert DigitsValue(t) == DigitValue(t[0]) == 2;
    FlagRulesOnDigits(t);
  }
}
