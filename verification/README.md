# Pixel carbon pipeline — a Dafny model

This project models the data core of a site about reconfigurable concrete
"pixels". Each pixel is a precast component that is moved between building
projects. The core has two parts.

**The CSV → JSON conversion script.** It exists in two near-identical copies:
`public/data/originals/translate_to_json.py` and the older
`src/data/originals/translate_to_json.py`. It reads two tables and two lookups:

- an event table (`carbon_location.csv`): one reconfiguration per row, with its
  location, transport and emission figures;
- a master table (`master.csv`): one pixel per row, with up to fifteen
  `Reconfiguration <n>` slot columns;
- two small code-to-description lookups.

From these it builds:

- the event list (`convert_carbon_locations_to_json`);
- the pixel list (`convert_master_to_json`);
- per-pixel timelines (`create_timeline_json`). A timeline walks a pixel's
  applied slots in column order. It numbers the steps and keeps a running
  emission total and a running distance;
- two views for the front end, in the `public/` copy only: one file per pixel
  (`create_individual_pixel_files`) and a summary list
  (`create_simplified_pixels_json`).

**Two Redux slices of the front end.** `src/store/cardSlice.js` records whether
the pixel card is expanded and whether it shows its detail view.
`src/store/loadingSlice.js` records whether the intro has been shown.

## How the model is built

- A table row is a `map<string, string>` from column name to cell text (`Rows`).
- A Python exception that ends the run is a `Failure` of a `Result`
  (`KeyError`, `ValueError`, `IndexError`, `TypeError`). It is raised in
  Python's evaluation order.
- The datatype `Variant = Public | Legacy` selects the behaviour of one of the
  two copies wherever they differ:
  - the `serial` field of an event;
  - the rule that turns a slot cell into a flag;
  - which slots get a key.
- `int()` and `float()` are concrete parsers of plain decimal text (`Numbers`).
  Numbers are mathematical integers and reals.
- Python's loops are folds over sequences (`Lists`, `Lookup`):
  - "skip the row, else append";
  - "the first exception ends the run";
  - "a later key overwrites an earlier one".
- Where dict insertion order is observable, a dict is a sequence of pairs
  (`OrderedMap`). This applies to the slot-column index and to
  `emissions_over_time`.
- The timeline loop is `Timeline.Walk`. Its properties are proved by induction
  over the applied-slot list.
- Each Redux slice is a state record, an action datatype and a reducer. A
  dispatch trace is folded with `Run`.

Behaviour of the code worth knowing:

- **Slot order.** The applied slots follow the master table's column order.
  This is dict insertion order, not ascending slot number.
  `Timeline.AppliedSlotsInHeaderOrder` shows that the applied slots are the
  marked titles' numbers in title order when no two titles name the same
  slot. `Timeline.AppliedSlotsIncreasing` shows that this order is ascending
  when the titles are.
- **Step numbers.** A step is the 1-based position of a slot in the applied
  list. A slot without an event record is skipped and leaves a gap. Steps are
  not renumbered densely; `Timeline.WalkDense` shows they are 1, 2, 3, …
  when every slot resolves.
- **A1-A3 emissions.** They are counted only at step 1, meaning the first
  applied slot. If that slot has no event record, no entry carries A1-A3
  emissions (`Timeline.UnresolvedFirstSlot`).
- **Malformed rows.** A malformed event row does not degrade to null: `int()`,
  `float()` and `row[key]` raise and end the whole run (`Events.ConvertEvents`).
  Likewise, the timeline loader raises on a coordinate without a comma, or with
  a blank or unreadable longitude (`CarbonData.LoaderLongitude`); its other
  figures go through `safe_float` and read as 0 when unreadable. The model
  makes these failures rather than preconditions.
- **Western longitudes.** The event parser negates a longitude when the text
  contains a bare `W`. The timeline loader does so when the text contains
  `° W`.
- **Slot flags.**
  - In the `public/` copy, a slot gets a key when its column exists, and the
    flag is true when the trimmed cell is exactly `1`.
  - In the `src/` copy, a slot gets a key when its number is an event number,
    and the flag is true when the trimmed cell reads as a nonzero integer.

## Model

| member | source | states |
|---|---|---|
| Numbers.Pad4RoundTrip | public/data/originals/translate_to_json.py:82 | the `04d` serial of any integer is at least four characters, exactly four digits for 0..9999, and `int()` reads it back as the same number |
| Numbers.DecimalTextRoundTrip | public/data/originals/translate_to_json.py:120 | `int(str(i)) == i` for the slot numbers written into column titles |
| Rows.Cell | public/data/originals/translate_to_json.py:68 | `row[key]` fails with `KeyError` exactly when the column is missing |
| Rows.FloatOrNone | public/data/originals/translate_to_json.py:93-95 | a missing column raises `KeyError`; a present but empty cell is null, and no other cell is; any other cell is `float()` of its text, or raises `ValueError` when `float()` rejects it |
| Rows.FloatOrZero | public/data/originals/translate_to_json.py:97 | a missing column raises `KeyError`; a present but empty cell reads as 0; any other cell is `float()` of its text, or raises `ValueError` |
| Events.ParseCoordinates | public/data/originals/translate_to_json.py:72-77 | latitude is the first comma piece; longitude is the second, negated exactly when the text holds `W`, and null when western and zero; a one-piece text raises `IndexError` after the latitude is read |
| Events.FloatIfPresent | public/data/originals/translate_to_json.py:73-75 | a piece that is blank after trimming is null; any other piece is `float()` of it, or raises `ValueError` |
| Events.ParseCoordinatesWest | public/data/originals/translate_to_json.py:71-77 | `<lat>° N,<lon>° W` reads as the latitude and the negated longitude, which is null when zero |
| Events.ParseCoordinatesEast | public/data/originals/translate_to_json.py:71-77 | `<lat>° N,<lon>° E` reads as the two numbers as written when neither holds a `W` |
| Events.Western | public/data/originals/translate_to_json.py:77 | `-lon if lon else None`: null exactly for a null or zero longitude, otherwise negated |
| Events.SerialOf | public/data/originals/translate_to_json.py:82 | only the `public/` copy emits a serial, and it reads back as the event number |
| Events.ParseEvent | public/data/originals/translate_to_json.py:68-82 | a row with a blank number is skipped; a parsed event's number is its cell read by `int()`; its coordinates, name, description, date, location name and figures are read from its own cells (`ReadsRow`), and its serial is the one `SerialOf` gives |
| Events.ParseNumbered | public/data/originals/translate_to_json.py:71-104 | a missing coordinates column raises `KeyError` before anything else; a built event carries the coordinates `ParseCoordinates` reads from its cell, the date `DateOf` makes of its date cell, the figures `ParseFigures` reads, the name, description and location name as written, and the serial of its number |
| Events.DateOf | public/data/originals/translate_to_json.py:85 | a blank date is null; any other date is kept trimmed |
| Events.ParseFigures | public/data/originals/translate_to_json.py:93-102 | succeeds exactly when each of the eight cells reads and the transport type is present; then pixel weight, coefficients, A1-A3 and total are each their column read by `FloatOrNone`, distance and A4 by `FloatOrZero`, and the type is the cell as written |
| Events.ConvertEvents | public/data/originals/translate_to_json.py:61-106 | the run succeeds exactly when every row's `ParseEvent` does; a failing run reports the error of the first failing row |
| Events.ConvertEventsNumberedRows | public/data/originals/translate_to_json.py:61-106 | a successful conversion emits exactly one event per row with a non-blank number, in table order, each carrying that row's number |
| Events.ConvertEventsSerials | src/data/originals/translate_to_json.py:79-101 | every emitted event has a serial in the `public/` copy and none in the `src/` copy, and each serial reads back as its event's number |
| Events.NumberKey | src/data/originals/translate_to_json.py:52-53 | a row is keyed exactly when its number is present, non-blank, and reads as a nonzero integer |
| Events.LoadReconfigurations | src/data/originals/translate_to_json.py:46-59 | the lookup's numbers are exactly the keyed rows' numbers, and 0 is never one of them |
| Events.LoadReconfigurationsKeys | public/data/originals/translate_to_json.py:51-58 | every keyed row's number is in the lookup, mapped to the name, description and date of the last row carrying it |
| CarbonData.LoaderLongitude | public/data/originals/translate_to_json.py:170-171 | no comma raises `IndexError`; with a comma it succeeds exactly when the second piece, stripped of markers and trimmed, is read by `safe_float`, and otherwise raises `TypeError`; a success is that value, negated exactly when the text holds `° W` |
| CarbonData.LoaderLatitudeMarked | public/data/originals/translate_to_json.py:169 | `<lat>° N<rest>` yields the latitude `lat` reads as |
| CarbonData.LoaderLongitudeMarked | public/data/originals/translate_to_json.py:170-171 | `<lat>,<x>° W` yields `-x` and `<lat>,<x>° E` yields `x` |
| CarbonData.WesternMarkers | public/data/originals/translate_to_json.py:171 | the loader's marker `° W` implies the event parser's bare `W` |
| CarbonData.FloatOrZero | public/data/originals/translate_to_json.py:176-179 | a missing or blank figure reads as 0, a readable one as its value, and an unreadable one as 0 as well, because `safe_float` swallows the `ValueError` |
| CarbonData.RecordOf | public/data/originals/translate_to_json.py:162-179 | a record fails exactly when its longitude does; otherwise name, description, date, location name and transport type are the cells as `safe_get` reads them, the latitude is `LoaderLatitude` of the coordinates, and distance, A4 and A1-A3 are `FloatOrZero` of their cells |
| CarbonData.LoadCarbonDataLastWins | public/data/originals/translate_to_json.py:154-180 | the loader succeeds exactly when every keyed row's record does, and then keeps the last record per number |
| CarbonData.LoadCarbonDataKeys | public/data/originals/translate_to_json.py:158-162 | the loader's numbers are those of `load_reconfigurations` |
| Master.SlotFlagsFrom | public/data/originals/translate_to_json.py:117-124 | slot keys `i..15` are exactly the slots the copy's rule admits, and each value is that copy's flag of the slot cell |
| Master.SlotFlags | public/data/originals/translate_to_json.py:117-124 | slot keys 1..15 are exactly those whose column exists (public) or whose number is an event number (src), and each value is that copy's flag of the cell |
| Master.FlagRulesAgree | src/data/originals/translate_to_json.py:115-119 | both flag rules read `1` as true and `0` or blank as false |
| Master.FlagRulesOnDigits | src/data/originals/translate_to_json.py:115-119 | on a digit cell the `src/` rule marks every nonzero value, the `public/` rule only value 1 |
| Master.FlagRulesDiffer | src/data/originals/translate_to_json.py:119 | `2` marks a slot under the `src/` rule but not under the `public/` rule |
| Master.TrimOrNone | public/data/originals/translate_to_json.py:138-141 | `strip() or None`: null exactly when nothing is left after trimming, else the trimmed text |
| Master.TrimOrNoneStable | public/data/originals/translate_to_json.py:138 | a kept value is already trimmed |
| Master.Describe | public/data/originals/translate_to_json.py:132-133 | a description is present exactly for a nonzero code that the lookup has, and it is the lookup's entry |
| Master.PixelOf | public/data/originals/translate_to_json.py:126-148 | the pixel's number, generation, state and reconfiguration count are their cells read by `safe_int`, and strength and weight by `safe_float`; each description is present exactly for a nonzero code the lookup has, and is that lookup entry; concrete mix and both fiber fields are their trimmed cells or null; `gif` holds exactly when the cell is `yes` in any case; manufacture date and notes are copied; the slot map is `SlotFlags` |
| Master.ConvertMasterRows | public/data/originals/translate_to_json.py:108-151 | one pixel per row with a non-blank number, in table order, each built from and numbered by its row |
| Timeline.ReconfigColumns | public/data/originals/translate_to_json.py:187-194 | the slot-column index holds each slot number once, and its numbers are exactly those the titles name |
| Timeline.AppliedSlotsInHeaderOrder | public/data/originals/translate_to_json.py:187-204 | when no two titles name the same slot, a row's applied slots are the numbers of its marked slot titles, in title order |
| OrderedMap.FromSeqPairs | public/data/originals/translate_to_json.py:187-194 | filling a dict from items with pairwise distinct keys keeps every keyed item's pair, in item order |
| Timeline.SlotTitleNumber | public/data/originals/translate_to_json.py:188-192 | the title `Reconfiguration <n>` names slot `n` |
| Timeline.SlotTitleNoted | public/data/originals/translate_to_json.py:191 | so does `Reconfiguration <n> (<note>`: text from the first `(` on is ignored |
| Timeline.AppliedSlotsMembers | public/data/originals/translate_to_json.py:187-204 | a slot is applied exactly when its number comes from the titles and its (last) column is marked |
| Timeline.AppliedSlotsIncreasing | public/data/originals/translate_to_json.py:201-204 | titles in increasing slot order give applied slots in increasing order |
| Timeline.WalkStepsNameSlots | public/data/originals/translate_to_json.py:213-217 | every entry's step is a position of the applied list that holds the entry's slot, and that slot has an event record |
| Timeline.WalkStepsIncrease | public/data/originals/translate_to_json.py:213-245 | steps strictly increase along the timeline |
| Timeline.WalkStepsCover | public/data/originals/translate_to_json.py:213-215 | a position has an entry exactly when its slot has an event record, so unresolved slots leave gaps |
| Timeline.WalkReports | public/data/originals/translate_to_json.py:217-243 | each entry copies its event's fields; its step total is A1-A3 plus transport; A1-A3 is nonzero only at step 1 |
| Timeline.WalkAccumulates | public/data/originals/translate_to_json.py:223-241 | each running total is the previous one plus the step total, and each cumulative distance is the previous one plus the step distance |
| Timeline.WalkTotals | public/data/originals/translate_to_json.py:247-252 | the totals are the last entry's running values, and zero when nothing resolved |
| Timeline.WalkSums | public/data/originals/translate_to_json.py:209-252 | the totals are the sums of the step totals and step distances |
| Timeline.WalkDense | public/data/originals/translate_to_json.py:213 | when every applied slot resolves, the steps are 1, 2, 3, … in slot order |
| Timeline.A1A3AtFirstSlotOnly | public/data/originals/translate_to_json.py:219 | only the first entry can carry A1-A3, and does exactly when the first applied slot resolves |
| Timeline.TwoResolvedSlots | public/data/originals/translate_to_json.py:213-245 | two resolved slots give steps 1 and 2, with A1-A3 at step 1 only and totals that add up |
| Timeline.UnresolvedFirstSlot | public/data/originals/translate_to_json.py:213-219 | an unresolved first slot leaves step 2 alone and no A1-A3 emissions at all |
| Timeline.PixelTimelineOf | public/data/originals/translate_to_json.py:196-254 | every emitted timeline has a nonzero pixel number, at least one entry, and totals equal to its last entry's running values |
| Timeline.WalkNonEmpty | public/data/originals/translate_to_json.py:247 | the walk reports something exactly when some applied slot resolves |
| Timeline.PixelTimelineExists | public/data/originals/translate_to_json.py:196-207 | a row has a timeline exactly when its pixel number is a nonzero integer and some applied slot resolves |
| Timeline.BuildTimelinesComplete | public/data/originals/translate_to_json.py:182-256 | no empty timeline is ever listed, and each carries its last entry's totals |
| Timeline.BuildTimelinesRows | public/data/originals/translate_to_json.py:196-256 | the list holds exactly one timeline per master row that has one, in row order, each that row's `PixelTimelineOf` |
| Timeline.CreateTimelineJson | public/data/originals/translate_to_json.py:153-256 | the run fails exactly when the event loader does; otherwise it lists the timelines of the master rows that have one, in row order |
| Projections.TimelineLookup | public/data/originals/translate_to_json.py:263 | the lookup's keys are exactly the timelines' pixel numbers |
| Projections.TimelineLookupFinds | public/data/originals/translate_to_json.py:263 | a timeline whose number no later one repeats is found under it |
| Projections.PixelFileOf | public/data/originals/translate_to_json.py:265-281 | the pixel record is copied unchanged; the serial reads back as its number; timeline and totals come from the lookup, else `[]` and zeros |
| Projections.PixelFilesResult | public/data/originals/translate_to_json.py:258-286 | the files are built exactly when every pixel has a number, and then hold the last file per serial |
| Projections.SerialInjective | public/data/originals/translate_to_json.py:284 | distinct pixel numbers get distinct serials |
| Projections.PixelFileOfLastPixel | public/data/originals/translate_to_json.py:265-284 | a pixel whose number no later pixel repeats is stored under its serial with its own file |
| Projections.EmissionsOverTime | public/data/originals/translate_to_json.py:301-311 | `emissions_over_time` holds each date once |
| Projections.EmissionsOverTimeLatest | public/data/originals/translate_to_json.py:308-311 | each date maps to the running total of the last entry with that date |
| Projections.EmissionsOverTimeDates | public/data/originals/translate_to_json.py:308-311 | a date is a point exactly when some entry carries it (non-empty) |
| Projections.SummaryOf | public/data/originals/translate_to_json.py:295-324 | a pixel without a number raises `TypeError`; otherwise the copied fields equal the pixel's, the serial reads back as its number, and totals and points come from the lookup, else zeros and none |
| Projections.SummaryMatchesFile | public/data/originals/translate_to_json.py:258-324 | a pixel's summary and its file agree on the serial, the total emissions and the distance |
| Projections.SimplifiedPixels | public/data/originals/translate_to_json.py:288-327 | built exactly when every pixel has a number; then one summary per pixel, in order, with matching number and serial |
| CardSlice.Reduce | src/store/cardSlice.js:10-18 | `setExpanded(p)` sets only `isExpanded`; `setDetailView(true)` shows the detail view and expands the card; `setDetailView(false)` hides it and leaves `isExpanded` alone |
| CardSlice.ReduceIdempotent | src/store/cardSlice.js:10-18 | dispatching the same action twice leaves the state it leaves once |
| CardSlice.RunExpanded | src/store/cardSlice.js:5-18 | from the initial state, the card is expanded exactly when the last action that sets the flag set it to true |
| CardSlice.RunDetailView | src/store/cardSlice.js:5-18 | from the initial state, the detail view is shown exactly when the last `setDetailView` had payload true |
| CardSlice.DetailOnCollapsedCard | src/store/cardSlice.js:10-18 | collapsing the card does not close the detail view |
| LoadingSlice.Reduce | src/store/loadingSlice.js:8-12 | the intro is shown afterwards exactly when it was before or the action is `setIntroShown` |
| LoadingSlice.ReduceIdempotent | src/store/loadingSlice.js:9-11 | dispatching `setIntroShown` (or any action) twice leaves the state it leaves once |
| LoadingSlice.RunShown | src/store/loadingSlice.js:5-12 | from the initial state, the intro is shown exactly when `setIntroShown` was dispatched |
| LoadingSlice.RunMonotone | src/store/loadingSlice.js:8-12 | once shown, the intro stays shown whatever follows |

## Left out

- File and CSV plumbing: `open`, `csv.DictReader`, `json.dump`, `os.makedirs` and both `main` functions. The tables are inputs to the model: rows as maps, the master header as a list.
- `load_generation_descriptions` and `load_state_legend`: thin reader loops whose results are lookup parameters here.
- Short CSV rows. `DictReader` fills missing cells with `None`; the model's rows hold every column as text.
- `int()` and `float()` beyond plain decimal text: exponents, `inf`/`nan`, underscores and non-ASCII digits parse as `None` here. Reals are exact; IEEE rounding is not modelled.
- The JSON number `0` (an `int`) written for missing totals and figures is modelled as the real `0.0`.
- `str.lower()` is modelled on ASCII letters only, which gives the same verdict for the one comparison it serves (`== 'yes'`).
- The `carbon_emissions_a1_a3` field of a pixel, which is always `null`.
- JSON key order. The model keeps insertion order only where it shapes a result: the slot columns and `emissions_over_time`.
- The Redux action payloads are modelled as booleans. JavaScript truthiness of other payloads is not modelled.
- The Redux store wiring and all React, Three.js and D3 components: rendering, timers and randomness.
- Text.TrimLeft and Text.TrimRight: their contracts give only the length bound. What `lstrip` and `rstrip` remove is stated by Text.TrimLeftShape and Text.TrimRightShape.
