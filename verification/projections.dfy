/** The two views `main` writes for the web front end, built from the
    `pixels` list of `convert_master_to_json` and the timelines of
    `create_timeline_json`: one file per pixel (`create_individual_pixel_files`)
    and the summary list `pixels.json` (`create_simplified_pixels_json`).
    Both exist only in the `public/` copy of the script. */
module Projections {
  import opened Wrappers
  import opened Numbers
  import opened Rows
  import opened Lists
  import opened Lookup
  import OM = OrderedMap
  import opened Master
  import opened Timeline

  function TimelineKey(t: PixelTimeline): Option<int> {
    Some(t.pixelNumber)
  }

  function Same(t: PixelTimeline): PixelTimeline {
    t
  }

  /** `timeline_lookup`: pixel number to timeline, the last one winning. */
  function TimelineLookup(timelines: seq<PixelTimeline>): (lookup: map<int, PixelTimeline>)
    ensures lookup.Keys == set i | 0 <= i < |timelines| :: timelines[i].pixelNumber
  {
    LastWins(timelines, TimelineKey, Same)
  }

  /** A pixel's timeline is found under its number when no later timeline
      carries the same number. */
  lemma TimelineLookupFinds(timelines: seq<PixelTimeline>, i: nat)
    requires i < |timelines|
    requires forall j :: i < j < |timelines| ==> timelines[j].pixelNumber != timelines[i].pixelNumber
    ensures timelines[i].pixelNumber in TimelineLookup(timelines)
    ensures TimelineLookup(timelines)[timelines[i].pixelNumber] == timelines[i]
  {
    LastWinsValue(timelines, TimelineKey, Same, i);
  }

  // ---------------------------------------------------------------------
  // One file per pixel

  /** A pixel record with its serial and its timeline (or the empty one). */
  datatype PixelFile = PixelFile(pixel: Pixel, serial: string, timeline: seq<Entry>, totalEmissions: real, totalDistance: real)

  /** `f"{n:04d}"` of the pixel's number; a pixel without one never gets
      this far. */
  function Serial(p: Pixel): string {
    if p.pixelNumber.Some? then Pad4(p.pixelNumber.value) else ""
  }

  /** The file of one pixel: its timeline and totals when the lookup has its
      number, otherwise no timeline and zero totals. */
  function PixelFileOf(lookup: map<int, PixelTimeline>, p: Pixel): (f: PixelFile)
    ensures f.pixel == p
    ensures p.pixelNumber.Some? ==> ParseInt(f.serial) == p.pixelNumber && |f.serial| >= 4
    ensures p.pixelNumber.Some? && p.pixelNumber.value in lookup ==>
      var t := lookup[p.pixelNumber.value];
      f.timeline == t.timeline && f.totalEmissions == t.totalEmissions && f.totalDistance == t.totalDistance
    ensures (p.pixelNumber.None? || p.pixelNumber.value !in lookup) ==>
      f.timeline == [] && f.totalEmissions == 0.0 && f.totalDistance == 0.0
  {
    match p.pixelNumber
    case None => PixelFile(p, Serial(p), [], 0.0, 0.0)
    case Some(n) =>
      Pad4RoundTrip(n);
      if n in lookup then
        PixelFile(p, Serial(p), lookup[n].timeline, lookup[n].totalEmissions, lookup[n].totalDistance)
      else PixelFile(p, Serial(p), [], 0.0, 0.0)
  }

  function FileMaker(lookup: map<int, PixelTimeline>): Pixel -> PixelFile {
    (p: Pixel) => PixelFileOf(lookup, p)
  }

  /** Formatting a missing number as `04d` raises `TypeError`. */
  function TryFileMaker(lookup: map<int, PixelTimeline>): Pixel -> Result<PixelFile, PyError> {
    (p: Pixel) => if p.pixelNumber.None? then Failure(TypeError) else Success(PixelFileOf(lookup, p))
  }

  function SerialKey(p: Pixel): Option<string> {
    Some(Serial(p))
  }

  /** `create_individual_pixel_files`: serial to file, in pixel order, a
      later pixel with the same serial replacing the earlier one. */
  function PixelFiles(pixels: seq<Pixel>, timelines: seq<PixelTimeline>): Result<map<string, PixelFile>, PyError> {
    TryLastWins(pixels, SerialKey, TryFileMaker(TimelineLookup(timelines)))
  }

  /** The files are written exactly when every pixel has a number, and then
      they are the last file per serial. */
  lemma PixelFilesResult(pixels: seq<Pixel>, timelines: seq<PixelTimeline>)
    ensures PixelFiles(pixels, timelines).Success? <==>
      forall i :: 0 <= i < |pixels| ==> pixels[i].pixelNumber.Some?
    ensures PixelFiles(pixels, timelines).Success? ==>
      PixelFiles(pixels, timelines).value == LastWins(pixels, SerialKey, FileMaker(TimelineLookup(timelines)))
  {
    var lookup := TimelineLookup(timelines);
    TryLastWinsSucceeds(pixels, SerialKey, TryFileMaker(lookup), FileMaker(lookup));
  }

  /** Distinct pixel numbers get distinct serials. */
  lemma SerialInjective(p: Pixel, q: Pixel)
    requires p.pixelNumber.Some? && q.pixelNumber.Some?
    requires Serial(p) == Serial(q)
    ensures p.pixelNumber == q.pixelNumber
  {
    Pad4RoundTrip(p.pixelNumber.value);
    Pad4RoundTrip(q.pixelNumber.value);
  }

  /** The file of a pixel whose number no later pixel repeats is stored
      under its serial, and it carries that pixel's own record. */
  lemma PixelFileOfLastPixel(pixels: seq<Pixel>, timelines: seq<PixelTimeline>, i: nat)
    requires PixelFiles(pixels, timelines).Success?
    requires i < |pixels|
    requires forall j :: i < j < |pixels| ==> pixels[j].pixelNumber != pixels[i].pixelNumber
    ensures Serial(pixels[i]) in PixelFiles(pixels, timelines).value
    ensures PixelFiles(pixels, timelines).value[Serial(pixels[i])] == PixelFileOf(TimelineLookup(timelines), pixels[i])
  {
    var lookup := TimelineLookup(timelines);
    PixelFilesResult(pixels, timelines);
    forall j | i < j < |pixels| ensures SerialKey(pixels[j]) != SerialKey(pixels[i]) {
      if Serial(pixels[j]) == Serial(pixels[i]) {
        SerialInjective(pixels[j], pixels[i]);
      }
    }
    LastWinsValue(pixels, SerialKey, FileMaker(lookup), i);
  }

  // ---------------------------------------------------------------------
  // The summary list

  /** One entry of `pixels.json`. */
  datatype Summary = Summary(
    pixelNumber: int,
    serial: string,
    generation: Option<int>,
    state: Option<int>,
    stateDescription: Option<string>,
    numberOfReconfigurations: Option<int>,
    distanceTraveled: real,
    dateOfManufacture: Option<string>,
    totalEmissions: real,
    emissionsOverTime: OM.OMap<string, real>)

  /** Entries with a non-empty date give a point of `emissions_over_time`. */
  function DateKey(e: Entry): Option<string> {
    if e.date.Some? && e.date.value != "" then Some(e.date.value) else None
  }

  function RunningTotal(e: Entry): real {
    e.emissions.runningTotal
  }

  /** `emissions_over_time`: date to running total, dates in the order they
      first occur, a later entry with the same date replacing the value. */
  function EmissionsOverTime(entries: seq<Entry>): (points: OM.OMap<string, real>)
    ensures OM.DistinctKeys(points)
  {
    OM.FromSeq(entries, DateKey, RunningTotal)
  }

  /** Each date maps to the running total of the last entry with that date. */
  lemma EmissionsOverTimeLatest(entries: seq<Entry>, i: nat)
    requires i < |entries| && DateKey(entries[i]).Some?
    requires forall j :: i < j < |entries| ==> DateKey(entries[j]) != DateKey(entries[i])
    ensures OM.Get(EmissionsOverTime(entries), entries[i].date.value) == Some(entries[i].emissions.runningTotal)
  {
    LastWinsValue(entries, DateKey, RunningTotal, i);
    OM.FromSeqGet(entries, DateKey, RunningTotal, entries[i].date.value);
  }

  /** A date that no entry carries is not a point. */
  lemma EmissionsOverTimeDates(entries: seq<Entry>, d: string)
    ensures OM.Get(EmissionsOverTime(entries), d).Some? <==>
      exists i :: 0 <= i < |entries| && DateKey(entries[i]) == Some(d)
  {
    OM.FromSeqGet(entries, DateKey, RunningTotal, d);
    var m := LastWins(entries, DateKey, RunningTotal);
    if d in m {
      var i :| 0 <= i < |entries| && DateKey(entries[i]).Some? && DateKey(entries[i]).value == d;
    }
    if exists i :: 0 <= i < |entries| && DateKey(entries[i]) == Some(d) {
      var i :| 0 <= i < |entries| && DateKey(entries[i]) == Some(d);
      assert d == DateKey(entries[i]).value;
    }
  }

  /** The summary of one pixel: its totals and points from the lookup when
      it has the pixel's number, zeros and no points otherwise. A pixel
      without a number raises `TypeError` when its serial is formatted. */
  function SummaryOf(lookup: map<int, PixelTimeline>, p: Pixel): (r: Result<Summary, PyError>)
    ensures r.Failure? <==> p.pixelNumber.None?
    ensures r.Failure? ==> r.error == TypeError
    ensures r.Success? ==>
      && r.value.pixelNumber == p.pixelNumber.value
      && ParseInt(r.value.serial) == p.pixelNumber
      && r.value.generation == p.generation && r.value.state == p.state
      && r.value.stateDescription == p.stateDescription
      && r.value.numberOfReconfigurations == p.numberOfReconfigurations
      && r.value.dateOfManufacture == p.dateOfManufacture
    ensures r.Success? && p.pixelNumber.value in lookup ==>
      var t := lookup[p.pixelNumber.value];
      && r.value.distanceTraveled == t.totalDistance
      && r.value.totalEmissions == t.totalEmissions
      && r.value.emissionsOverTime == EmissionsOverTime(t.timeline)
    ensures r.Success? && p.pixelNumber.value !in lookup ==>
      r.value.distanceTraveled == 0.0 && r.value.totalEmissions == 0.0 && r.value.emissionsOverTime == []
  {
    match p.pixelNumber
    case None => Failure(TypeError)
    case Some(n) =>
      Pad4RoundTrip(n);
      var found := n in lookup;
      Success(Summary(
        n, Pad4(n), p.generation, p.state, p.stateDescription, p.numberOfReconfigurations,
        if found then lookup[n].totalDistance else 0.0,
        p.dateOfManufacture,
        if found then lookup[n].totalEmissions else 0.0,
        if found then EmissionsOverTime(lookup[n].timeline) else []))
  }

  function SummaryMaker(lookup: map<int, PixelTimeline>): Pixel -> Result<Summary, PyError> {
    (p: Pixel) => SummaryOf(lookup, p)
  }

  /** `create_simplified_pixels_json`: built exactly when every pixel has a
      number, and then one summary per pixel, in pixel order, each carrying
      its pixel's number and a serial that reads back as that number. */
  function SimplifiedPixels(pixels: seq<Pixel>, timelines: seq<PixelTimeline>): (r: Result<seq<Summary>, PyError>)
    ensures r.Success? <==> forall i :: 0 <= i < |pixels| ==> pixels[i].pixelNumber.Some?
    ensures r.Success? ==> |r.value| == |pixels|
    ensures r.Success? ==> forall i :: 0 <= i < |pixels| ==>
      && r.value[i] == SummaryOf(TimelineLookup(timelines), pixels[i]).value
      && Some(r.value[i].pixelNumber) == pixels[i].pixelNumber
      && ParseInt(r.value[i].serial) == pixels[i].pixelNumber
  {
    TryMap(pixels, SummaryMaker(TimelineLookup(timelines)))
  }

  /** The summary and the pixel file of the same pixel agree on its serial
      and its totals. */
  lemma SummaryMatchesFile(lookup: map<int, PixelTimeline>, p: Pixel)
    requires p.pixelNumber.Some?
    ensures SummaryOf(lookup, p).value.serial == PixelFileOf(lookup, p).serial
    ensures SummaryOf(lookup, p).value.totalEmissions == PixelFileOf(lookup, p).totalEmissions
    ensures SummaryOf(lookup, p).value.distanceTraveled == PixelFileOf(lookup, p).totalDistance
  {
  }
}
