/** `create_timeline_json`: the master table's slot columns, each pixel's
    applied slots in column order, and the walk over them that numbers the
    steps and keeps the running emission and distance totals. The two
    copies of the script share this function unchanged. */
module Timeline {
  import opened Wrappers
  import opened Text
  import opened Numbers
  import opened Rows
  import opened Lists
  import opened Lookup
  import OM = OrderedMap
  import opened CarbonData
  import Master

  const SlotPrefix := Master.SlotWord

  /** The slot number a master column title names: for a title starting with
      `Reconfiguration`, the text before any `(`, without the word, trimmed
      and read by `int()`; `None` where `int()` raises and the loop skips. */
  function SlotNumberOf(header: string): Option<int> {
    if !StartsWith(header, SlotPrefix) then None
    else ParseInt(Trim(Replace(Split(header, "(")[0], SlotPrefix, "")))
  }

  function Title(header: string): string {
    header
  }

  /** `reconfig_columns`: slot number to column title, in the order the
      numbers first appear among the titles; a later title with the same
      number replaces the earlier one in place. */
  function ReconfigColumns(headers: seq<string>): (columns: OM.OMap<int, string>)
    ensures OM.DistinctKeys(columns)
    ensures forall i :: 0 <= i < |headers| && SlotNumberOf(headers[i]).Some? ==>
      SlotNumberOf(headers[i]).value in OM.Keys(columns)
    ensures forall j :: 0 <= j < |columns| ==>
      exists i :: 0 <= i < |headers| && SlotNumberOf(headers[i]) == Some(columns[j].0)
  {
    OM.FromSeqKeySet(headers, SlotNumberOf, Title);
    OM.FromSeq(headers, SlotNumberOf, Title)
  }

  /** A slot column marks a pixel when its trimmed cell is exactly `1`. */
  predicate Marked(row: Row, column: string) {
    Trim(GetOr(row, column, "")) == "1"
  }

  /** Strictly increasing. */
  predicate Increasing(xs: seq<int>) {
    forall a, b :: 0 <= a < b < |xs| ==> xs[a] < xs[b]
  }

  /** The test `Marked` for one master row. */
  function MarkedIn(row: Row): string -> bool {
    column => Marked(row, column)
  }

  /** The applied slots of one master row, in column order: the slot numbers
      of the columns `marked` accepts (`MarkedIn(row)`). */
  function AppliedSlots(columns: OM.OMap<int, string>, marked: string -> bool): (applied: seq<int>)
    ensures |applied| <= |columns|
  {
    if |columns| == 0 then []
    else (if marked(columns[0].1) then [columns[0].0] else []) + AppliedSlots(columns[1..], marked)
  }

  /** Reference reading of the applied slots straight off the titles: the
      slot number of every numbered title `marked` accepts, in title order. */
  function HeaderSlots(headers: seq<string>, marked: string -> bool): seq<int> {
    if |headers| == 0 then []
    else
      var h := headers[|headers| - 1];
      HeaderSlots(headers[..|headers| - 1], marked)
        + (if SlotNumberOf(h).Some? && marked(h) then [SlotNumberOf(h).value] else [])
  }

  lemma {:induction false} AppliedSlotsAppend(a: OM.OMap<int, string>, b: OM.OMap<int, string>, marked: string -> bool)
    ensures AppliedSlots(a + b, marked) == AppliedSlots(a, marked) + AppliedSlots(b, marked)
  {
    if |a| > 0 {
      assert (a + b)[1..] == a[1..] + b;
      AppliedSlotsAppend(a[1..], b, marked);
    } else {
      assert a + b == b;
    }
  }

  lemma {:induction false} PairsSlots(headers: seq<string>, marked: string -> bool)
    ensures AppliedSlots(OM.Pairs(headers, SlotNumberOf, Title), marked) == HeaderSlots(headers, marked)
  {
    if |headers| > 0 {
      var init := headers[..|headers| - 1];
      var h := headers[|headers| - 1];
      PairsSlots(init, marked);
      if SlotNumberOf(h).Some? {
        var tail: OM.OMap<int, string> := [(SlotNumberOf(h).value, h)];
        AppliedSlotsAppend(OM.Pairs(init, SlotNumberOf, Title), tail, marked);
        assert tail[1..] == [];
      }
    }
  }

  /** When no two titles name the same slot, a pixel's applied slots are the
      numbers of its marked slot titles in the order the titles appear. */
  lemma AppliedSlotsInHeaderOrder(headers: seq<string>, marked: string -> bool)
    requires forall i, j :: 0 <= i < j < |headers| && SlotNumberOf(headers[i]).Some? ==>
      SlotNumberOf(headers[i]) != SlotNumberOf(headers[j])
    ensures AppliedSlots(ReconfigColumns(headers), marked) == HeaderSlots(headers, marked)
  {
    OM.FromSeqPairs(headers, SlotNumberOf, Title);
    PairsSlots(headers, marked);
  }

  // ---------------------------------------------------------------------
  // The walk over one pixel's applied slots

  datatype StepEmissions = StepEmissions(a1a3: real, transport: real, stepTotal: real, runningTotal: real)

  datatype StepTransport = StepTransport(kind: Option<string>, distance: real, cumulativeDistance: real)

  datatype Entry = Entry(
    step: nat,
    reconfigurationNumber: int,
    name: Option<string>,
    date: Option<string>,
    location: CarbonLocation,
    emissions: StepEmissions,
    transport: StepTransport,
    description: Option<string>)

  /** The entries of a walk and its two accumulators. */
  datatype Ledger = Ledger(entries: seq<Entry>, emissions: real, distance: real)

  /** The `enumerate(reconfigurations, 1)` loop: a slot with no event record
      is skipped but still uses up its step number, and A1-A3 emissions count
      only at step 1. */
  function Walk(applied: seq<int>, carbon: map<int, CarbonRecord>): Ledger {
    if |applied| == 0 then Ledger([], 0.0, 0.0)
    else
      var before := Walk(applied[..|applied| - 1], carbon);
      var step := |applied|;
      var n := applied[step - 1];
      if n !in carbon then before
      else
        var record := carbon[n];
        var a1a3 := if step == 1 then record.a1a3 else 0.0;
        var stepTotal := a1a3 + record.transport.emissions;
        var emissions := before.emissions + stepTotal;
        var distance := before.distance + record.transport.distance;
        var entry := Entry(
          step, n, record.name, record.date, record.location,
          StepEmissions(a1a3, record.transport.emissions, stepTotal, emissions),
          StepTransport(record.transport.kind, record.transport.distance, distance),
          record.description);
        Ledger(before.entries + [entry], emissions, distance)
  }

  /** An entry reports its event record, its own step total, and A1-A3
      emissions only at step 1. */
  predicate Reports(e: Entry, record: CarbonRecord) {
    && e.name == record.name
    && e.date == record.date
    && e.location == record.location
    && e.description == record.description
    && e.transport.kind == record.transport.kind
    && e.transport.distance == record.transport.distance
    && e.emissions.transport == record.transport.emissions
    && e.emissions.a1a3 == (if e.step == 1 then record.a1a3 else 0.0)
    && e.emissions.stepTotal == e.emissions.a1a3 + e.emissions.transport
  }

  /** One step of the walk: the entries so far are kept, and a resolved
      last slot appends the entry for its position and number. */
  lemma WalkLast(applied: seq<int>, carbon: map<int, CarbonRecord>)
    requires |applied| > 0
    ensures var before := Walk(applied[..|applied| - 1], carbon).entries;
      var es := Walk(applied, carbon).entries;
      var n := applied[|applied| - 1];
      && (n !in carbon ==> es == before)
      && (n in carbon ==>
            && |es| == |before| + 1
            && es[|before|].step == |applied|
            && es[|before|].reconfigurationNumber == n
            && Reports(es[|before|], carbon[n]))
      && forall k :: 0 <= k < |before| ==> es[k] == before[k]
  {
  }

  /** Each entry's step is a position of the applied list that names the
      entry's slot, and that slot has an event record. */
  predicate NamesSlots(applied: seq<int>, carbon: map<int, CarbonRecord>, es: seq<Entry>) {
    forall k :: 0 <= k < |es| ==>
      && 1 <= es[k].step <= |applied|
      && applied[es[k].step - 1] == es[k].reconfigurationNumber
      && es[k].reconfigurationNumber in carbon
  }

  lemma {:induction false} WalkStepsNameSlots(applied: seq<int>, carbon: map<int, CarbonRecord>)
    ensures NamesSlots(applied, carbon, Walk(applied, carbon).entries)
  {
    if |applied| > 0 {
      var init := applied[..|applied| - 1];
      WalkStepsNameSlots(init, carbon);
      WalkLast(applied, carbon);
      var before := Walk(init, carbon).entries;
      var es := Walk(applied, carbon).entries;
      forall k | 0 <= k < |es|
        ensures 1 <= es[k].step <= |applied|
        ensures applied[es[k].step - 1] == es[k].reconfigurationNumber
        ensures es[k].reconfigurationNumber in carbon
      {
        if k < |before| {
          assert es[k] == before[k];
          assert init[before[k].step - 1] == applied[before[k].step - 1];
        }
      }
    }
  }

  /** Steps strictly increase along the timeline. */
  lemma {:induction false} WalkStepsIncrease(applied: seq<int>, carbon: map<int, CarbonRecord>)
    ensures var es := Walk(applied, carbon).entries;
      forall k, l :: 0 <= k < l < |es| ==> es[k].step < es[l].step
  {
    if |applied| > 0 {
      var init := applied[..|applied| - 1];
      WalkStepsIncrease(init, carbon);
      WalkStepsNameSlots(init, carbon);
      WalkLast(applied, carbon);
      var before := Walk(init, carbon).entries;
      var es := Walk(applied, carbon).entries;
      forall k, l | 0 <= k < l < |es| ensures es[k].step < es[l].step {
        assert es[k] == before[k];
        if l < |before| {
          assert es[l] == before[l];
        }
      }
    }
  }

  /** Every applied slot with an event record has the entry whose step is
      its position; a slot without one leaves its step unused. */
  lemma WalkStepsCover(applied: seq<int>, carbon: map<int, CarbonRecord>)
    ensures var es := Walk(applied, carbon).entries;
      forall i :: 0 <= i < |applied| ==>
        (applied[i] in carbon <==> exists k :: 0 <= k < |es| && es[k].step == i + 1)
  {
    WalkStepsNameSlots(applied, carbon);
    WalkStepsCoverResolved(applied, carbon);
  }

  lemma {:induction false} WalkStepsCoverResolved(applied: seq<int>, carbon: map<int, CarbonRecord>)
    ensures var es := Walk(applied, carbon).entries;
      forall i :: 0 <= i < |applied| && applied[i] in carbon ==>
        exists k :: 0 <= k < |es| && es[k].step == i + 1
  {
    if |applied| > 0 {
      var init := applied[..|applied| - 1];
      WalkStepsCoverResolved(init, carbon);
      WalkLast(applied, carbon);
      var before := Walk(init, carbon).entries;
      var es := Walk(applied, carbon).entries;
      forall i | 0 <= i < |applied| && applied[i] in carbon
        ensures exists k :: 0 <= k < |es| && es[k].step == i + 1
      {
        if i < |init| {
          assert init[i] == applied[i];
          var k :| 0 <= k < |before| && before[k].step == i + 1;
          assert es[k] == before[k];
        } else {
          assert es[|before|].step == i + 1;
        }
      }
    }
  }

  /** Every entry reports the record of its event. */
  lemma {:induction false} WalkReports(applied: seq<int>, carbon: map<int, CarbonRecord>)
    ensures var es := Walk(applied, carbon).entries;
      forall k :: 0 <= k < |es| ==>
        es[k].reconfigurationNumber in carbon && Reports(es[k], carbon[es[k].reconfigurationNumber])
  {
    if |applied| > 0 {
      var init := applied[..|applied| - 1];
      WalkReports(init, carbon);
      WalkLast(applied, carbon);
      var before := Walk(init, carbon).entries;
      var es := Walk(applied, carbon).entries;
      forall k | 0 <= k < |es|
        ensures es[k].reconfigurationNumber in carbon && Reports(es[k], carbon[es[k].reconfigurationNumber])
      {
        if k < |before| {
          assert es[k] == before[k];
        }
      }
    }
  }

  /** Each running total is the previous one plus the step total, and each
      cumulative distance the previous one plus the step distance. */
  predicate Accumulates(es: seq<Entry>) {
    && (|es| > 0 ==>
          && es[0].emissions.runningTotal == es[0].emissions.stepTotal
          && es[0].transport.cumulativeDistance == es[0].transport.distance)
    && (forall k :: 0 < k < |es| ==>
          && es[k].emissions.runningTotal == es[k - 1].emissions.runningTotal + es[k].emissions.stepTotal
          && es[k].transport.cumulativeDistance == es[k - 1].transport.cumulativeDistance + es[k].transport.distance)
  }

  /** The walk's entries accumulate. */
  lemma {:induction false} WalkAccumulates(applied: seq<int>, carbon: map<int, CarbonRecord>)
    ensures Accumulates(Walk(applied, carbon).entries)
  {
    if |applied| > 0 {
      var init := applied[..|applied| - 1];
      WalkAccumulates(init, carbon);
      WalkTotals(init, carbon);
    }
  }

  /** The walk's totals are the last entry's running total and cumulative
      distance, and zero when nothing resolved. */
  lemma {:induction false} WalkTotals(applied: seq<int>, carbon: map<int, CarbonRecord>)
    ensures var l := Walk(applied, carbon);
      && l.emissions == (if |l.entries| == 0 then 0.0 else l.entries[|l.entries| - 1].emissions.runningTotal)
      && l.distance == (if |l.entries| == 0 then 0.0 else l.entries[|l.entries| - 1].transport.cumulativeDistance)
  {
    if |applied| > 0 {
      WalkTotals(applied[..|applied| - 1], carbon);
    }
  }

  /** The sum of the entries' step totals. */
  function StepTotalSum(es: seq<Entry>): real {
    if |es| == 0 then 0.0 else StepTotalSum(es[..|es| - 1]) + es[|es| - 1].emissions.stepTotal
  }

  /** The sum of the entries' step distances. */
  function DistanceSum(es: seq<Entry>): real {
    if |es| == 0 then 0.0 else DistanceSum(es[..|es| - 1]) + es[|es| - 1].transport.distance
  }

  /** In accumulating entries each running total and cumulative distance is
      the sum over the entries up to it. */
  lemma {:induction false} AccumulatesSums(es: seq<Entry>, k: nat)
    requires Accumulates(es) && k < |es|
    ensures es[k].emissions.runningTotal == StepTotalSum(es[..k + 1])
    ensures es[k].transport.cumulativeDistance == DistanceSum(es[..k + 1])
  {
    assert es[..k + 1][..k] == es[..k];
    if k > 0 {
      AccumulatesSums(es, k - 1);
      assert es[..k][..k - 1 + 1] == es[..k];
      assert es[..k + 1][..k] == es[..k - 1 + 1];
    }
  }

  /** The walk's totals are the sums of the step totals and step distances. */
  lemma WalkSums(applied: seq<int>, carbon: map<int, CarbonRecord>)
    ensures var l := Walk(applied, carbon);
      && l.emissions == StepTotalSum(l.entries)
      && l.distance == DistanceSum(l.entries)
  {
    var l := Walk(applied, carbon);
    WalkAccumulates(applied, carbon);
    WalkTotals(applied, carbon);
    if |l.entries| > 0 {
      AccumulatesSums(l.entries, |l.entries| - 1);
      assert l.entries[..|l.entries|] == l.entries;
    }
  }

  /** When every applied slot resolves, the steps are 1, 2, 3, ... */
  lemma {:induction false} WalkDense(applied: seq<int>, carbon: map<int, CarbonRecord>)
    requires forall i :: 0 <= i < |applied| ==> applied[i] in carbon
    ensures var es := Walk(applied, carbon).entries;
      |es| == |applied| && forall k :: 0 <= k < |es| ==> es[k].step == k + 1 && es[k].reconfigurationNumber == applied[k]
  {
    if |applied| > 0 {
      WalkDense(applied[..|applied| - 1], carbon);
    }
  }

  /** Only the first entry can carry A1-A3 emissions, and it does only when
      the first applied slot resolves: otherwise the walk reports none. */
  lemma A1A3AtFirstSlotOnly(applied: seq<int>, carbon: map<int, CarbonRecord>)
    ensures var es := Walk(applied, carbon).entries;
      && (forall k :: 0 < k < |es| ==> es[k].emissions.a1a3 == 0.0)
      && (|applied| > 0 && applied[0] in carbon ==>
            |es| > 0 && es[0].step == 1 && es[0].emissions.a1a3 == carbon[applied[0]].a1a3)
      && ((|applied| == 0 || applied[0] !in carbon) ==>
            forall k :: 0 <= k < |es| ==> es[k].emissions.a1a3 == 0.0)
  {
    WalkReports(applied, carbon);
    LaterStepsAfterFirst(applied, carbon);
    if |applied| > 0 && applied[0] in carbon {
      FirstSlotFirstEntry(applied, carbon);
    } else {
      NoStepOne(applied, carbon);
    }
  }

  lemma LaterStepsAfterFirst(applied: seq<int>, carbon: map<int, CarbonRecord>)
    ensures var es := Walk(applied, carbon).entries;
      forall k :: 0 < k < |es| ==> es[k].step > 1
  {
    WalkStepsNameSlots(applied, carbon);
    WalkStepsIncrease(applied, carbon);
  }

  lemma FirstSlotFirstEntry(applied: seq<int>, carbon: map<int, CarbonRecord>)
    requires |applied| > 0 && applied[0] in carbon
    ensures var es := Walk(applied, carbon).entries;
      |es| > 0 && es[0].step == 1 && es[0].reconfigurationNumber == applied[0]
  {
    WalkStepsNameSlots(applied, carbon);
    WalkStepsCoverResolved(applied, carbon);
    LaterStepsAfterFirst(applied, carbon);
    var es := Walk(applied, carbon).entries;
    var k :| 0 <= k < |es| && es[k].step == 1;
  }

  lemma NoStepOne(applied: seq<int>, carbon: map<int, CarbonRecord>)
    requires |applied| == 0 || applied[0] !in carbon
    ensures var es := Walk(applied, carbon).entries;
      forall k :: 0 <= k < |es| ==> es[k].step > 1
  {
    WalkStepsNameSlots(applied, carbon);
  }

  /** Two resolved slots: step 1 carries A1-A3 and its transport, step 2 its
      transport only, and the running total adds them up. */
  lemma TwoResolvedSlots(a: int, b: int, carbon: map<int, CarbonRecord>)
    requires a in carbon && b in carbon
    ensures var l := Walk([a, b], carbon);
      && |l.entries| == 2
      && l.entries[0].step == 1 && l.entries[1].step == 2
      && l.entries[0].emissions.runningTotal == carbon[a].a1a3 + carbon[a].transport.emissions
      && l.entries[1].emissions.a1a3 == 0.0
      && l.emissions == carbon[a].a1a3 + carbon[a].transport.emissions + carbon[b].transport.emissions
      && l.distance == carbon[a].transport.distance + carbon[b].transport.distance
  {
    assert [a, b][..1] == [a];
    assert [a][..0] == [];
    var l1 := Walk([a], carbon);
    assert Walk([], carbon) == Ledger([], 0.0, 0.0);
    assert |l1.entries| == 1 && l1.entries[0].step == 1;
    assert l1.emissions == carbon[a].a1a3 + carbon[a].transport.emissions;
    assert l1.distance == carbon[a].transport.distance;
    var l2 := Walk([a, b], carbon);
    assert l2.entries == l1.entries + [l2.entries[1]];
  }

  /** A first slot with no event record: the second slot still gets step 2,
      and no A1-A3 emissions are counted at all. */
  lemma UnresolvedFirstSlot(a: int, b: int, carbon: map<int, CarbonRecord>)
    requires a !in carbon && b in carbon
    ensures var l := Walk([a, b], carbon);
      && |l.entries| == 1
      && l.entries[0].step == 2
      && l.entries[0].emissions.a1a3 == 0.0
      && l.emissions == carbon[b].transport.emissions
  {
    assert [a, b][..1] == [a];
    assert [a][..0] == [];
    assert Walk([], carbon) == Ledger([], 0.0, 0.0);
    assert Walk([a], carbon) == Ledger([], 0.0, 0.0);
  }

  // ---------------------------------------------------------------------
  // The pixel timelines

  datatype PixelTimeline = PixelTimeline(pixelNumber: int, timeline: seq<Entry>, totalEmissions: real, totalDistance: real)

  /** What every listed timeline satisfies: a nonzero pixel number, at least
      one entry, and totals equal to the last entry's running values. */
  predicate Complete(t: PixelTimeline) {
    && t.pixelNumber != 0
    && |t.timeline| > 0
    && t.totalEmissions == t.timeline[|t.timeline| - 1].emissions.runningTotal
    && t.totalDistance == t.timeline[|t.timeline| - 1].transport.cumulativeDistance
  }

  /** The timeline of one master row; `None` for a row whose pixel number
      is missing, unreadable or zero, that marks no slot, or none of whose
      marked slots has an event record. */
  function PixelTimelineOf(columns: OM.OMap<int, string>, carbon: map<int, CarbonRecord>, row: Row): (r: Option<PixelTimeline>)
    ensures r.Some? ==> Complete(r.value)
  {
    var number := SafeInt(Get(row, Master.PixelNumberColumn));
    if number.None? || number.value == 0 then None
    else
      var applied := AppliedSlots(columns, MarkedIn(row));
      if |applied| == 0 then None
      else
        var l := Walk(applied, carbon);
        WalkTotals(applied, carbon);
        if |l.entries| == 0 then None
        else Some(PixelTimeline(number.value, l.entries, l.emissions, l.distance))
  }

  /** Some applied slot has an event record. */
  predicate SomeResolved(applied: seq<int>, carbon: map<int, CarbonRecord>) {
    exists i :: 0 <= i < |applied| && applied[i] in carbon
  }

  /** The walk reports something exactly when some applied slot has an
      event record. */
  lemma WalkNonEmpty(applied: seq<int>, carbon: map<int, CarbonRecord>)
    ensures |Walk(applied, carbon).entries| > 0 <==> SomeResolved(applied, carbon)
  {
    var es := Walk(applied, carbon).entries;
    if |es| > 0 {
      WalkStepsNameSlots(applied, carbon);
      assert applied[es[0].step - 1] in carbon;
    }
    if SomeResolved(applied, carbon) {
      WalkStepsCoverResolved(applied, carbon);
      var i :| 0 <= i < |applied| && applied[i] in carbon;
      var k :| 0 <= k < |es| && es[k].step == i + 1;
    }
  }

  /** A row has a timeline exactly when its pixel number reads as a nonzero
      integer and one of its applied slots has an event record. */
  lemma PixelTimelineExists(columns: OM.OMap<int, string>, carbon: map<int, CarbonRecord>, row: Row)
    ensures PixelTimelineOf(columns, carbon, row).Some? <==>
      && SafeInt(Get(row, Master.PixelNumberColumn)).Some?
      && SafeInt(Get(row, Master.PixelNumberColumn)).value != 0
      && SomeResolved(AppliedSlots(columns, MarkedIn(row)), carbon)
  {
    var number := SafeInt(Get(row, Master.PixelNumberColumn));
    var applied := AppliedSlots(columns, MarkedIn(row));
    WalkNonEmpty(applied, carbon);
    if number.Some? && number.value != 0 {
      var l := Walk(applied, carbon);
      assert PixelTimelineOf(columns, carbon, row).Some? <==> |applied| > 0 && |l.entries| > 0;
    }
  }

  function TimelineMaker(columns: OM.OMap<int, string>, carbon: map<int, CarbonRecord>): Row -> Option<PixelTimeline> {
    (row: Row) => PixelTimelineOf(columns, carbon, row)
  }

  /** The rows that have a timeline. */
  function HasTimeline(columns: OM.OMap<int, string>, carbon: map<int, CarbonRecord>): Row -> bool {
    (row: Row) => PixelTimelineOf(columns, carbon, row).Some?
  }

  /** The `pixels` list of `create_timeline_json`, in master-row order. */
  function BuildTimelines(columns: OM.OMap<int, string>, carbon: map<int, CarbonRecord>, rows: seq<Row>): (ts: seq<PixelTimeline>)
    ensures |ts| <= |rows|
  {
    Collect(rows, TimelineMaker(columns, carbon))
  }

  /** The list holds one timeline per row that has one, in row order, each
      the timeline of its row. */
  lemma BuildTimelinesRows(columns: OM.OMap<int, string>, carbon: map<int, CarbonRecord>, rows: seq<Row>)
    ensures var kept := Filter(rows, HasTimeline(columns, carbon));
      && |BuildTimelines(columns, carbon, rows)| == |kept|
      && forall j :: 0 <= j < |kept| ==>
           PixelTimelineOf(columns, carbon, kept[j]) == Some(BuildTimelines(columns, carbon, rows)[j])
  {
    CollectFilter(rows, TimelineMaker(columns, carbon), HasTimeline(columns, carbon));
  }

  /** No empty timeline is ever listed, and each listed one carries its
      last entry's totals. */
  lemma BuildTimelinesComplete(columns: OM.OMap<int, string>, carbon: map<int, CarbonRecord>, rows: seq<Row>)
    ensures forall t :: t in BuildTimelines(columns, carbon, rows) ==> Complete(t)
  {
    CollectAll(rows, TimelineMaker(columns, carbon), Complete);
  }

  /** `create_timeline_json`: the event lookup first (whose failure ends the
      run), then one timeline per master row that has one. */
  function CreateTimelineJson(headers: seq<string>, masterRows: seq<Row>, carbonRows: seq<Row>): (r: Result<seq<PixelTimeline>, PyError>)
    ensures r.Failure? <==> LoadCarbonData(carbonRows).Failure?
    ensures r.Success? ==> |r.value| <= |masterRows|
    ensures r.Success? ==>
      var columns := ReconfigColumns(headers);
      var carbon := LoadCarbonData(carbonRows).value;
      var kept := Filter(masterRows, HasTimeline(columns, carbon));
      && |r.value| == |kept|
      && forall j :: 0 <= j < |kept| ==> PixelTimelineOf(columns, carbon, kept[j]) == Some(r.value[j])
  {
    var carbon :- LoadCarbonData(carbonRows);
    BuildTimelinesRows(ReconfigColumns(headers), carbon, masterRows);
    Success(BuildTimelines(ReconfigColumns(headers), carbon, masterRows))
  }

  // ---------------------------------------------------------------------
  // Column titles and applied slots

  /** The standard title `Reconfiguration <n>` names slot `n`. */
  lemma SlotTitleNumber(n: nat)
    ensures SlotNumberOf(Master.SlotColumn(n)) == Some(n)
  {
    SlotColumnTail(n);
    SlotNumberOfTitle(" " + DecimalText(n), "");
  }

  /** The standard title is the word followed by a spaced number. */
  lemma SlotColumnTail(n: nat)
    ensures Master.SlotColumn(n) == SlotPrefix + (" " + DecimalText(n))
    ensures forall k :: 0 <= k < |" " + DecimalText(n)| ==> (" " + DecimalText(n))[k] == ' ' || IsDigit((" " + DecimalText(n))[k])
    ensures ParseInt(Trim(" " + DecimalText(n))) == Some(n)
  {
    var d := DecimalText(n);
    var tail := " " + d;
    assert tail == " " + d + "";
    SpacedNumber(n, "");
    assert Master.SlotColumn(n) == SlotPrefix + tail by {
      assert Master.SlotColumn(n) == SlotPrefix + " " + d;
    }
  }

  /** So does the annotated title `Reconfiguration <n> (<note>`. */
  lemma SlotTitleNoted(n: nat, note: string)
    ensures SlotNumberOf(Master.SlotColumn(n) + " (" + note) == Some(n)
  {
    var d := DecimalText(n);
    SpacedNumber(n, " ");
    assert Master.SlotColumn(n) + " (" + note == SlotPrefix + (" " + d + " ") + "(" + note;
    SlotNumberOfTitle(" " + d + " ", note);
  }

  /** A number's decimal text between spaces reads back as the number. */
  lemma SpacedNumber(n: nat, right: string)
    requires forall k :: 0 <= k < |right| ==> right[k] == ' '
    ensures var tail := " " + DecimalText(n) + right;
      && (forall k :: 0 <= k < |tail| ==> tail[k] == ' ' || IsDigit(tail[k]))
      && ParseInt(Trim(tail)) == Some(n)
  {
    var d := DecimalText(n);
    DecimalTextRoundTrip(n);
    DigitEnds(d);
    PaddedTrim(" ", d, right);
    var tail := " " + d + right;
    forall k | 0 <= k < |tail| ensures tail[k] == ' ' || IsDigit(tail[k]) {
      if 0 < k <= |d| {
        assert tail[k] == d[k - 1];
      } else if k > |d| {
        assert tail[k] == right[k - 1 - |d|];
      }
    }
  }

  /** Digits are not whitespace, so digit text has no outer whitespace. */
  lemma DigitEnds(d: string)
    requires |d| > 0 && AllDigits(d)
    ensures !IsSpace(d[0]) && !IsSpace(d[|d| - 1])
  {
    assert IsDigit(d[0]) && IsDigit(d[|d| - 1]);
  }

  /** The slot number of `Reconfiguration<tail>` and of
      `Reconfiguration<tail>(<note>` is the tail's trimmed text read as an
      integer, for a tail of spaces and digits. */
  lemma SlotNumberOfTitle(tail: string, note: string)
    requires forall k :: 0 <= k < |tail| ==> tail[k] == ' ' || IsDigit(tail[k])
    ensures SlotNumberOf(SlotPrefix + tail) == ParseInt(Trim(tail))
    ensures SlotNumberOf(SlotPrefix + tail + "(" + note) == ParseInt(Trim(tail))
  {
    TitleParts(tail, note);
  }

  /** A title `Reconfiguration<tail>(<note>` whose tail holds only spaces and
      digits: it starts with the word, and its number text is the tail. */
  lemma TitleParts(tail: string, note: string)
    requires forall k :: 0 <= k < |tail| ==> tail[k] == ' ' || IsDigit(tail[k])
    ensures StartsWith(SlotPrefix + tail, SlotPrefix)
    ensures StartsWith(SlotPrefix + tail + "(" + note, SlotPrefix)
    ensures Split(SlotPrefix + tail, "(")[0] == SlotPrefix + tail
    ensures Split(SlotPrefix + tail + "(" + note, "(")[0] == SlotPrefix + tail
    ensures Replace(SlotPrefix + tail, SlotPrefix, "") == tail
  {
    var head := SlotPrefix + tail;
    assert head[..|SlotPrefix|] == SlotPrefix;
    assert (head + "(" + note)[..|SlotPrefix|] == SlotPrefix;
    forall k | 0 <= k < |head| ensures head[k] != '(' {
      if k >= |SlotPrefix| { assert head[k] == tail[k - |SlotPrefix|]; }
    }
    Lacks(head, "(");
    SplitPieces(head, "(");
    SplitAtFirst(head, "(", note);
    assert "" + SlotPrefix + tail == head;
    SplitAtFirst("", SlotPrefix, tail);
    Lacks(tail, SlotPrefix);
    SplitPieces(tail, SlotPrefix);
    JoinTwo("", tail, "");
  }

  /** A slot is applied exactly when some column pair carries its number and
      `marked` accepts its column. */
  lemma {:induction false} AppliedMembers(columns: OM.OMap<int, string>, marked: string -> bool, n: int)
    ensures n in AppliedSlots(columns, marked) <==> exists c :: c in columns && c.0 == n && marked(c.1)
  {
    if |columns| > 0 {
      var rest := AppliedSlots(columns[1..], marked);
      AppliedMembers(columns[1..], marked, n);
      assert columns == [columns[0]] + columns[1..];
      if marked(columns[0].1) {
        assert AppliedSlots(columns, marked) == [columns[0].0] + rest;
      } else {
        assert AppliedSlots(columns, marked) == rest;
      }
    }
  }

  /** A slot is applied exactly when its number is among the header-parsed
      ones and `marked` accepts its (last such) column: for `MarkedIn(row)`,
      when that column's cell reads `1`. */
  lemma AppliedSlotsMembers(headers: seq<string>, marked: string -> bool, n: int)
    ensures var titles := LastWins(headers, SlotNumberOf, Title);
      n in AppliedSlots(ReconfigColumns(headers), marked) <==> n in titles && marked(titles[n])
  {
    var columns := ReconfigColumns(headers);
    var titles := LastWins(headers, SlotNumberOf, Title);
    AppliedMembers(columns, marked, n);
    OM.FromSeqGet(headers, SlotNumberOf, Title, n);
    if n in titles {
      OM.GetPair(columns, n, titles[n]);
      forall c | c in columns && c.0 == n ensures c.1 == titles[n] {
        OM.GetPair(columns, n, c.1);
      }
    } else {
      forall c | c in columns ensures c.0 != n {
        OM.GetPair(columns, c.0, c.1);
      }
    }
  }

  lemma {:induction false} AppliedAbove(columns: OM.OMap<int, string>, marked: string -> bool, low: int)
    requires forall i :: 0 <= i < |columns| ==> low < columns[i].0
    ensures forall k :: 0 <= k < |AppliedSlots(columns, marked)| ==> low < AppliedSlots(columns, marked)[k]
  {
    if |columns| > 0 {
      var rest := AppliedSlots(columns[1..], marked);
      AppliedAbove(columns[1..], marked, low);
      if marked(columns[0].1) {
        assert AppliedSlots(columns, marked) == [columns[0].0] + rest;
      } else {
        assert AppliedSlots(columns, marked) == rest;
      }
    }
  }

  /** Columns in increasing slot order give applied slots in increasing order. */
  lemma {:induction false} AppliedIncreasing(columns: OM.OMap<int, string>, marked: string -> bool)
    requires forall i, j :: 0 <= i < j < |columns| ==> columns[i].0 < columns[j].0
    ensures Increasing(AppliedSlots(columns, marked))
  {
    if |columns| > 0 {
      var tail := columns[1..];
      var rest := AppliedSlots(tail, marked);
      forall i, j | 0 <= i < j < |tail| ensures tail[i].0 < tail[j].0 {
        assert tail[i] == columns[i + 1] && tail[j] == columns[j + 1];
      }
      AppliedIncreasing(tail, marked);
      forall i | 0 <= i < |tail| ensures columns[0].0 < tail[i].0 {
        assert tail[i] == columns[i + 1];
      }
      AppliedAbove(tail, marked, columns[0].0);
      assert forall k :: 0 <= k < |rest| ==> columns[0].0 < rest[k];
      var applied := AppliedSlots(columns, marked);
      if marked(columns[0].1) {
        assert applied == [columns[0].0] + rest;
        forall a, b | 0 <= a < b < |applied| ensures applied[a] < applied[b] {
          assert applied[b] == rest[b - 1];
          if a > 0 {
            assert applied[a] == rest[a - 1];
          }
        }
      } else {
        assert applied == rest;
      }
    }
  }

  /** When the titles name their slots in increasing order, the applied
      slots come out in increasing order too. */
  lemma AppliedSlotsIncreasing(headers: seq<string>, marked: string -> bool)
    requires forall i, j :: 0 <= i < j < |headers| && SlotNumberOf(headers[i]).Some? && SlotNumberOf(headers[j]).Some? ==>
      SlotNumberOf(headers[i]).value < SlotNumberOf(headers[j]).value
    ensures Increasing(AppliedSlots(ReconfigColumns(headers), marked))
  {
    var columns := ReconfigColumns(headers);
    OM.FromSeqKeys(headers, SlotNumberOf, Title);
    OM.KeyListIncreasing(headers, SlotNumberOf);
    var ks := OM.Keys(columns);
    assert forall i :: 0 <= i < |columns| ==> columns[i].0 == ks[i];
    AppliedIncreasing(columns, marked);
  }
}
