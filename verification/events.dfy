/** The reconfiguration-event table (`carbon_location.csv`):
    `convert_carbon_locations_to_json`, which turns each numbered row into an
    event record, and `load_reconfigurations`, the number-keyed lookup of
    names, descriptions and dates. */
module Events {
  import opened Wrappers
  import opened Text
  import opened Numbers
  import opened Rows
  import opened Lookup
  import opened Lists

  const NumberColumn := "Reconfiguration number"
  const NameColumn := "Reconfiguration name"
  const DescriptionColumn := "Description"
  const DateColumn := "Date"
  const LocationNameColumn := "Location name"
  const CoordinatesColumn := "Location coordinates"
  const PixelWeightColumn := "Pixel weight (kg)"
  const CoefficientColumn := "A1-A3 Coefficient"
  const A1A3Column := "A1-A3 emissions (kgCO2e)"
  const DistanceColumn := "Transport distance (km)"
  const TransportTypeColumn := "Type of transport"
  const TransportCoefficientColumn := "Transport coefficient (kgCO2e/kg)"
  const A4Column := "Carbon emissions (A4) (kgCO2e/pixel)"
  const TotalColumn := "Total emissions per reconfiguration (kgCO2e/pixel)"

  datatype Coordinates = Coordinates(latitude: Option<real>, longitude: Option<real>)

  datatype Location = Location(name: Option<string>, coordinates: Coordinates)

  datatype Transport = Transport(distance: real, kind: string, coefficient: Option<real>, emissions: real)

  /** One entry of the `reconfigurations` list. `serial` is present only in
      the `public/` script's output. */
  datatype Reconfiguration = Reconfiguration(
    number: int,
    serial: Option<string>,
    name: string,
    description: string,
    date: Option<string>,
    location: Location,
    pixelWeight: Option<real>,
    coefficient: Option<real>,
    a1a3Emissions: Option<real>,
    transport: Transport,
    totalEmissions: Option<real>)

  /** The coordinate text with every `° N`, `° W` and `° E` removed, cut at commas. */
  function CoordinateParts(text: string): (parts: seq<string>)
    ensures |parts| >= 1
  {
    Split(Replace(Replace(Replace(text, "° N", ""), "° W", ""), "° E", ""), ",")
  }

  /** `float(part) if part.strip() else None`. */
  function FloatIfPresent(part: string): (r: Result<Option<real>, PyError>)
    ensures r == Success(None) <==> Trim(part) == ""
    ensures Trim(part) != "" ==>
      (if ParseFloat(part).Some? then r == Success(Some(ParseFloat(part).value))
       else r == Failure(ValueError(part)))
  {
    if Trim(part) == "" then Success(None)
    else
      var x :- Float(part);
      Success(Some(x))
  }

  /** `-lon if lon else None`: a western longitude is negated, and a zero or
      blank one becomes null. */
  function Western(longitude: Option<real>): (r: Option<real>)
    ensures r.Some? <==> longitude.Some? && longitude.value != 0.0
    ensures r.Some? ==> r.value == -longitude.value
  {
    if longitude.Some? && longitude.value != 0.0 then Some(-longitude.value) else None
  }

  /** The coordinate parse of `convert_carbon_locations_to_json`. Latitude
      is the first comma-separated piece; longitude the second, negated
      exactly when the original text contains a bare `W`, and null when
      western and zero. Text with no comma raises `IndexError` once the
      latitude reads. */
  function ParseCoordinates(text: string): (r: Result<Coordinates, PyError>)
    ensures r.Success? ==> |CoordinateParts(text)| >= 2
    ensures r.Success? ==> FloatIfPresent(CoordinateParts(text)[0]) == Success(r.value.latitude)
    ensures r.Success? ==> FloatIfPresent(CoordinateParts(text)[1]).Success?
    ensures r.Success? && !Contains(text, "W") ==>
      r.value.longitude == FloatIfPresent(CoordinateParts(text)[1]).value
    ensures r.Success? && Contains(text, "W") ==>
      && (r.value.longitude.Some? <==> FloatIfPresent(CoordinateParts(text)[1]).value.Some? && FloatIfPresent(CoordinateParts(text)[1]).value.value != 0.0)
      && (r.value.longitude.Some? ==> r.value.longitude.value == -FloatIfPresent(CoordinateParts(text)[1]).value.value)
    ensures r.Failure? ==>
      || FloatIfPresent(CoordinateParts(text)[0]).Failure?
      || (r.error == IndexError && |CoordinateParts(text)| < 2)
      || (|CoordinateParts(text)| >= 2 && FloatIfPresent(CoordinateParts(text)[1]).Failure?)
  {
    var parts := CoordinateParts(text);
    var latitude :- FloatIfPresent(parts[0]);
    if |parts| < 2 then Failure(IndexError)
    else
      var longitude :- FloatIfPresent(parts[1]);
      Success(Coordinates(latitude, if Contains(text, "W") then Western(longitude) else longitude))
  }

  /** Text free of `°` followed by one three-character marker holds no
      other marker. */
  lemma OnlyMarker(front: string, marker: string, other: string)
    requires forall k :: 0 <= k < |front| ==> front[k] != '°'
    requires |marker| == 3 && |other| == 3 && other[0] == '°' && marker != other
    ensures !Contains(front + marker, other)
  {
    var s := front + marker;
    forall j: nat
      ensures !IsAt(s, other, j)
    {
      if j + 3 <= |s| {
        if j < |front| {
          assert s[j..j + 3][0] == front[j];
        } else {
          assert s[j..j + 3] == marker;
        }
      }
    }
  }

  /** Degree-free text without commas. */
  predicate PlainPiece(s: string) {
    forall k :: 0 <= k < |s| ==> s[k] != ',' && s[k] != '°'
  }

  /** `number + "° W"` loses its marker and keeps the rest. */
  lemma StripWest(number: string)
    requires forall k :: 0 <= k < |number| ==> number[k] != '°'
    ensures Replace(Replace(number + "° W", "° W", ""), "° E", "") == number
  {
    Lacks("", "° W");
    ReplaceOnce(number, "° W", "", "");
    assert number + "° W" + "" == number + "° W";
    assert number + "" + "" == number;
    Lacks(number, "° E");
    ReplaceAbsent(number, "° E", "");
  }

  /** `number + "° E"` loses its marker and keeps the rest. */
  lemma StripEast(number: string)
    requires forall k :: 0 <= k < |number| ==> number[k] != '°'
    ensures Replace(Replace(number + "° E", "° W", ""), "° E", "") == number
  {
    OnlyMarker(number, "° E", "° W");
    ReplaceAbsent(number + "° E", "° W", "");
    Lacks("", "° E");
    ReplaceOnce(number, "° E", "", "");
    assert number + "° E" + "" == number + "° E";
    assert number + "" + "" == number;
  }

  lemma WestMarked(front: string)
    ensures Contains(front + "° W", "° W")
    ensures Contains(front + "° W", "W")
  {
    var s := front + "° W";
    assert s[|front|..|front| + 3] == "° W";
    assert IsAt(s, "° W", |front|);
    assert s[|front| + 2..|front| + 3] == "W";
    assert IsAt(s, "W", |front| + 2);
  }

  /** `a + "," + b` with neither piece holding a comma cuts into `a` and `b`. */
  lemma SplitPlain(a: string, b: string)
    requires PlainPiece(a) && PlainPiece(b)
    ensures Split(a + "," + b, ",") == [a, b]
  {
    SplitAtFirst(a, ",", b);
    Lacks(b, ",");
    SplitPieces(b, ",");
  }

  /** The `° N` marker of `<a>° N,<rest>` goes, and nothing else. */
  lemma DropNorth(a: string, rest: string)
    requires forall k :: 0 <= k < |a| ==> a[k] != '°'
    requires !Contains("," + rest, "° N")
    ensures Replace(a + "° N," + rest, "° N", "") == a + "," + rest
  {
    assert a + "° N," + rest == a + "° N" + ("," + rest);
    ReplaceOnce(a, "° N", "," + rest, "");
    assert a + "" + ("," + rest) == a + "," + rest;
  }

  /** `<a>,<b>` holds no degree sign when neither piece does. */
  lemma PlainJoin(a: string, b: string)
    requires PlainPiece(a) && PlainPiece(b)
    ensures forall k :: 0 <= k < |a + "," + b| ==> (a + "," + b)[k] != '°'
  {
    var front := a + "," + b;
    forall k | 0 <= k < |front| ensures front[k] != '°' {
      if k > |a| { assert front[k] == b[k - |a| - 1]; }
    }
  }

  /** `<a>° N,<b>° W` and `<a>° N,<b>° E` lose their markers and cut into
      `a` and `b`. */
  lemma MarkedParts(a: string, b: string, east: string)
    requires PlainPiece(a) && PlainPiece(b)
    requires east == "° W" || east == "° E"
    ensures CoordinateParts(a + "° N," + b + east) == [a, b]
  {
    var text := a + "° N," + b + east;
    var front := a + "," + b;
    var north := Replace(text, "° N", "");
    assert north == front + east by {
      assert text == a + "° N," + (b + east);
      OnlyMarker("," + b, east, "° N");
      assert "," + b + east == "," + (b + east);
      DropNorth(a, b + east);
      assert a + "," + (b + east) == front + east;
    }
    assert Replace(Replace(north, "° W", ""), "° E", "") == front by {
      PlainJoin(a, b);
      if east == "° W" {
        StripWest(front);
      } else {
        StripEast(front);
      }
    }
    assert Split(front, ",") == [a, b] by {
      SplitPlain(a, b);
    }
    assert CoordinateParts(text) == Split(front, ",");
  }

  /** Text that cuts into two readable pieces reads as those pieces. */
  lemma ParseCoordinatesOfParts(text: string, a: string, b: string, x: real, y: real)
    requires CoordinateParts(text) == [a, b]
    requires Trim(a) != "" && ParseFloat(a) == Some(x)
    requires Trim(b) != "" && ParseFloat(b) == Some(y)
    ensures ParseCoordinates(text) == Success(Coordinates(Some(x), if Contains(text, "W") then Western(Some(y)) else Some(y)))
  {
    assert FloatIfPresent(a) == Success(Some(x));
    assert FloatIfPresent(b) == Success(Some(y));
  }

  /** The coordinate shape `<lat>° N,<lon>° W` reads as the latitude and the
      negated longitude, null when the longitude is zero. */
  lemma ParseCoordinatesWest(a: string, b: string, x: real, y: real)
    requires PlainPiece(a) && PlainPiece(b)
    requires Trim(a) != "" && ParseFloat(a) == Some(x)
    requires Trim(b) != "" && ParseFloat(b) == Some(y)
    ensures ParseCoordinates(a + "° N," + b + "° W") == Success(Coordinates(Some(x), Western(Some(y))))
  {
    var text := a + "° N," + b + "° W";
    MarkedParts(a, b, "° W");
    WestMarked(a + "° N," + b);
    ParseCoordinatesOfParts(text, a, b, x, y);
  }

  /** The shape `<lat>° N,<lon>° E` reads as the two numbers as written,
      when neither piece holds a `W`. */
  lemma ParseCoordinatesEast(a: string, b: string, x: real, y: real)
    requires PlainPiece(a) && PlainPiece(b)
    requires forall k :: 0 <= k < |a| ==> a[k] != 'W'
    requires forall k :: 0 <= k < |b| ==> b[k] != 'W'
    requires Trim(a) != "" && ParseFloat(a) == Some(x)
    requires Trim(b) != "" && ParseFloat(b) == Some(y)
    ensures ParseCoordinates(a + "° N," + b + "° E") == Success(Coordinates(Some(x), Some(y)))
  {
    var text := a + "° N," + b + "° E";
    MarkedParts(a, b, "° E");
    forall k | 0 <= k < |text| ensures text[k] != 'W' {
      if k < |a| {
        assert text[k] == a[k];
      } else if |a| + 4 <= k < |a| + 4 + |b| {
        assert text[k] == b[k - |a| - 4];
      }
    }
    Lacks(text, "W");
    ParseCoordinatesOfParts(text, a, b, x, y);
  }

  /** `f"{number:04d}"` in the `public/` script; the older script has no serial. */
  function SerialOf(variant: Variant, number: int): (r: Option<string>)
    ensures variant == Public <==> r.Some?
    ensures r.Some? ==> |r.value| >= 4 && ParseInt(r.value) == Some(number)
  {
    if variant == Public then
      Pad4RoundTrip(number);
      Some(Pad4(number))
    else None
  }

  /** One row of `convert_carbon_locations_to_json`: `Success(None)` for a row
      whose event number is blank, a failure for the first exception the row
      raises, in Python's evaluation order. */
  function ParseEvent(variant: Variant, row: Row): (r: Result<Option<Reconfiguration>, PyError>)
    ensures r.Success? ==> NumberColumn in row && (r.value.None? <==> row[NumberColumn] == "")
    ensures r.Success? && r.value.Some? ==> ParseInt(row[NumberColumn]) == Some(r.value.value.number)
    ensures r.Success? && r.value.Some? ==> ReadsRow(variant, row, r.value.value)
  {
    var numberText :- Cell(row, NumberColumn);
    if numberText == "" then Success(None)
    else
      var event :- ParseNumbered(variant, row, numberText);
      Success(Some(event))
  }

  /** `e` carries the cells of `row`: its coordinates are what
      `ParseCoordinates` reads from the coordinates cell, its name, description
      and location name are the cells as written, its date is `DateOf` the date
      cell, its figures are those `ParseFigures` reads, and its serial is the
      variant's serial of its number. */
  predicate ReadsRow(variant: Variant, row: Row, e: Reconfiguration) {
    && CoordinatesColumn in row && ParseCoordinates(row[CoordinatesColumn]) == Success(e.location.coordinates)
    && NameColumn in row && e.name == row[NameColumn]
    && DescriptionColumn in row && e.description == row[DescriptionColumn]
    && DateColumn in row && e.date == DateOf(row[DateColumn])
    && LocationNameColumn in row && e.location.name == Some(row[LocationNameColumn])
    && ParseFigures(row) == Success(Figures(e.pixelWeight, e.coefficient, e.a1a3Emissions, e.transport, e.totalEmissions))
    && e.serial == SerialOf(variant, e.number)
  }

  /** The record of a row whose number cell holds `numberText` (not blank). */
  function ParseNumbered(variant: Variant, row: Row, numberText: string): (r: Result<Reconfiguration, PyError>)
    ensures r.Success? ==> ParseInt(numberText) == Some(r.value.number)
    ensures r.Success? ==> ReadsRow(variant, row, r.value)
    ensures CoordinatesColumn !in row ==> r == Failure(KeyError(CoordinatesColumn))
  {
    var coordinatesText :- Cell(row, CoordinatesColumn);
    var coordinates :- ParseCoordinates(coordinatesText);
    var number :- Int(numberText);
    var name :- Cell(row, NameColumn);
    var description :- Cell(row, DescriptionColumn);
    var dateText :- Cell(row, DateColumn);
    var locationName :- Cell(row, LocationNameColumn);
    var figures :- ParseFigures(row);
    Success(Reconfiguration(
      number,
      SerialOf(variant, number),
      name,
      description,
      DateOf(dateText),
      Location(Some(locationName), coordinates),
      figures.pixelWeight,
      figures.coefficient,
      figures.a1a3Emissions,
      figures.transport,
      figures.totalEmissions))
  }

  /** `row['Date'].strip() if row['Date'] else None`: blank is null, any
      other text is kept without its surrounding whitespace. */
  function DateOf(text: string): (r: Option<string>)
    ensures r.None? <==> text == ""
    ensures r.Some? ==> r.value == Trim(text)
  {
    if text == "" then None else Some(Trim(text))
  }

  datatype Figures = Figures(
    pixelWeight: Option<real>,
    coefficient: Option<real>,
    a1a3Emissions: Option<real>,
    transport: Transport,
    totalEmissions: Option<real>)

  /** The numeric cells, read in the order the record lists them: a blank
      transport distance or A4 emission reads as 0, any other blank as null. */
  function ParseFigures(row: Row): (r: Result<Figures, PyError>)
    ensures r.Success? <==>
      && FloatOrNone(row, PixelWeightColumn).Success?
      && FloatOrNone(row, CoefficientColumn).Success?
      && FloatOrNone(row, A1A3Column).Success?
      && FloatOrZero(row, DistanceColumn).Success?
      && TransportTypeColumn in row
      && FloatOrNone(row, TransportCoefficientColumn).Success?
      && FloatOrZero(row, A4Column).Success?
      && FloatOrNone(row, TotalColumn).Success?
    ensures r.Success? ==>
      && Success(r.value.pixelWeight) == FloatOrNone(row, PixelWeightColumn)
      && Success(r.value.coefficient) == FloatOrNone(row, CoefficientColumn)
      && Success(r.value.a1a3Emissions) == FloatOrNone(row, A1A3Column)
      && Success(r.value.transport.distance) == FloatOrZero(row, DistanceColumn)
      && r.value.transport.kind == row[TransportTypeColumn]
      && Success(r.value.transport.coefficient) == FloatOrNone(row, TransportCoefficientColumn)
      && Success(r.value.transport.emissions) == FloatOrZero(row, A4Column)
      && Success(r.value.totalEmissions) == FloatOrNone(row, TotalColumn)
    ensures r.Success? ==> DistanceColumn in row && A4Column in row && A1A3Column in row
    ensures r.Success? && row[DistanceColumn] == "" ==> r.value.transport.distance == 0.0
    ensures r.Success? && row[A4Column] == "" ==> r.value.transport.emissions == 0.0
    ensures r.Success? ==> (r.value.a1a3Emissions.None? <==> row[A1A3Column] == "")
  {
    var pixelWeight :- FloatOrNone(row, PixelWeightColumn);
    var coefficient :- FloatOrNone(row, CoefficientColumn);
    var a1a3 :- FloatOrNone(row, A1A3Column);
    var distance :- FloatOrZero(row, DistanceColumn);
    var kind :- Cell(row, TransportTypeColumn);
    var transportCoefficient :- FloatOrNone(row, TransportCoefficientColumn);
    var emissions :- FloatOrZero(row, A4Column);
    var total :- FloatOrNone(row, TotalColumn);
    Success(Figures(pixelWeight, coefficient, a1a3, Transport(distance, kind, transportCoefficient, emissions), total))
  }

  function EventMaker(variant: Variant): Row -> Result<Option<Reconfiguration>, PyError> {
    (row: Row) => ParseEvent(variant, row)
  }

  /** `convert_carbon_locations_to_json`: the events of the numbered rows, in
      table order; the first exception ends the run. */
  function ConvertEvents(variant: Variant, rows: seq<Row>): (r: Result<seq<Reconfiguration>, PyError>)
    ensures r.Success? <==> forall i :: 0 <= i < |rows| ==> ParseEvent(variant, rows[i]).Success?
    ensures r.Failure? ==>
      exists i :: 0 <= i < |rows| && ParseEvent(variant, rows[i]) == Failure(r.error) &&
        (forall j :: 0 <= j < i ==> ParseEvent(variant, rows[j]).Success?)
    ensures r.Success? ==> |r.value| <= |rows|
  {
    TryCollect(rows, EventMaker(variant))
  }

  /** A row whose event-number cell is present and not blank. */
  predicate HasNumberCell(row: Row) {
    GetOr(row, NumberColumn, "") != ""
  }

  /** A successful conversion emits one event per numbered row, in order,
      each carrying that row's number. */
  lemma ConvertEventsNumberedRows(variant: Variant, rows: seq<Row>)
    requires ConvertEvents(variant, rows).Success?
    ensures var events := ConvertEvents(variant, rows).value;
      && |events| == |Filter(rows, HasNumberCell)|
      && forall j :: 0 <= j < |events| ==>
           ParseInt(Filter(rows, HasNumberCell)[j][NumberColumn]) == Some(events[j].number)
  {
    TryCollectFilter(rows, EventMaker(variant), HasNumberCell);
  }

  /** In the `public/` script every emitted serial reads back as its event's
      number; the older script emits none. */
  lemma ConvertEventsSerials(variant: Variant, rows: seq<Row>)
    requires ConvertEvents(variant, rows).Success?
    ensures forall e :: e in ConvertEvents(variant, rows).value ==>
      && (variant == Public <==> e.serial.Some?)
      && (e.serial.Some? ==> ParseInt(e.serial.value) == Some(e.number))
  {
    TryCollectAll(rows, EventMaker(variant), SerialReadsBack(variant));
  }

  function SerialReadsBack(variant: Variant): Reconfiguration -> bool {
    (e: Reconfiguration) =>
      && (variant == Public <==> e.serial.Some?)
      && (e.serial.Some? ==> ParseInt(e.serial.value) == Some(e.number))
  }

  /** The fields `load_reconfigurations` keeps for each event. */
  datatype ReconfigInfo = ReconfigInfo(name: Option<string>, description: Option<string>, date: Option<string>)

  /** `safe_int(safe_get(row, 'Reconfiguration number'))` when truthy: rows
      whose number is missing, unreadable or zero have no key. */
  function NumberKey(row: Row): (r: Option<int>)
    ensures r.Some? <==>
      (NumberColumn in row && row[NumberColumn] != "" &&
       ParseInt(row[NumberColumn]).Some? && ParseInt(row[NumberColumn]).value != 0)
    ensures r.Some? ==> r == ParseInt(row[NumberColumn])
  {
    var n := SafeInt(Get(row, NumberColumn));
    if n.Some? && n.value != 0 then n else None
  }

  function InfoOf(row: Row): ReconfigInfo {
    ReconfigInfo(Get(row, NameColumn), Get(row, DescriptionColumn), Get(row, DateColumn))
  }

  /** `load_reconfigurations`: its numbers are those of the rows whose
      number parses to a nonzero integer, and 0 is never one of them. */
  function LoadReconfigurations(rows: seq<Row>): (m: map<int, ReconfigInfo>)
    ensures forall n :: n in m <==> exists i :: 0 <= i < |rows| && NumberKey(rows[i]) == Some(n)
    ensures 0 !in m
  {
    LastWins(rows, NumberKey, InfoOf)
  }

  /** Every keyed row's number is in the lookup, mapped to the name,
      description and date of the last row carrying it. */
  lemma LoadReconfigurationsKeys(rows: seq<Row>, i: nat)
    requires i < |rows|
    ensures NumberKey(rows[i]).Some? ==> NumberKey(rows[i]).value in LoadReconfigurations(rows)
    ensures NumberKey(rows[i]).Some? && (forall j :: i < j < |rows| ==> NumberKey(rows[j]) != NumberKey(rows[i])) ==>
      LoadReconfigurations(rows)[NumberKey(rows[i]).value] == InfoOf(rows[i])
  {
    if NumberKey(rows[i]).Some? && (forall j :: i < j < |rows| ==> NumberKey(rows[j]) != NumberKey(rows[i])) {
      LastWinsValue(rows, NumberKey, InfoOf, i);
    }
  }
}
