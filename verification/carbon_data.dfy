/** The `carbon_data` lookup that `create_timeline_json` builds from the
    event table before it walks the master table: one record per nonzero
    event number, the last row winning. */
module CarbonData {
  import opened Wrappers
  import opened Text
  import opened Numbers
  import opened Rows
  import opened Lookup
  import Events

  datatype CarbonLocation = CarbonLocation(name: Option<string>, latitude: Option<real>, longitude: real)

  datatype Haul = Haul(kind: Option<string>, distance: real, emissions: real)

  datatype CarbonRecord = CarbonRecord(
    name: Option<string>,
    description: Option<string>,
    date: Option<string>,
    location: CarbonLocation,
    transport: Haul,
    a1a3: real)

  /** The latitude: whatever precedes the first `° N`, read by `safe_float`. */
  function LoaderLatitude(text: string): Option<real> {
    SafeFloat(Some(Split(text, "° N")[0]))
  }

  /** A coordinate `<lat>° N<rest>` with no degree sign in `lat` yields the
      latitude `lat` reads as. */
  lemma LoaderLatitudeMarked(latitude: string, rest: string, x: real)
    requires forall k :: 0 <= k < |latitude| ==> latitude[k] != '°'
    requires Trim(latitude) != "" && ParseFloat(latitude) == Some(x)
    ensures LoaderLatitude(latitude + "° N" + rest) == Some(x)
  {
    SplitAtFirst(latitude, "° N", rest);
  }

  /** The second comma-separated piece with its `° W` and `° E` markers
      removed and its whitespace trimmed, read by `safe_float`. */
  function LongitudeMagnitude(piece: string): Option<real> {
    SafeFloat(Some(Trim(Replace(Replace(piece, "° W", ""), "° E", ""))))
  }

  /** `text.split(',')[1]` where there is one, and `""` otherwise. */
  function SecondPieceOf(text: string): (piece: string)
    ensures Contains(text, ",") ==> |Split(text, ",")| >= 2 && piece == Split(text, ",")[1]
  {
    SplitPieces(text, ",");
    var parts := Split(text, ",");
    if |parts| < 2 then "" else parts[1]
  }

  /** The longitude of the timeline loader, negated when the text holds the
      marker `° W`. Text without a comma raises `IndexError` on `[1]`; a
      blank or unreadable second piece leaves `None`, and `None * -1`
      raises `TypeError`. */
  function LoaderLongitude(text: string): (r: Result<real, PyError>)
    ensures !Contains(text, ",") <==> r == Failure(IndexError)
    ensures r.Success? <==> Contains(text, ",") && LongitudeMagnitude(SecondPieceOf(text)).Some?
    ensures Contains(text, ",") && r.Failure? ==> r == Failure(TypeError)
    ensures r.Success? ==> LongitudeMagnitude(Split(text, ",")[1]).Some?
    ensures r.Success? && !Contains(text, "° W") ==> r.value == LongitudeMagnitude(Split(text, ",")[1]).value
    ensures r.Success? && Contains(text, "° W") ==> r.value == -LongitudeMagnitude(Split(text, ",")[1]).value
  {
    var parts := Split(text, ",");
    SplitPieces(text, ",");
    if |parts| < 2 then Failure(IndexError)
    else
      var magnitude := LongitudeMagnitude(parts[1]);
      if magnitude.None? then Failure(TypeError)
      else Success(if Contains(text, "° W") then -magnitude.value else magnitude.value)
  }

  /** `safe_float(row.get(key), 0)`: a missing or blank cell reads as 0,
      and so does text `float()` rejects, since `safe_float` swallows the
      `ValueError`; readable text reads as its value. */
  function FloatOrZero(row: Row, key: string): (x: real)
    ensures GetOr(row, key, "") == "" ==> x == 0.0
    ensures GetOr(row, key, "") != "" && ParseFloat(row[key]).Some? ==> x == ParseFloat(row[key]).value
    ensures GetOr(row, key, "") != "" && ParseFloat(row[key]).None? ==> x == 0.0
  {
    SafeFloat(Get(row, key)).GetOr(0.0)
  }

  /** The record of one keyed row; it fails exactly when the longitude does.
      Text fields are the cells as `safe_get` reads them, and figures are
      read by `safe_float` with 0 as the default. */
  function RecordOf(row: Row): (r: Result<CarbonRecord, PyError>)
    ensures r.Failure? <==> LoaderLongitude(GetOr(row, Events.CoordinatesColumn, "")).Failure?
    ensures r.Success? ==>
      && r.value.name == Get(row, Events.NameColumn)
      && r.value.description == Get(row, Events.DescriptionColumn)
      && r.value.date == Get(row, Events.DateColumn)
      && r.value.location.name == Get(row, Events.LocationNameColumn)
      && r.value.location.latitude == LoaderLatitude(GetOr(row, Events.CoordinatesColumn, ""))
      && r.value.transport.kind == Get(row, Events.TransportTypeColumn)
      && r.value.transport.distance == FloatOrZero(row, Events.DistanceColumn)
      && r.value.transport.emissions == FloatOrZero(row, Events.A4Column)
      && r.value.a1a3 == FloatOrZero(row, Events.A1A3Column)
    ensures r.Success? ==>
      && r.value.location.longitude == LoaderLongitude(GetOr(row, Events.CoordinatesColumn, "")).value
      && (GetOr(row, Events.DistanceColumn, "") == "" ==> r.value.transport.distance == 0.0)
      && (GetOr(row, Events.A4Column, "") == "" ==> r.value.transport.emissions == 0.0)
      && (GetOr(row, Events.A1A3Column, "") == "" ==> r.value.a1a3 == 0.0)
  {
    var text := GetOr(row, Events.CoordinatesColumn, "");
    var longitude :- LoaderLongitude(text);
    Success(CarbonRecord(
      Get(row, Events.NameColumn),
      Get(row, Events.DescriptionColumn),
      Get(row, Events.DateColumn),
      CarbonLocation(Get(row, Events.LocationNameColumn), LoaderLatitude(text), longitude),
      Haul(Get(row, Events.TransportTypeColumn),
           FloatOrZero(row, Events.DistanceColumn),
           FloatOrZero(row, Events.A4Column)),
      FloatOrZero(row, Events.A1A3Column)))
  }

  /** The loop that fills `carbon_data`: rows without a nonzero number are
      skipped, and the first keyed row whose record fails ends the run. */
  function LoadCarbonData(rows: seq<Row>): Result<map<int, CarbonRecord>, PyError> {
    TryLastWins(rows, Events.NumberKey, RecordOf)
  }

  /** A row's record where it can be built; a keyed row whose record fails
      never reaches the lookup, so any stand-in serves for it. */
  function RecordOrUnread(row: Row): CarbonRecord {
    match RecordOf(row)
    case Success(record) => record
    case Failure(_) => CarbonRecord(None, None, None, CarbonLocation(None, None, 0.0), Haul(None, 0.0, 0.0), 0.0)
  }

  /** The loop succeeds exactly when every keyed row's record does, and then
      it is the lookup that keeps the last record per number. */
  lemma LoadCarbonDataLastWins(rows: seq<Row>)
    ensures LoadCarbonData(rows).Success? <==>
      forall i :: 0 <= i < |rows| && Events.NumberKey(rows[i]).Some? ==> RecordOf(rows[i]).Success?
    ensures LoadCarbonData(rows).Success? ==>
      LoadCarbonData(rows).value == LastWins(rows, Events.NumberKey, RecordOrUnread)
  {
    TryLastWinsSucceeds(rows, Events.NumberKey, RecordOf, RecordOrUnread);
  }

  /** The numbers of the lookup are those of `load_reconfigurations`. */
  lemma LoadCarbonDataKeys(rows: seq<Row>)
    requires LoadCarbonData(rows).Success?
    ensures LoadCarbonData(rows).value.Keys == Events.LoadReconfigurations(rows).Keys
  {
    LoadCarbonDataLastWins(rows);
  }

  /** The loader's western marker `° W` implies the event parser's bare `W`,
      but not the other way round. */
  lemma WesternMarkers(text: string)
    ensures Contains(text, "° W") ==> Contains(text, "W")
  {
    if Contains(text, "° W") {
      var i := IndexOf(text, "° W").value;
      assert text[i..i + 3][2] == 'W';
      assert text[i + 2..i + 3] == "W";
      assert IsAt(text, "W", i + 2);
    }
  }

  /** A coordinate `<latitude>,<number>° W`, with no comma in the latitude
      and no comma or degree sign in the number, yields the negated number;
      with `° E` instead it yields the number itself. */
  lemma LoaderLongitudeMarked(latitude: string, number: string, x: real)
    requires forall k :: 0 <= k < |latitude| ==> latitude[k] != ','
    requires forall k :: 0 <= k < |number| ==> number[k] != ',' && number[k] != '°'
    requires Trim(number) != "" && ParseFloat(Trim(number)) == Some(x)
    ensures LoaderLongitude(latitude + "," + number + "° W") == Success(-x)
    ensures !Contains(latitude, "° W") ==> LoaderLongitude(latitude + "," + number + "° E") == Success(x)
  {
    MarkedMagnitude(number, x);
    SecondPiece(latitude, number, "° W");
    Events.WestMarked(latitude + "," + number);
    LoaderLongitudeOf(latitude + "," + number + "° W", number + "° W", x);
    if !Contains(latitude, "° W") {
      SecondPiece(latitude, number, "° E");
      EastNotWest(latitude, number);
      LoaderLongitudeOf(latitude + "," + number + "° E", number + "° E", x);
    }
  }

  lemma MarkedMagnitude(number: string, x: real)
    requires forall k :: 0 <= k < |number| ==> number[k] != '°'
    requires Trim(number) != "" && ParseFloat(Trim(number)) == Some(x)
    ensures LongitudeMagnitude(number + "° W") == Some(x)
    ensures LongitudeMagnitude(number + "° E") == Some(x)
  {
    Events.StripWest(number);
    Events.StripEast(number);
  }

  lemma LoaderLongitudeOf(text: string, piece: string, m: real)
    requires Contains(text, ",") && Split(text, ",")[1] == piece
    requires LongitudeMagnitude(piece) == Some(m)
    ensures LoaderLongitude(text) == Success(if Contains(text, "° W") then -m else m)
  {
    SplitPieces(text, ",");
  }

  /** `a + "," + b + marker` with no comma in `a` or `b` splits into `a`
      and `b + marker`. */
  lemma SecondPiece(a: string, b: string, marker: string)
    requires marker == "° W" || marker == "° E"
    requires forall k :: 0 <= k < |a| ==> a[k] != ','
    requires forall k :: 0 <= k < |b| ==> b[k] != ','
    ensures Contains(a + "," + b + marker, ",")
    ensures Split(a + "," + b + marker, ",") == [a, b + marker]
  {
    var tail := b + marker;
    assert a + "," + b + marker == a + "," + tail;
    SplitAtFirst(a, ",", tail);
    Lacks(tail, ",");
    SplitPieces(a + "," + tail, ",");
  }

  /** The `° E` form holds no `° W` beyond what the latitude holds. */
  lemma EastNotWest(latitude: string, number: string)
    requires forall k :: 0 <= k < |number| ==> number[k] != '°'
    requires !Contains(latitude, "° W")
    ensures !Contains(latitude + "," + number + "° E", "° W")
  {
    var s := latitude + "," + number + "° E";
    var n := |latitude|;
    forall j: nat
      ensures !IsAt(s, "° W", j)
    {
      if j + 3 <= |s| {
        assert s[j..j + 3][0] == s[j];
        assert s[j..j + 3][1] == s[j + 1];
        assert s[j..j + 3][2] == s[j + 2];
        if j + 3 <= n {
          assert latitude[j..j + 3] == s[j..j + 3];
          assert !IsAt(latitude, "° W", j);
        } else if j <= n {
          assert s[n] == ',';
        } else if j < n + 1 + |number| {
          assert s[j] == number[j - n - 1];
        } else {
          assert s[j + 2] == 'E';
        }
      }
    }
  }
}
