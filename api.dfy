/**
 * The request logic of the HTTP API (api/app.py), lifted out of Flask: the
 * automatic choice of aggregation window, the validation of a posted
 * measurement and the parse of the `limit` query parameter. A handler is a
 * function from the request's arguments, and from what the store answers, to
 * an HTTP status and a response body.
 */
module Api {
  import opened Common
  import opened PyStr

  /** A JSON value as `request.get_json()` hands it to a handler. */
  datatype Json =
    | JNull
    | JBool(b: bool)
    | JInt(i: int)
    | JFloat(f: real)
    | JString(s: string)
    | JArray(items: seq<Json>)
    | JObject(fields: map<string, Json>)

  /** How a call into the store ended: with a value, or by raising. */
  datatype StoreCall<T> = Returned(value: T) | RaisedValueError | RaisedOther

  /** The JSON body of a response, one constructor per shape the handlers produce. */
  datatype Body =
      /** `{"message": ..., "sensor_id": ...}` */
    | Stored(message: string, sensor: Json)
      /** `{"error": ...}` */
    | Error(error: string)
      /** `{"error": ..., "missing": [...]}` */
    | MissingFields(error: string, missing: seq<string>)
      /** `{"error": "Internal server error", "details": str(e)}` */
    | InternalError
    | Measurements(sensorId: string, count: nat, measurements: seq<Json>)
    | Aggregated(sensorId: string, count: nat, window: string, measurements: seq<Json>)
    | Statistics(sensorId: string, count: nat, window: string, statistics: seq<Json>)

  datatype Response = Response(status: int, body: Body)

  /** What the raw read is asked for. */
  datatype RawQuery = RawQuery(sensorId: string, start: Option<string>, end: Option<string>, limit: int)

  /** What an aggregated or statistics read is asked for. */
  datatype WindowQuery = WindowQuery(sensorId: string, start: string, end: Option<string>, window: string)

  /** The measurement handed to the store's write. */
  datatype Measurement = Measurement(sensorId: Json, timestamp: Json, temperature: Json, conductivity: Json)

  // ---------------------------------------------------------------------------
  // Window selection
  // ---------------------------------------------------------------------------

  /** `start` when the query string has none. */
  const DefaultStart: string := "-7d"

  /**
   * The resolution an aggregated or statistics query reads from. A non-empty
   * explicit `window` wins; otherwise a relative `start` picks "1m" or "5m" by
   * unit and magnitude, and anything else picks "5m". `None` stands for the
   * `ValueError` that `int()` raises when the magnitude is not an integer.
   */
  function SelectWindow(start: string, window: Option<string>): (r: Option<string>)
    ensures window.Some? && window.value != "" ==> r == window
    ensures (window.None? || window.value == "") && r.Some? ==> r.value == "1m" || r.value == "5m"
    ensures r.None? ==> (window.None? || window.value == "") && StartsWith(start, "-") && ('m' in start || 'h' in start)
    ensures (window.None? || window.value == "") && !StartsWith(start, "-") ==> r == Some("5m")
    ensures (window.None? || window.value == "") && StartsWith(start, "-") && 'm' !in start && 'h' !in start ==> r == Some("5m")
  {
    if window.Some? && window.value != "" then window
    else if StartsWith(start, "-") then
      if 'm' in start then
        match ParseInt(RemoveChar(RemoveChar(start, '-'), 'm'))
        case None => None
        case Some(minutes) => Some(if minutes <= 60 then "1m" else "5m")
      else if 'h' in start then
        match ParseInt(RemoveChar(RemoveChar(start, '-'), 'h'))
        case None => None
        case Some(hours) => Some(if hours <= 1 then "1m" else "5m")
      else if 'd' in start then Some("5m")
      else Some("5m")
    else Some("5m")
  }

  /** Removing every `-` and then every `unit` from `-<n><unit>` leaves the digits of `n`. */
  lemma StrippedMagnitude(n: nat, unit: char)
    requires !IsDigit(unit) && unit != '-'
    ensures var start := "-" + ShowNat(n) + [unit];
            StartsWith(start, "-") && unit in start && RemoveChar(RemoveChar(start, '-'), unit) == ShowNat(n)
  {
    var digits := ShowNat(n);
    var start := "-" + digits + [unit];
    assert start == "-" + (digits + [unit]);
    assert start[|start| - 1] == unit;
    calc {
      RemoveChar(RemoveChar(start, '-'), unit);
    == { RemoveCharConcat("-", digits + [unit], '-');
         assert RemoveChar("-", '-') == [];
         RemoveCharAbsent(digits + [unit], '-');
         assert RemoveChar(start, '-') == [] + (digits + [unit]) == digits + [unit]; }
      RemoveChar(digits + [unit], unit);
    == { RemoveCharConcat(digits, [unit], unit);
         assert RemoveChar([unit], unit) == [];
         RemoveCharAbsent(digits, unit); }
      digits;
    }
  }

  /** `-<n>m`: one-minute windows up to an hour back, five-minute windows beyond. */
  lemma MinutesRule(n: nat)
    ensures SelectWindow("-" + ShowNat(n) + "m", None) == Some(if n <= 60 then "1m" else "5m")
  {
    StrippedMagnitude(n, 'm');
    ParseShowNat(n);
  }

  /** `-<n>h`: one-minute windows for at most one hour back, five-minute windows beyond. */
  lemma HoursRule(n: nat)
    ensures SelectWindow("-" + ShowNat(n) + "h", None) == Some(if n <= 1 then "1m" else "5m")
  {
    var start := "-" + ShowNat(n) + "h";
    assert start == "-" + (ShowNat(n) + "h");
    assert 'm' !in start;
    StrippedMagnitude(n, 'h');
    ParseShowNat(n);
  }

  /** `-<n>d`, whatever `n`: five-minute windows. */
  lemma DaysRule(n: nat)
    ensures SelectWindow("-" + ShowNat(n) + "d", None) == Some("5m")
  {
    var start := "-" + ShowNat(n) + "d";
    assert 'm' !in start && 'h' !in start && 'd' in start;
  }

  /** `-30m` reads one-minute windows, `-90m` five-minute ones. */
  lemma MinuteExamples()
    ensures SelectWindow("-30m", None) == Some("1m")
    ensures SelectWindow("-90m", None) == Some("5m")
  {
    MinutesRule(30);
    assert ShowNat(3) == "3";
    assert "-" + ShowNat(30) + "m" == "-30m";
    MinutesRule(90);
    assert ShowNat(9) == "9";
    assert "-" + ShowNat(90) + "m" == "-90m";
  }

  /** `-1h` reads one-minute windows, `-3h` five-minute ones. */
  lemma HourExamples()
    ensures SelectWindow("-1h", None) == Some("1m")
    ensures SelectWindow("-3h", None) == Some("5m")
  {
    HoursRule(1);
    assert "-" + ShowNat(1) + "h" == "-1h";
    HoursRule(3);
    assert "-" + ShowNat(3) + "h" == "-3h";
  }

  /** Days, the default start and an absolute timestamp all read five-minute windows. */
  lemma FiveMinuteExamples()
    ensures SelectWindow("-2d", None) == Some("5m")
    ensures SelectWindow(DefaultStart, None) == Some("5m")
    ensures SelectWindow("2024-01-01T00:00:00Z", None) == Some("5m")
  {
    DaysRule(2);
    assert "-" + ShowNat(2) + "d" == "-2d";
    DaysRule(7);
    assert "-" + ShowNat(7) + "d" == DefaultStart;
  }

  /** A relative start in seconds, or a bare `-`, reaches the last fallback and reads five-minute windows. */
  lemma OtherUnitsExamples()
    ensures SelectWindow("-30s", None) == Some("5m")
    ensures SelectWindow("-", None) == Some("5m")
  {
    assert 'm' !in "-30s" && 'h' !in "-30s";
  }

  /** An explicit window is used as given; an empty one counts as absent. */
  lemma OverrideExamples()
    ensures SelectWindow("-30m", Some("15m")) == Some("15m")
    ensures SelectWindow("-30m", Some("1h")) == Some("1h")
    ensures SelectWindow("-30m", Some("")) == Some("1m")
  {
    MinuteExamples();
  }

  lemma MixedUnitsText()
    ensures RemoveChar(RemoveChar("-1h30m", '-'), 'm') == "1h30"
  {
    RemoveCharConcat("-", "1h30m", '-');
    assert "-" + "1h30m" == "-1h30m";
    RemoveCharAbsent("1h30m", '-');
    RemoveCharConcat("1h30", "m", 'm');
    assert "1h30" + "m" == "1h30m";
    RemoveCharAbsent("1h30", 'm');
  }

  lemma MixedUnitsNotInteger()
    ensures ParseInt("1h30") == None
  {
    StripUnchanged("1h30", IntSpace);
    assert "1h30"[1] == 'h';
  }

  /**
   * A start with `m` anywhere whose magnitude is not an integer once every `-`
   * and `m` is removed makes the request fail: `-1h30m` leaves `1h30`.
   */
  lemma MixedUnitsFail()
    ensures SelectWindow("-1h30m", None) == None
  {
    MixedUnitsText();
    MixedUnitsNotInteger();
    assert 'm' in "-1h30m";
  }

  /** `-xm` and a bare `-m` fail the same way. */
  lemma NonNumericMinutesFail()
    ensures SelectWindow("-xm", None) == None
    ensures SelectWindow("-m", None) == None
  {
    assert RemoveChar(RemoveChar("-xm", '-'), 'm') == "x";
    StripUnchanged("x", IntSpace);
    assert RemoveChar(RemoveChar("-m", '-'), 'm') == "";
  }

  lemma InformationSeparatorText()
    ensures RemoveChar(RemoveChar("-\U{1C}30m", '-'), 'm') == "\U{1C}30"
  {
    RemoveCharConcat("-", "\U{1C}30m", '-');
    assert "-" + "\U{1C}30m" == "-\U{1C}30m";
    RemoveCharAbsent("\U{1C}30m", '-');
    RemoveCharConcat("\U{1C}30", "m", 'm');
    assert "\U{1C}30" + "m" == "\U{1C}30m";
    RemoveCharAbsent("\U{1C}30", 'm');
  }

  /** A U+001C after the minus sign is left in by the two replacements and makes `int()` fail. */
  lemma InformationSeparatorStartFails()
    ensures SelectWindow("-\U{1C}30m", None) == None
  {
    InformationSeparatorText();
    StripUnchanged("\U{1C}30", IntSpace);
    assert ParseInt("\U{1C}30") == None;
    assert 'm' in "-\U{1C}30m";
  }

  // ---------------------------------------------------------------------------
  // GET handlers
  // ---------------------------------------------------------------------------

  /** `GET /measurements/<sensor_id>/aggregated`: the selected window and the rows read at it. */
  function GetAggregated(sensorId: string, start: Option<string>, end: Option<string>, window: Option<string>,
                         read: WindowQuery -> StoreCall<seq<Json>>): (r: Response)
    ensures r.status == 200 || r == Response(500, InternalError)
    ensures r.status == 200 <==>
      SelectWindow(start.GetOr(DefaultStart), window).Some? &&
      read(WindowQuery(sensorId, start.GetOr(DefaultStart), end, SelectWindow(start.GetOr(DefaultStart), window).value)).Returned?
    ensures r.status == 200 ==>
      r.body.Aggregated? && r.body.sensorId == sensorId && r.body.count == |r.body.measurements| &&
      Some(r.body.window) == SelectWindow(start.GetOr(DefaultStart), window) &&
      read(WindowQuery(sensorId, start.GetOr(DefaultStart), end, r.body.window)) == Returned(r.body.measurements)
  {
    var startTime := start.GetOr(DefaultStart);
    match SelectWindow(startTime, window)
    case None => Response(500, InternalError)
    case Some(w) =>
      match read(WindowQuery(sensorId, startTime, end, w))
      case Returned(rows) => Response(200, Aggregated(sensorId, |rows|, w, rows))
      case _ => Response(500, InternalError)
  }

  /**
   * The window rule as the statistics handler writes it out again: the same
   * branches, the same thresholds, the same fallback.
   */
  function StatisticsWindow(start: string, window: Option<string>): (r: Option<string>)
  {
    if window.Some? && window.value != "" then window
    else if StartsWith(start, "-") then
      if 'm' in start then
        match ParseInt(RemoveChar(RemoveChar(start, '-'), 'm'))
        case None => None
        case Some(minutes) => Some(if minutes <= 60 then "1m" else "5m")
      else if 'h' in start then
        match ParseInt(RemoveChar(RemoveChar(start, '-'), 'h'))
        case None => None
        case Some(hours) => Some(if hours <= 1 then "1m" else "5m")
      else if 'd' in start then Some("5m")
      else Some("5m")
    else Some("5m")
  }

  /** The statistics handler's copy of the window rule agrees with the aggregated handler's on every query. */
  lemma StatisticsWindowAgrees(start: string, window: Option<string>)
    ensures StatisticsWindow(start, window) == SelectWindow(start, window)
  {
  }

  /** `GET /measurements/<sensor_id>/statistics`: its own copy of the window rule, reading statistics rows. */
  function GetStatistics(sensorId: string, start: Option<string>, end: Option<string>, window: Option<string>,
                         read: WindowQuery -> StoreCall<seq<Json>>): (r: Response)
    ensures r.status == 200 || r == Response(500, InternalError)
    ensures r.status == 200 <==>
      SelectWindow(start.GetOr(DefaultStart), window).Some? &&
      read(WindowQuery(sensorId, start.GetOr(DefaultStart), end, SelectWindow(start.GetOr(DefaultStart), window).value)).Returned?
    ensures r.status == 200 ==>
      r.body.Statistics? && r.body.sensorId == sensorId && r.body.count == |r.body.statistics| &&
      Some(r.body.window) == SelectWindow(start.GetOr(DefaultStart), window) &&
      read(WindowQuery(sensorId, start.GetOr(DefaultStart), end, r.body.window)) == Returned(r.body.statistics)
  {
    var startTime := start.GetOr(DefaultStart);
    StatisticsWindowAgrees(startTime, window);
    match StatisticsWindow(startTime, window)
    case None => Response(500, InternalError)
    case Some(w) =>
      match read(WindowQuery(sensorId, startTime, end, w))
      case Returned(rows) => Response(200, Statistics(sensorId, |rows|, w, rows))
      case _ => Response(500, InternalError)
  }

  /** The two endpoints choose the same window for the same query, and fail on the same queries. */
  lemma EndpointsSelectAlike(sensorId: string, start: Option<string>, end: Option<string>, window: Option<string>,
                             readAggregated: WindowQuery -> StoreCall<seq<Json>>, readStatistics: WindowQuery -> StoreCall<seq<Json>>)
    requires forall q :: readAggregated(q).Returned? <==> readStatistics(q).Returned?
    ensures var a := GetAggregated(sensorId, start, end, window, readAggregated);
            var s := GetStatistics(sensorId, start, end, window, readStatistics);
            a.status == s.status && (a.status == 200 ==> a.body.window == s.body.window)
  {
  }

  /** The `limit` query parameter: 100 when absent, else `int()` of its text. */
  function LimitOf(limit: Option<string>): Option<int> {
    if limit.None? then Some(100) else ParseInt(limit.value)
  }

  /**
   * `GET /measurements/<sensor_id>`. A `limit` that is not an integer gives 400;
   * so does a `ValueError` raised inside the read, since one `except ValueError`
   * covers the whole handler.
   */
  function GetMeasurements(sensorId: string, start: Option<string>, end: Option<string>, limit: Option<string>,
                           read: RawQuery -> StoreCall<seq<Json>>): (r: Response)
    ensures r.status == 200 || r.status == 400 || r == Response(500, InternalError)
    ensures r.status == 400 <==> r.body == Error("Invalid limit parameter")
    ensures LimitOf(limit).None? ==> r == Response(400, Error("Invalid limit parameter"))
    ensures LimitOf(limit).Some? ==>
      (r.status == 200 <==> read(RawQuery(sensorId, start, end, LimitOf(limit).value)).Returned?) &&
      (r.status == 400 <==> read(RawQuery(sensorId, start, end, LimitOf(limit).value)).RaisedValueError?)
    ensures r.status == 200 ==>
      r.body.Measurements? && r.body.sensorId == sensorId && r.body.count == |r.body.measurements| &&
      read(RawQuery(sensorId, start, end, LimitOf(limit).value)) == Returned(r.body.measurements)
  {
    match LimitOf(limit)
    case None => Response(400, Error("Invalid limit parameter"))
    case Some(n) =>
      match read(RawQuery(sensorId, start, end, n))
      case Returned(rows) => Response(200, Measurements(sensorId, |rows|, rows))
      case RaisedValueError => Response(400, Error("Invalid limit parameter"))
      case RaisedOther => Response(500, InternalError)
  }

  /** An absent `limit` reads 100 rows; a written one reads what `int()` makes of it, sign included. */
  lemma LimitExamples()
    ensures LimitOf(None) == Some(100)
    ensures LimitOf(Some("25")) == Some(25)
    ensures LimitOf(Some("-5")) == Some(-5)
    ensures LimitOf(Some("ten")) == None
    ensures LimitOf(Some("")) == None
  {
    ParseShowNat(25);
    assert ShowNat(2) == "2";
    assert ShowNat(25) == "25";
    ParseShowNegative(5);
    assert "-" + ShowNat(5) == "-5";
    StripUnchanged("ten", IntSpace);
    assert !IsDigit("ten"[0]);
  }

  /** Any integer written in decimal, with a leading `-` when negative, is read back as the limit. */
  lemma LimitRoundTrip(n: int)
    ensures LimitOf(Some(if n < 0 then "-" + ShowNat(-n) else ShowNat(n))) == Some(n)
  {
    if n < 0 {
      ParseShowNegative(-n);
    } else {
      ParseShowNat(n);
    }
  }

  /**
   * `int()` does not skip the separator U+001C, which `str.isspace()` counts as
   * whitespace: such a `limit` is rejected.
   */
  lemma LimitInformationSeparatorRejected(read: RawQuery -> StoreCall<seq<Json>>)
    ensures LimitOf(Some("\U{1C}5")) == None
    ensures GetMeasurements("s", None, None, Some("\U{1C}5"), read) == Response(400, Error("Invalid limit parameter"))
  {
    StripUnchanged("\U{1C}5", IntSpace);
  }

  /** `int()` skips surrounding whitespace and reads `_` between digits. */
  lemma LimitSeparatorExample()
    ensures LimitOf(Some(" 1_000 ")) == Some(1000)
  {
    assert Strip(" 1_000 ", IntSpace) == "1_000";
    assert IsDigitGroup("1_000");
    assert DigitsValue("1_000") == 1000 by {
      assert "1_000"[..4] == "1_00";
      assert "1_00"[..3] == "1_0";
      assert "1_0"[..2] == "1_";
      assert "1_"[..1] == "1";
      assert "1"[..0] == "";
    }
  }

  // ---------------------------------------------------------------------------
  // POST /measurements
  // ---------------------------------------------------------------------------

  /** The fields a posted measurement must carry, in the order they are reported. */
  const Required: seq<string> := ["sensor_id", "timestamp", "temperature", "conductivity"]

  /** Whether `p` occurs in `s` as a contiguous piece (Python's `p in s` on strings). */
  predicate IsSubstring(p: string, s: string) {
    p <= s || (s != [] && IsSubstring(p, s[1..]))
  }

  /** Values on which Python's `field in data` is defined: a dict, a list or a string. */
  predicate IsContainer(data: Json) {
    data.JObject? || data.JArray? || data.JString?
  }

  /** Python's `field in data`: a key of a dict, an element of a list, a substring of a string. */
  predicate Has(data: Json, field: string)
    requires IsContainer(data)
  {
    match data
    case JObject(m) => field in m
    case JArray(items) => JString(field) in items
    case JString(s) => IsSubstring(field, s)
  }

  /** `a` is `b` with some elements left out, order kept. */
  predicate IsSubsequence(a: seq<string>, b: seq<string>) {
    a == [] || (b != [] && if a[0] == b[0] then IsSubsequence(a[1..], b[1..]) else IsSubsequence(a, b[1..]))
  }

  /** The fields of `fields` that `data` lacks: all of them, and in the order of `fields`. */
  function Missing(data: Json, fields: seq<string>): seq<string>
    requires IsContainer(data)
  {
    if fields == [] then []
    else
      var rest := Missing(data, fields[1..]);
      if Has(data, fields[0]) then rest else [fields[0]] + rest
  }

  /** `Missing` lists every field `data` lacks and nothing else, in the order of `fields`. */
  lemma {:induction false} MissingSpec(data: Json, fields: seq<string>)
    requires IsContainer(data)
    ensures forall f :: f in Missing(data, fields) <==> f in fields && !Has(data, f)
    ensures IsSubsequence(Missing(data, fields), fields)
  {
    if fields != [] {
      MissingSpec(data, fields[1..]);
      assert fields == [fields[0]] + fields[1..];
    }
  }

  /** Python's `isinstance(v, (int, float))`; `bool` is a subclass of `int`. */
  predicate IsNumber(v: Json) {
    v.JBool? || v.JInt? || v.JFloat?
  }

  /** A body that passes every check before the write. */
  predicate ValidPayload(body: Option<Json>) {
    body.Some? && body.value.JObject? &&
    (forall f :: f in Required ==> f in body.value.fields) &&
    IsNumber(body.value.fields["temperature"]) && IsNumber(body.value.fields["conductivity"])
  }

  function PayloadOf(body: Option<Json>): Measurement
    requires ValidPayload(body)
  {
    var m := body.value.fields;
    Measurement(m["sensor_id"], m["timestamp"], m["temperature"], m["conductivity"])
  }

  /**
   * `POST /measurements`. `body` is `None` when `request.get_json()` raises.
   * Presence of all four fields is checked first, then the type of
   * `temperature`, then that of `conductivity`; only then is the store written.
   * Any exception on the way (an unreadable body, `in` on a number, indexing a
   * list or a string by a field name, a raising write) gives 500.
   */
  function CreateMeasurement(body: Option<Json>, write: Measurement -> StoreCall<bool>): (r: Response)
    ensures r.status == 201 || r.status == 400 || r.status == 500
    // bad input is the only cause of a 400, and a valid payload meets the store
    ensures r.status == 400 ==> !ValidPayload(body)
    ensures ValidPayload(body) ==>
      (r.status == 201 <==> write(PayloadOf(body)) == Returned(true)) &&
      (write(PayloadOf(body)) == Returned(false) ==> r == Response(500, Error("Failure"))) &&
      (write(PayloadOf(body)).RaisedValueError? || write(PayloadOf(body)).RaisedOther? ==> r == Response(500, InternalError))
    ensures r.status == 201 ==> ValidPayload(body) && r.body == Stored("Success", body.value.fields["sensor_id"])
    // presence comes before type: every absent field is reported, in order, whatever the other values
    ensures body.Some? && IsContainer(body.value) && Missing(body.value, Required) != [] ==>
      r == Response(400, MissingFields("Missing required fields", Missing(body.value, Required)))
    ensures r.body.MissingFields? ==> body.Some? && IsContainer(body.value)
    // an unreadable body, a value `in` cannot search, or a list or string that
    // passes the presence check but cannot be indexed by a field name: 500
    ensures body.None? || !IsContainer(body.value) || (!body.value.JObject? && Missing(body.value, Required) == []) ==>
      r == Response(500, InternalError)
    // then temperature before conductivity
    ensures body.Some? && body.value.JObject? && (forall f :: f in Required ==> f in body.value.fields) ==>
      (!IsNumber(body.value.fields["temperature"]) ==> r == Response(400, Error("temperature must be a number"))) &&
      (IsNumber(body.value.fields["temperature"]) && !IsNumber(body.value.fields["conductivity"]) ==>
         r == Response(400, Error("conductivity must be a number")))
  {
    if body.None? || !IsContainer(body.value) then Response(500, InternalError)
    else
      var data := body.value;
      var missing := Missing(data, Required);
      MissingSpec(data, Required);
      assert missing != [] ==> missing[0] in missing;
      if missing != [] then Response(400, MissingFields("Missing required fields", missing))
      else if !data.JObject? then Response(500, InternalError)
      else
        assert forall f :: f in Required ==> f in data.fields;
        var m := data.fields;
        if !IsNumber(m["temperature"]) then Response(400, Error("temperature must be a number"))
        else if !IsNumber(m["conductivity"]) then Response(400, Error("conductivity must be a number"))
        else
          match write(Measurement(m["sensor_id"], m["timestamp"], m["temperature"], m["conductivity"]))
          case Returned(true) => Response(201, Stored("Success", m["sensor_id"]))
          case Returned(false) => Response(500, Error("Failure"))
          case _ => Response(500, InternalError)
  }

  /** A payload without `conductivity` is rejected naming just that field. */
  lemma MissingConductivityExample(write: Measurement -> StoreCall<bool>)
    ensures CreateMeasurement(Some(JObject(map["sensor_id" := JString("s1"), "timestamp" := JString("t"),
                                                "temperature" := JFloat(20.5)])), write)
            == Response(400, MissingFields("Missing required fields", ["conductivity"]))
  {
    var m := map["sensor_id" := JString("s1"), "timestamp" := JString("t"), "temperature" := JFloat(20.5)];
    assert Missing(JObject(m), Required) == ["conductivity"];
  }

  /** An empty object is rejected naming all four fields, in order. */
  lemma EmptyObjectExample(write: Measurement -> StoreCall<bool>)
    ensures CreateMeasurement(Some(JObject(map[])), write)
            == Response(400, MissingFields("Missing required fields", Required))
  {
    assert Missing(JObject(map[]), Required) == Required;
  }

  /** A string `temperature` is rejected naming `temperature`. */
  lemma TemperatureTypeExample(write: Measurement -> StoreCall<bool>)
    ensures CreateMeasurement(Some(JObject(map["sensor_id" := JString("s1"), "timestamp" := JString("t"),
                                                "temperature" := JString("hot"), "conductivity" := JFloat(1.5)])), write)
            == Response(400, Error("temperature must be a number"))
  {
  }

  /** A boolean passes the number check, since `bool` is a subclass of `int`. */
  lemma BooleanIsNumberExample(write: Measurement -> StoreCall<bool>)
    requires write(Measurement(JString("s1"), JString("t"), JBool(true), JFloat(1.5))) == Returned(true)
    ensures CreateMeasurement(Some(JObject(map["sensor_id" := JString("s1"), "timestamp" := JString("t"),
                                                "temperature" := JBool(true), "conductivity" := JFloat(1.5)])), write)
            == Response(201, Stored("Success", JString("s1")))
  {
  }

  /**
   * A list holding the four names passes the presence check (Python's `in` on a
   * list), but indexing it by a field name raises, giving 500.
   */
  lemma ListPayloadExample(write: Measurement -> StoreCall<bool>)
    ensures CreateMeasurement(Some(JArray([JString("sensor_id"), JString("timestamp"),
                                           JString("temperature"), JString("conductivity")])), write)
            == Response(500, InternalError)
  {
    var data := JArray([JString("sensor_id"), JString("timestamp"), JString("temperature"), JString("conductivity")]);
    assert Missing(data, Required) == [];
  }
}
