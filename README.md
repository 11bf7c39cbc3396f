# Water-quality monitoring service: verified model of its core

The service ingests temperature and conductivity readings from water-quality
sensors. It stores them in InfluxDB and downsamples them into 1-minute and
5-minute series through InfluxDB tasks. This project models three pieces of
that service in Dafny and proves properties about them.

- **HTTP request logic** (`api/app.py`), module `Api` in `api.dfy`:
  - the automatic choice of aggregation window shared by the aggregated and
    statistics endpoints;
  - the validation chain of `POST /measurements`;
  - the `limit` parse of `GET /measurements/<sensor_id>`.

  A handler is a function from the query arguments, and from what the store
  answers, to a status and a body.
- **Aggregation task manager** (`operations/aggregation_tasks.py`), module
  `AggregationTasks` in `aggregation_tasks.dfy`:
  - The class `AggregationTaskManager` holds the server's task registry as a
    `seq<Task>` field and the next task id.
  - Its methods create, list and delete tasks. Each method that changes the
    registry is proved to have the effect of a specification function of the
    old registry: `Create`, `GroupEffect`, `SetupEffect`, `Delete` or
    `DeleteSeq`. `CreateAll`, the creates of a list of specs in order, is the
    function the loop invariant of `CreateGroup` states.
  - `ListTasks` changes nothing. Its contract states the returned tasks and
    the status line reported for each one.
  - Whether a call into the InfluxDB task API raises is an argument of the
    method: a `Fault` per task name, or a `DeleteFault` per deleted name.
  - The Flux script of a task is a record (`FluxScript`), not text.
- **Log-file naming** (`utils/logger_config.py`), module `LoggerConfig` in
  `logger_config.dfy`: `sanitize_log_name` is a method with the source's loop
  of `replace` calls, proved against a position-wise specification.

Two support modules:

- `Common` (`common.dfy`) holds `Option`.
- `PyStr` (`py_str.dfy`) states the Python built-ins the code leans on:
  - `str.isspace` and `str.strip`;
  - one-character `str.replace`;
  - `int()` of a string: surrounding whitespace, an optional sign, and `_`
    between digits. A `ValueError` is `None`. `int()` skips a smaller
    whitespace set than `strip()`: it does not skip the separators
    U+001C..U+001F.

In a few places the code behaves differently from what the service intends.
The model follows the code:

- **Compound start values.** The intended rule picks 5-minute windows for any
  start it does not recognise. In the code, a start such as `-1h30m` contains
  `m`. Removing every `-` and `m` leaves `1h30`, so `int()` raises and the
  endpoint answers 500.
- **Lookup failures during setup.** The intent is that a failure to set up one
  task is reported and setup carries on. In the code, when the lookup of a
  task name raises during setup, the exception escapes `setup_all_tasks`. Only
  a failing create call is caught and reported per task.
- **Malformed POST bodies.** A bad payload is meant to be rejected as a
  validation error (400). In the code, four kinds of body answer with the
  internal-error 500 instead:
  - a body that is not JSON;
  - JSON that is not an object, a list or a string;
  - a list holding the four field names;
  - a string containing them.
- **Failed deletes.** `delete_task` reports `False` both when no task has the
  name and when a call raises. A delete that raises part-way leaves the
  earlier matches deleted.
- **Whitespace between separators.** A log name made of whitespace and slashes
  gives `default_logger` only when no whitespace sits between the slashes
  once the outer whitespace is stripped. For example, `"/ /"` becomes `"_"`.

## Model

| member | source | states |
|---|---|---|
| Api.SelectWindow | api/app.py:133-150 | A non-empty explicit window is used unchanged. Without one, the result is "1m" or "5m". A start that does not begin with `-` gives "5m", and so does a relative start containing neither `m` nor `h` (`-2d`, `-30s`, a bare `-`). Failure (the `ValueError` of `int()`) is possible only for a relative start containing `m` or `h`. |
| Api.MinutesRule | api/app.py:138-140 | For every n, `-<n>m` selects "1m" exactly when n ≤ 60, else "5m". |
| Api.HoursRule | api/app.py:141-143 | For every n, `-<n>h` selects "1m" exactly when n ≤ 1, else "5m". |
| Api.DaysRule | api/app.py:144-145 | For every n, `-<n>d` selects "5m". |
| Api.StrippedMagnitude | api/app.py:139 | Removing every `-`, then every unit letter, from `-<n><unit>` leaves exactly the decimal digits of n. |
| Api.MinuteExamples | api/app.py:138-140 | `-30m` selects "1m"; `-90m` selects "5m". |
| Api.HourExamples | api/app.py:141-143 | `-1h` selects "1m"; `-3h` selects "5m". |
| Api.FiveMinuteExamples | api/app.py:129-150 | `-2d`, the default start `-7d` and an absolute timestamp all select "5m". |
| Api.OtherUnitsExamples | api/app.py:136-147 | `-30s` and a bare `-` select "5m". |
| Api.OverrideExamples | api/app.py:131-134 | An explicit "15m" or "1h" is used as given. An empty window counts as absent. |
| Api.MixedUnitsText | api/app.py:139 | The text `int()` sees for `-1h30m` is `1h30`. |
| Api.MixedUnitsNotInteger | api/app.py:139 | `int("1h30")` raises. |
| Api.MixedUnitsFail | api/app.py:138-139 | `-1h30m` makes window selection fail, not fall back to "5m". |
| Api.InformationSeparatorText | api/app.py:139 | For `-<U+001C>30m`, the text `int()` sees is `<U+001C>30`. |
| Api.InformationSeparatorStartFails | api/app.py:138-139 | `-<U+001C>30m` makes window selection fail, because `int()` does not skip U+001C. |
| Api.NonNumericMinutesFail | api/app.py:138-139 | `-xm` and `-m` make window selection fail. |
| Api.GetAggregated | api/app.py:128-170 | The answer is 200 exactly when a window is selected and the read at that window returns; otherwise it is the 500 internal-error body. On 200, the body carries the selected window, the rows read at that window and their count. |
| Api.StatisticsWindowAgrees | api/app.py:192-206 | The statistics handler's own copy of the window rule (`StatisticsWindow`) gives the same answer as `SelectWindow` on every start and window. |
| Api.GetStatistics | api/app.py:187-226 | The same rule for the statistics read: 200 exactly when a window is selected and the read returns, with that window, the rows and their count; otherwise the 500 body. |
| Api.EndpointsSelectAlike | api/app.py:133-150 | When the aggregated and statistics reads succeed on the same queries, the two endpoints give the same status for the same query and, on 200, report the same window. |
| Api.GetMeasurements | api/app.py:76-100 | A `limit` that is not an integer gives the 400 "Invalid limit parameter". Otherwise the result is 200 exactly when the read returns, and 400 exactly when the read raises `ValueError`. Any other exception gives 500. A 200 carries the rows read and their count. |
| Api.LimitExamples | api/app.py:79 | An absent limit reads 100. "25" reads 25 and "-5" reads -5. "ten" and "" are rejected. |
| Api.LimitRoundTrip | api/app.py:79 | Every integer written in decimal is read back as that integer. |
| Api.LimitInformationSeparatorRejected | api/app.py:79-97 | A `limit` of `<U+001C>5` is not an integer for `int()`, so the request answers 400 "Invalid limit parameter". |
| Api.LimitSeparatorExample | api/app.py:79 | `" 1_000 "` reads as 1000, because `int()` strips whitespace and accepts `_` between digits. |
| Api.MissingSpec | api/app.py:37-38 | The missing list holds exactly the required fields that the payload lacks, in the order of the required list. |
| Api.CreateMeasurement | api/app.py:36-70 | The order of checks is presence, then temperature type, then conductivity type; every missing field is reported. A 400 only ever comes from bad input. A valid payload answers 201 exactly when the write returns true, the "Failure" 500 when it returns false, and the internal-error 500 when it raises. A 201 echoes the `sensor_id`. An unreadable body, a value `in` cannot search, or a list or string that passes the presence check answers the internal-error 500. |
| Api.MissingConductivityExample | api/app.py:37-46 | A payload without `conductivity` is rejected naming only that field. |
| Api.EmptyObjectExample | api/app.py:37-46 | An empty object is rejected naming all four fields in order. |
| Api.TemperatureTypeExample | api/app.py:49-50 | A string temperature is rejected naming `temperature`. |
| Api.BooleanIsNumberExample | api/app.py:49-64 | A boolean passes the number check, since `bool` is an `int` in Python. |
| Api.ListPayloadExample | api/app.py:38-70 | A list holding the four names passes the presence check, but the handler then fails with 500. |
| PyStr.StripSpec | utils/logger_config.py:9 | `strip` keeps a middle slice that neither starts nor ends with a stripped character, and removes only stripped characters around it. |
| PyStr.ReplaceChar | utils/logger_config.py:12 | A one-character `replace` keeps the length and substitutes exactly the matching positions. |
| PyStr.RemoveCharSpec | api/app.py:139 | `replace(c, "")` leaves no `c` and keeps every other character. |
| PyStr.ParseShowNat | api/app.py:79 | `int(str(m)) == m` for every natural m. |
| PyStr.ParseShowNegative | api/app.py:79 | `int("-" + str(m)) == -m`. |
| PyStr.ParseIntNonNegative | api/app.py:139 | Text with no `-` never parses to a negative number. |
| AggregationTasks.RunsTileTime | operations/aggregation_tasks.py:38-48 | For "1m" and "5m", a run at an aligned time reads exactly one aligned window. That window closed at least one window earlier, and the next run reads the window right after it. The offset is below the period. |
| AggregationTasks.OneMinuteSeconds | operations/aggregation_tasks.py:39-43 | The 1-minute schedule's durations in seconds: every 60, range -120 to -60, offset 10. |
| AggregationTasks.FiveMinuteSeconds | operations/aggregation_tasks.py:44-48 | The 5-minute schedule's durations in seconds: every 300, range -4200 to -3900, offset 30. |
| AggregationTasks.ScriptShape | operations/aggregation_tasks.py:50-65 | A task script reads only `water_quality` temperature and conductivity, and skips empty windows. It tags the statistic and writes `water_quality_<window>` to the bucket it read. Its output series differs from its input series. |
| AggregationTasks.NamedSpec | operations/aggregation_tasks.py:33 | A lookup by name returns exactly the tasks of that name. |
| AggregationTasks.CreateByName | operations/aggregation_tasks.py:33-77 | A raising lookup raises and changes nothing. A registered name returns a task of that name and changes nothing. Otherwise the result is a new active task with a fresh id, appended exactly when the create call succeeds; a failed create returns `None` and changes nothing. |
| AggregationTasks.CreateTwice | operations/aggregation_tasks.py:33-36 | Creating a name a second time returns the first call's task and changes nothing. |
| AggregationTasks.AggregationTaskManager.CreateAggregationTask | operations/aggregation_tasks.py:23-77 | The result and the new registry are those of `Create` on the old registry, and the registry stays well formed. |
| AggregationTasks.AggregationTaskManager.CreateGroup | operations/aggregation_tasks.py:81-91 | Running a group's creates in order gives the effect and result of `GroupEffect`: an exception stops the group, otherwise the result is whether every create produced a task. |
| AggregationTasks.AggregationTaskManager.CreateOneMinuteTasks | operations/aggregation_tasks.py:79-91 | The effect of the 1-minute group (mean, min, max). |
| AggregationTasks.AggregationTaskManager.CreateFiveMinuteTasks | operations/aggregation_tasks.py:93-105 | The effect of the 5-minute group (mean, min, max). |
| AggregationTasks.AggregationTaskManager.SetupAllTasks | operations/aggregation_tasks.py:107-122 | The effect of `SetupEffect`: both groups in order; true only if both report success. |
| AggregationTasks.CreateAllStopsAtRaise | operations/aggregation_tasks.py:81-91 | Once a create raises, the later creates change neither the outcome nor the registry. |
| AggregationTasks.CreateAllRaises | operations/aggregation_tasks.py:33 | A run of creates raises exactly when the lookup of one of its names raises. |
| AggregationTasks.CreateAllAppends | operations/aggregation_tasks.py:67-74 | Creates never remove or change a task. They only append tasks generated from their own specs. |
| AggregationTasks.CreateAllNoDuplicates | operations/aggregation_tasks.py:33-36 | Creates never register a second task under a name. |
| AggregationTasks.CreateAllKeepsNames | operations/aggregation_tasks.py:33-36 | A registered name stays registered. |
| AggregationTasks.CreateAllOnlyItsNames | operations/aggregation_tasks.py:67-74 | A run of creates registers no name outside its specs. |
| AggregationTasks.CreateAllResults | operations/aggregation_tasks.py:81-91 | With no lookup raising, there is one result per spec. A spec yields a task exactly when its name was registered or its create succeeds, and every spec that yields a task is registered afterwards. |
| AggregationTasks.CreateAllNoOp | operations/aggregation_tasks.py:33-36 | When all names are registered, the creates change nothing and all return a task. |
| AggregationTasks.CreateWellFormed | operations/aggregation_tasks.py:67-74 | A create keeps ids distinct and below the next id. |
| AggregationTasks.CreateAllWellFormed | operations/aggregation_tasks.py:81-91 | A run of creates keeps the registry well formed. |
| AggregationTasks.SetupNames | operations/aggregation_tasks.py:79-105 | The six setup names are distinct, the 1-minute and 5-minute names are disjoint, and cleanup deletes each of the six. |
| AggregationTasks.SetupSeriesDistinct | operations/aggregation_tasks.py:50-65 | No two of the six tasks write the same output series with the same `stat_type` tag. |
| AggregationTasks.GroupsOutcome | operations/aggregation_tasks.py:112-122 | For two groups with distinct names, the run raises exactly when a lookup raises. Otherwise it returns true exactly when every spec was registered or its create succeeds. |
| AggregationTasks.GroupsRegisterObtainable | operations/aggregation_tasks.py:112-115 | The second group runs even after the first reports failure: every spec whose name was registered, or whose create succeeds, is registered afterwards. |
| AggregationTasks.GroupsAppend | operations/aggregation_tasks.py:112-115 | Two groups only append tasks generated from their specs, and never a duplicate name. |
| AggregationTasks.GroupsNoOp | operations/aggregation_tasks.py:112-122 | When every name is registered, two groups change nothing and return true. |
| AggregationTasks.SetupOutcome | operations/aggregation_tasks.py:107-122 | Setup raises exactly when a lookup raises. Otherwise it returns true exactly when each of the six tasks is already registered or its create succeeds. |
| AggregationTasks.SetupRegistersObtainable | operations/aggregation_tasks.py:107-122 | With no lookup raising, each of the six tasks that can be obtained is registered, whatever happened to the others. |
| AggregationTasks.SetupRegistersAll | operations/aggregation_tasks.py:117-119 | After a setup that returned true, all six names are registered. |
| AggregationTasks.SetupExactNames | operations/aggregation_tasks.py:107-122 | After a setup that returned true, the registered names are exactly the earlier names plus the six. |
| AggregationTasks.SetupAppends | operations/aggregation_tasks.py:107-122 | Setup only appends tasks generated from the six specs, never a duplicate name. |
| AggregationTasks.SetupIdempotent | operations/aggregation_tasks.py:107-122 | Running setup again after a successful setup returns true and leaves the registry unchanged. |
| AggregationTasks.SetupWellFormed | operations/aggregation_tasks.py:107-122 | Setup keeps ids distinct and below the next id. |
| AggregationTasks.ReportedStatus | operations/aggregation_tasks.py:130 | A task is reported "active" exactly when its status is "active", and "inactive" otherwise. |
| AggregationTasks.AggregationTaskManager.ListTasks | operations/aggregation_tasks.py:124-135 | When the lookup fails, nothing is returned. Otherwise the whole registry is returned, with one report line per task giving its name and "active" or "inactive" according to its status. |
| AggregationTasks.RemoveIdsSpec | operations/aggregation_tasks.py:142-143 | Deleting a set of ids keeps exactly the tasks whose id is outside the set. |
| AggregationTasks.RemoveNamedSpec | operations/aggregation_tasks.py:140-145 | Deleting every match of a name keeps exactly the tasks of other names. |
| AggregationTasks.AggregationTaskManager.DeleteTask | operations/aggregation_tasks.py:137-151 | The result and the new registry are those of `Delete` on the old registry. The next id is unchanged and the registry stays well formed. |
| AggregationTasks.DeleteSpec | operations/aggregation_tasks.py:137-151 | The result is true exactly when tasks of that name exist and every delete call succeeds, and then none is left. Only tasks of that name are ever removed. A failing lookup, or no match, removes nothing. |
| AggregationTasks.AggregationTaskManager.DeleteAllAggregationTasks | operations/aggregation_tasks.py:153-169 | The new registry is that of deleting the ten cleanup names in source order. |
| AggregationTasks.DeleteSeqSpec | operations/aggregation_tasks.py:153-169 | Deleting a list of names keeps ids distinct and removes only tasks with those names. When no call fails, it removes every one of them. |
| AggregationTasks.CleanupUndoesSetup | operations/aggregation_tasks.py:107-169 | Cleanup after setup, with no delete failing, leaves exactly the tasks that were there before setup and carry none of the ten cleanup names. |
| LoggerConfig.SafeChar | utils/logger_config.py:10-12 | A character becomes one that is not forbidden, and a character that is not forbidden stays. |
| LoggerConfig.SanitizeLogName | utils/logger_config.py:7-13 | The loop of replacements yields the stripped name with each forbidden character turned into `_`, position by position; an empty result becomes `default_logger`. |
| LoggerConfig.SanitizedIsSafe | utils/logger_config.py:7-13 | A sanitized name is never empty and holds no forbidden character. |
| LoggerConfig.DefaultLoggerSafe | utils/logger_config.py:13 | The fallback name holds no forbidden character and no whitespace. |
| LoggerConfig.SafeNameUnchanged | utils/logger_config.py:7-13 | A non-empty name with no forbidden character and no surrounding whitespace is returned unchanged. |
| LoggerConfig.TrimmedFromName | utils/logger_config.py:9 | Every character kept by the two strips comes from the name. |
| LoggerConfig.SanitizeIdempotent | utils/logger_config.py:7-13 | For a name whose only whitespace is the space, the sanitized name holds no whitespace and sanitizes to itself. |
| LoggerConfig.DefaultWhenOnlySeparators | utils/logger_config.py:9-13 | The default name is used exactly when, after the whitespace strip, nothing but `/` and `\` is left. |
| LoggerConfig.AllSeparatorsTrimmed | utils/logger_config.py:9 | A string of slashes and backslashes strips to nothing. |
| LoggerConfig.SlashesDropped | utils/logger_config.py:9 | `/app/` becomes `app`. |
| LoggerConfig.OnlySeparatorsDefault | utils/logger_config.py:9-13 | `" //\\ "` becomes `default_logger`. |
| LoggerConfig.InnerCharsReplaced | utils/logger_config.py:10-12 | `a:b c` becomes `a_b_c`. |
| LoggerConfig.SpaceBehindSeparator | utils/logger_config.py:9-12 | In `" / x"` the space behind the slash survives the strips and becomes `_`: the result is `_x`. |
| LoggerConfig.SpaceBetweenSeparators | utils/logger_config.py:9-13 | `"/ /"` becomes `_`, not the default name. |
| LoggerConfig.TabBehindSlashKept | utils/logger_config.py:9-13 | `"/\tx"` sanitizes to `"\tx"`, which sanitizes again to `"x"`: sanitizing is not idempotent for other whitespace. |

## Left out

- **HTTP transport.** Flask routing, `jsonify`, `GET /health` (it reads the clock) and `GET /sensors` (it only forwards the store's answer) are left out.
- **Error details.** The `details` text of a 500 body (`str(e)`) is reduced to the `InternalError` constructor.
- **The store client.** The store (`storage/influx_client.py`) is not part of this model. Its reads and writes are function arguments returning a value or raising, and the query text it builds is not modelled.
- **What the tasks compute.** The aggregation runs inside InfluxDB, so the model states only the script's parameters, as a record, and the schedule arithmetic. Per-window means, minimums, maximums and counts are not modelled.
- **Manager configuration.** The manager's construction reads environment variables and opens a client. The model takes the organisation and bucket as constructor arguments, plus the tasks already on the server. `close()` and the command-line entry point are left out.
- **Task lookup.** `find_tasks` pagination and the server's own id scheme are left out. Ids come from a counter above every existing id.
- **Logging.** Log output is left out. Only the status lines of `list_tasks` are modelled, as the `report` output.
- **Other logger code.** `setup_logging` (directories, handlers, clock) is left out. The simulator, the aggregation runner and the configuration file are not part of this model.
- **Non-ASCII digits.** `int()` is modelled for ASCII digits only. Python also accepts other Unicode decimal digits and limits very long digit strings.
- **JSON numbers.** JSON floats are `real`; IEEE-754 rounding does not affect any branch here.
- LoggerConfig.SanitizeIdempotent: proved only for names whose whitespace is the plain space, because a tab or newline behind a leading slash survives the first pass and is stripped by the second (`TabBehindSlashKept`).
