/**
 * The aggregation task manager (operations/aggregation_tasks.py): it keeps a
 * registry of named InfluxDB tasks that downsample raw water-quality readings
 * into 1-minute and 5-minute series. The registry lives on the InfluxDB server;
 * here it is the `tasks` field of the manager, and each call into the server's
 * task API takes a fault argument saying whether that call fails.
 *
 * Each method that changes the registry has a postcondition tying its result
 * and the new registry to a specification function of the old one (`Create`,
 * `GroupEffect`, `SetupEffect`, `Delete`, `DeleteSeq`); `CreateAll`, the
 * creates of a list of specs in order, is the function of `CreateGroup`'s loop
 * invariant. `ListTasks` changes nothing and states its result directly. The
 * properties the design promises (idempotent setup, exactly the six names
 * after a successful setup, nothing else touched by a delete) are lemmas about
 * those functions.
 */
module AggregationTasks {
  import opened Common
  import opened PyStr

  // ---------------------------------------------------------------------------
  // Schedule and task script
  // ---------------------------------------------------------------------------

  /** When a task runs and which relative range of raw data each run reads. */
  datatype Schedule = Schedule(rangeStart: string, rangeStop: string, every: string, offset: string)

  /**
   * The schedule for a window: "1m" runs every minute, 10 s past the minute, over
   * [-2m, -1m); anything else runs every five minutes, 30 s past, over [-70m, -65m).
   */
  function ScheduleFor(window: string): Schedule {
    if window == "1m" then Schedule("-2m", "-1m", "1m", "10s")
    else Schedule("-70m", "-65m", "5m", "30s")
  }

  /** A non-empty run of decimal digits. */
  predicate AllDigits(d: string) {
    |d| > 0 && forall k :: 0 <= k < |d| ==> IsDigit(d[k])
  }

  function UnitSeconds(unit: char): nat {
    if unit == 's' then 1 else if unit == 'm' then 60 else if unit == 'h' then 3600 else if unit == 'd' then 86400 else 0
  }

  /** The length in seconds of a Flux duration literal `[-]<digits><unit>`, unit one of s, m, h, d. */
  function Seconds(d: string): Option<int> {
    if |d| < 2 || UnitSeconds(d[|d| - 1]) == 0 then None
    else
      var scale := UnitSeconds(d[|d| - 1]);
      var body := d[..|d| - 1];
      if body[0] == '-' then
        if AllDigits(body[1..]) then Some(-(DigitsValue(body[1..]) * scale)) else None
      else if AllDigits(body) then Some(DigitsValue(body) * scale)
      else None
  }

  /** The source measurement the tasks read and the two fields they keep. */
  const SourceMeasurement: string := "water_quality"
  const AggregatedFields: seq<string> := ["temperature", "conductivity"]

  /**
   * The Flux script of a task, as a record: the `option task` header (name,
   * every, offset), the read (bucket, range, measurement and field filters), the
   * aggregation (`aggregateWindow` every, fn, createEmpty), the two `set` steps
   * (stat_type tag and output measurement) and the bucket written to.
   */
  datatype FluxScript = FluxScript(
    taskName: string, every: string, offset: string,
    sourceBucket: string, rangeStart: string, rangeStop: string,
    measurement: string, fields: seq<string>,
    aggregateEvery: string, aggregateFn: string, createEmpty: bool,
    statType: string, outMeasurement: string, destBucket: string)

  /** The script `_create_aggregation_task` writes for one task. */
  function ScriptFor(name: string, window: string, statFn: string, statType: string, bucket: string): FluxScript {
    var p := ScheduleFor(window);
    FluxScript(name, p.every, p.offset,
               bucket, p.rangeStart, p.rangeStop,
               SourceMeasurement, AggregatedFields,
               window, statFn, false,
               statType, SourceMeasurement + "_" + window, bucket)
  }

  lemma OneDigitValue(d: string)
    requires |d| == 1 && IsDigit(d[0])
    ensures AllDigits(d) && DigitsValue(d) == DigitValue(d[0])
  {
    assert d[..0] == [];
  }

  lemma TwoDigitValue(d: string)
    requires |d| == 2 && IsDigit(d[0]) && IsDigit(d[1])
    ensures AllDigits(d) && DigitsValue(d) == 10 * DigitValue(d[0]) + DigitValue(d[1])
  {
    OneDigitValue(d[..1]);
  }

  /** The durations, in seconds, the 1-minute schedule uses. */
  lemma OneMinuteSeconds()
    ensures Seconds("1m") == Some(60) && Seconds("-2m") == Some(-120) && Seconds("-1m") == Some(-60)
    ensures Seconds("10s") == Some(10)
  {
    OneDigitValue("1m"[..1]);
    OneDigitValue("-2m"[..2][1..]);
    OneDigitValue("-1m"[..2][1..]);
    TwoDigitValue("10s"[..2]);
  }

  /** The durations, in seconds, the 5-minute schedule uses. */
  lemma FiveMinuteSeconds()
    ensures Seconds("5m") == Some(300) && Seconds("-70m") == Some(-4200) && Seconds("-65m") == Some(-3900)
    ensures Seconds("30s") == Some(30)
  {
    OneDigitValue("5m"[..1]);
    TwoDigitValue("-70m"[..3][1..]);
    TwoDigitValue("-65m"[..3][1..]);
    TwoDigitValue("30s"[..2]);
  }

  /**
   * For the two windows the tasks use, a run scheduled at `now` (a multiple of
   * the window) reads exactly one aligned window that closed at least one window
   * before `now`, is offset into its period by less than the period, and the
   * next run reads the window right after it: the runs tile time.
   */
  lemma RunsTileTime(window: string, now: int)
    requires window == "1m" || window == "5m"
    requires Seconds(window).Some? && Seconds(window).value > 0 && now % Seconds(window).value == 0
    ensures var p := ScheduleFor(window);
            var w := Seconds(window).value;
            Seconds(p.rangeStart).Some? && Seconds(p.rangeStop).Some? && Seconds(p.every) == Some(w) &&
            var lo := now + Seconds(p.rangeStart).value;
            var hi := now + Seconds(p.rangeStop).value;
            lo % w == 0 && hi - lo == w && hi <= now - w &&
            // the next run, one period later, starts where this one stops
            (now + w) + Seconds(p.rangeStart).value == hi &&
            Seconds(p.offset).Some? && 0 < Seconds(p.offset).value < w
  {
    if window == "1m" { OneMinuteSeconds(); } else { FiveMinuteSeconds(); }
  }

  /**
   * Every script reads only raw `water_quality` rows of the two fields, keeps
   * empty windows out, tags the statistic, and writes to `water_quality_<window>`
   * in the bucket it read from; its output is never read back by a task.
   */
  lemma ScriptShape(name: string, window: string, statFn: string, statType: string, bucket: string)
    ensures var s := ScriptFor(name, window, statFn, statType, bucket);
            s.taskName == name && s.measurement == "water_quality" &&
            s.fields == ["temperature", "conductivity"] &&
            s.aggregateEvery == window && s.aggregateFn == statFn && !s.createEmpty &&
            s.statType == statType && s.outMeasurement == "water_quality_" + window &&
            s.sourceBucket == bucket && s.destBucket == bucket &&
            s.outMeasurement != s.measurement &&
            s.every == ScheduleFor(window).every && s.offset == ScheduleFor(window).offset &&
            s.rangeStart == ScheduleFor(window).rangeStart && s.rangeStop == ScheduleFor(window).rangeStop
  {
    var s := ScriptFor(name, window, statFn, statType, bucket);
    assert |s.outMeasurement| > |s.measurement|;
  }

  // ---------------------------------------------------------------------------
  // Registry
  // ---------------------------------------------------------------------------

  /** A task as the server stores it. */
  datatype Task = Task(id: nat, name: string, org: string, status: string, flux: FluxScript)

  /** The arguments of one `_create_aggregation_task` call. */
  datatype TaskSpec = TaskSpec(name: string, window: string, statFn: string, statType: string)

  const OneMinuteSpecs: seq<TaskSpec> := [
    TaskSpec("aggregate_1m_mean", "1m", "mean", "mean"),
    TaskSpec("aggregate_1m_min", "1m", "min", "min"),
    TaskSpec("aggregate_1m_max", "1m", "max", "max")
  ]

  const FiveMinuteSpecs: seq<TaskSpec> := [
    TaskSpec("aggregate_5m_mean", "5m", "mean", "mean"),
    TaskSpec("aggregate_5m_min", "5m", "min", "min"),
    TaskSpec("aggregate_5m_max", "5m", "max", "max")
  ]

  /** The six tasks setup creates, in the order it creates them. */
  const SetupSpecs: seq<TaskSpec> := OneMinuteSpecs + FiveMinuteSpecs

  /** The ten names cleanup deletes, in order: the six, two `_count` names and two legacy `_windows` names. */
  const CleanupNames: seq<string> := [
    "aggregate_1m_mean", "aggregate_1m_min", "aggregate_1m_max", "aggregate_1m_count",
    "aggregate_5m_mean", "aggregate_5m_min", "aggregate_5m_max", "aggregate_5m_count",
    "aggregate_1m_windows", "aggregate_5m_windows"
  ]

  /** How a create call into the task API goes: the name lookup may raise, or the create itself. */
  datatype Fault = NoFault | LookupFails | CreateFails

  /** How a delete goes: the lookup may raise, or the `k`-th delete call (counting from 0). */
  datatype DeleteFault = NoDeleteFault | FindFails | DeleteFailsAt(k: nat)

  /** A call that returns a value or lets an exception escape. */
  datatype Outcome<T> = Returned(value: T) | Raised

  /** The server's task registry and the next id it will hand out. */
  datatype Registry = Registry(tasks: seq<Task>, nextId: nat)

  /** The tasks called `name`, in registry order (the server's `find_tasks(name=...)`). */
  function Named(tasks: seq<Task>, name: string): seq<Task> {
    if tasks == [] then []
    else (if tasks[0].name == name then [tasks[0]] else []) + Named(tasks[1..], name)
  }

  /** `Named` keeps exactly the tasks called `name`. */
  lemma {:induction false} NamedSpec(tasks: seq<Task>, name: string)
    ensures forall t :: t in Named(tasks, name) <==> t in tasks && t.name == name
  {
    if tasks != [] {
      NamedSpec(tasks[1..], name);
      assert tasks == [tasks[0]] + tasks[1..];
    }
  }

  function Names(tasks: seq<Task>): set<string> {
    set t | t in tasks :: t.name
  }

  function IdsOf(tasks: seq<Task>): set<nat> {
    set t | t in tasks :: t.id
  }

  /** No two different tasks share an id. */
  ghost predicate DistinctIds(tasks: seq<Task>) {
    forall t, u :: t in tasks && u in tasks && t.id == u.id ==> t == u
  }

  ghost predicate WellFormed(reg: Registry) {
    DistinctIds(reg.tasks) && forall t :: t in reg.tasks ==> t.id < reg.nextId
  }

  /** The task a successful create adds. */
  function NewTask(id: nat, spec: TaskSpec, org: string, bucket: string): Task {
    Task(id, spec.name, org, "active", ScriptFor(spec.name, spec.window, spec.statFn, spec.statType, bucket))
  }

  /**
   * `_create_aggregation_task`: a failing lookup raises; an existing task of that
   * name is returned and nothing is created; otherwise a failing create yields
   * `None`, and a successful one registers the new active task.
   */
  function Create(reg: Registry, org: string, bucket: string, spec: TaskSpec, fault: Fault): (Outcome<Option<Task>>, Registry) {
    var existing := Named(reg.tasks, spec.name);
    if fault == LookupFails then (Raised, reg)
    else if existing != [] then (Returned(Some(existing[0])), reg)
    else if fault == CreateFails then (Returned(None), reg)
    else
      var t := NewTask(reg.nextId, spec, org, bucket);
      (Returned(Some(t)), Registry(reg.tasks + [t], reg.nextId + 1))
  }

  /**
   * A create looks the name up first: a raising lookup raises and changes
   * nothing; a registered name yields its first task and changes nothing;
   * otherwise the result is a new active task, appended with a fresh id, exactly
   * when the create call succeeds.
   */
  lemma CreateByName(reg: Registry, org: string, bucket: string, spec: TaskSpec, fault: Fault)
    ensures var (r, after) := Create(reg, org, bucket, spec, fault);
            (fault == LookupFails ==> r.Raised? && after == reg) &&
            (fault != LookupFails && spec.name in Names(reg.tasks) ==>
               after == reg && r.Returned? && r.value.Some? && r.value.value in reg.tasks && r.value.value.name == spec.name) &&
            (fault != LookupFails && spec.name !in Names(reg.tasks) ==>
               r.Returned? && (r.value.Some? <==> fault == NoFault) &&
               (r.value.None? ==> after == reg) &&
               (r.value.Some? ==> r.value.value == NewTask(reg.nextId, spec, org, bucket) &&
                                  after == Registry(reg.tasks + [r.value.value], reg.nextId + 1)))
  {
    NamedSpec(reg.tasks, spec.name);
    var existing := Named(reg.tasks, spec.name);
    if existing != [] {
      assert existing[0] in existing;
    }
    if spec.name in Names(reg.tasks) {
      var t :| t in reg.tasks && t.name == spec.name;
      assert t in existing;
    }
  }

  /** Creating the same name twice: the second call returns the first one's task and changes nothing. */
  lemma CreateTwice(reg: Registry, org: string, bucket: string, spec: TaskSpec, first: Fault, again: Fault)
    requires Create(reg, org, bucket, spec, first).0.Returned? && Create(reg, org, bucket, spec, first).0.value.Some?
    requires again != LookupFails
    ensures var (r1, reg1) := Create(reg, org, bucket, spec, first);
            Create(reg1, org, bucket, spec, again) == (r1, reg1)
  {
    var (r1, reg1) := Create(reg, org, bucket, spec, first);
    CreateByName(reg, org, bucket, spec, first);
    NamedSpec(reg.tasks, spec.name);
    if Named(reg.tasks, spec.name) == [] {
      NamedAppend(reg.tasks, r1.value.value, spec.name);
    }
  }

  /** The creates of `specs` one after another; an exception stops the sequence. */
  function CreateAll(reg: Registry, org: string, bucket: string, specs: seq<TaskSpec>, faults: string -> Fault)
    : (Outcome<seq<Option<Task>>>, Registry)
  {
    if specs == [] then (Returned([]), reg)
    else
      var (done, reg1) := CreateAll(reg, org, bucket, specs[..|specs| - 1], faults);
      var last := specs[|specs| - 1];
      if done.Raised? then (Raised, reg1)
      else
        var (r, reg2) := Create(reg1, org, bucket, last, faults(last.name));
        if r.Raised? then (Raised, reg2) else (Returned(done.value + [r.value]), reg2)
  }

  /** Once a create raises, the creates after it do not change the outcome. */
  lemma {:induction false} CreateAllStopsAtRaise(reg: Registry, org: string, bucket: string, specs: seq<TaskSpec>, n: nat, faults: string -> Fault)
    requires n <= |specs| && CreateAll(reg, org, bucket, specs[..n], faults).0.Raised?
    ensures CreateAll(reg, org, bucket, specs, faults) == CreateAll(reg, org, bucket, specs[..n], faults)
    decreases |specs| - n
  {
    if n < |specs| {
      assert specs[..n + 1][..n] == specs[..n];
      CreateAllStopsAtRaise(reg, org, bucket, specs, n + 1, faults);
    } else {
      assert specs[..n] == specs;
    }
  }

  /** Python's `all(t is not None for t in tasks)`. */
  predicate AllCreated(results: seq<Option<Task>>) {
    forall i :: 0 <= i < |results| ==> results[i].Some?
  }

  /** `create_one_minute_aggregation_task` / `create_five_minute_aggregation_task` on a group of specs. */
  function GroupEffect(reg: Registry, org: string, bucket: string, specs: seq<TaskSpec>, faults: string -> Fault)
    : (Outcome<bool>, Registry)
  {
    var (results, reg') := CreateAll(reg, org, bucket, specs, faults);
    (if results.Raised? then Raised else Returned(AllCreated(results.value)), reg')
  }

  /** Two groups run one after the other: an exception stops the run, otherwise the result is whether both succeeded. */
  function RunGroups(reg: Registry, org: string, bucket: string, first: seq<TaskSpec>, second: seq<TaskSpec>, faults: string -> Fault)
    : (Outcome<bool>, Registry)
  {
    var (ok1, reg1) := GroupEffect(reg, org, bucket, first, faults);
    if ok1.Raised? then (Raised, reg1)
    else
      var (ok2, reg2) := GroupEffect(reg1, org, bucket, second, faults);
      if ok2.Raised? then (Raised, reg2) else (Returned(ok1.value && ok2.value), reg2)
  }

  /** `setup_all_tasks`: the 1-minute group, then the 5-minute group even if the first reported failure. */
  function SetupEffect(reg: Registry, org: string, bucket: string, faults: string -> Fault): (Outcome<bool>, Registry) {
    RunGroups(reg, org, bucket, OneMinuteSpecs, FiveMinuteSpecs, faults)
  }

  /** The tasks of `tasks` whose id is not in `ids`, in order. */
  function RemoveIds(tasks: seq<Task>, ids: set<nat>): seq<Task> {
    if tasks == [] then []
    else (if tasks[0].id in ids then [] else [tasks[0]]) + RemoveIds(tasks[1..], ids)
  }

  /** `RemoveIds` keeps exactly the tasks whose id is not in `ids`. */
  lemma {:induction false} RemoveIdsSpec(tasks: seq<Task>, ids: set<nat>)
    ensures forall t :: t in RemoveIds(tasks, ids) <==> t in tasks && t.id !in ids
  {
    if tasks != [] {
      RemoveIdsSpec(tasks[1..], ids);
      assert tasks == [tasks[0]] + tasks[1..];
    }
  }

  /** The tasks of `tasks` not called `name`, in order. */
  function RemoveNamed(tasks: seq<Task>, name: string): seq<Task> {
    if tasks == [] then []
    else (if tasks[0].name == name then [] else [tasks[0]]) + RemoveNamed(tasks[1..], name)
  }

  /** `RemoveNamed` keeps exactly the tasks not called `name`. */
  lemma {:induction false} RemoveNamedSpec(tasks: seq<Task>, name: string)
    ensures forall t :: t in RemoveNamed(tasks, name) <==> t in tasks && t.name != name
  {
    if tasks != [] {
      RemoveNamedSpec(tasks[1..], name);
      assert tasks == [tasks[0]] + tasks[1..];
    }
  }

  /**
   * `delete_task(name)`: a failing lookup returns false and deletes nothing; no
   * match returns false; otherwise each match is deleted in turn, and if the
   * `k`-th delete raises, the first `k` are gone and the result is false.
   */
  function Delete(tasks: seq<Task>, name: string, fault: DeleteFault): (bool, seq<Task>) {
    var matches := Named(tasks, name);
    if fault == FindFails then (false, tasks)
    else if matches == [] then (false, tasks)
    else if fault.DeleteFailsAt? && fault.k < |matches| then (false, RemoveIds(tasks, IdsOf(matches[..fault.k])))
    else (true, RemoveNamed(tasks, name))
  }

  /** Deleting each of `names` in turn, ignoring the results. */
  function DeleteSeq(tasks: seq<Task>, names: seq<string>, faults: string -> DeleteFault): seq<Task> {
    if names == [] then tasks
    else
      var last := names[|names| - 1];
      Delete(DeleteSeq(tasks, names[..|names| - 1], faults), last, faults(last)).1
  }

  /** The status `list_tasks` reports for a stored status. */
  function ReportedStatus(status: string): (r: string)
    ensures r == "active" <==> status == "active"
    ensures r == "active" || r == "inactive"
  {
    if status == "active" then "active" else "inactive"
  }

  // ---------------------------------------------------------------------------
  // The manager
  // ---------------------------------------------------------------------------

  /** The largest id in `tasks` (0 for none). */
  function MaxId(tasks: seq<Task>): (m: nat)
    ensures forall t :: t in tasks ==> t.id <= m
  {
    if tasks == [] then 0
    else var rest := MaxId(tasks[1..]); if tasks[0].id > rest then tasks[0].id else rest
  }

  class AggregationTaskManager {
    const org: string
    const bucket: string
    /** The server's registry. */
    var tasks: seq<Task>
    var nextId: nat

    ghost predicate Valid()
      reads this
    {
      WellFormed(Registry(tasks, nextId))
    }

    function State(): Registry
      reads this
    {
      Registry(tasks, nextId)
    }

    /** A manager for `org` and `bucket` talking to a server that already holds `existing`. */
    constructor(org: string, bucket: string, existing: seq<Task>)
      requires DistinctIds(existing)
      ensures Valid()
      ensures this.org == org && this.bucket == bucket && tasks == existing
    {
      this.org := org;
      this.bucket := bucket;
      tasks := existing;
      nextId := MaxId(existing) + 1;
    }

    /** `_create_aggregation_task(task_name, window, stat_fn, stat_type)`. */
    method CreateAggregationTask(name: string, window: string, statFn: string, statType: string, fault: Fault)
      returns (r: Outcome<Option<Task>>)
      requires Valid()
      modifies this
      ensures Valid()
      ensures (r, State()) == Create(old(State()), org, bucket, TaskSpec(name, window, statFn, statType), fault)
    {
      if fault == LookupFails {
        return Raised;
      }
      var existing := Named(tasks, name);
      if existing != [] {
        return Returned(Some(existing[0]));
      }
      var script := ScriptFor(name, window, statFn, statType, bucket);
      if fault == CreateFails {
        return Returned(None);
      }
      var t := Task(nextId, name, org, "active", script);
      tasks := tasks + [t];
      nextId := nextId + 1;
      r := Returned(Some(t));
    }

    /** The list of create calls of one group, then whether every one produced a task. */
    method CreateGroup(specs: seq<TaskSpec>, faults: string -> Fault) returns (r: Outcome<bool>)
      requires Valid()
      modifies this
      ensures Valid()
      ensures (r, State()) == GroupEffect(old(State()), org, bucket, specs, faults)
    {
      var results: seq<Option<Task>> := [];
      for i := 0 to |specs|
        invariant Valid()
        invariant CreateAll(old(State()), org, bucket, specs[..i], faults) == (Returned(results), State())
      {
        assert specs[..i + 1][..i] == specs[..i];
        var spec := specs[i];
        var t := CreateAggregationTask(spec.name, spec.window, spec.statFn, spec.statType, faults(spec.name));
        if t.Raised? {
          // the group's remaining creates never run
          CreateAllStopsAtRaise(old(State()), org, bucket, specs, i + 1, faults);
          return Raised;
        }
        results := results + [t.value];
      }
      assert specs[..|specs|] == specs;
      r := Returned(forall i | 0 <= i < |results| :: results[i].Some?);
    }

    /** `create_one_minute_aggregation_task`: mean, min and max at 1m. */
    method CreateOneMinuteTasks(faults: string -> Fault) returns (r: Outcome<bool>)
      requires Valid()
      modifies this
      ensures Valid()
      ensures (r, State()) == GroupEffect(old(State()), org, bucket, OneMinuteSpecs, faults)
    {
      r := CreateGroup(OneMinuteSpecs, faults);
    }

    /** `create_five_minute_aggregation_task`: mean, min and max at 5m. */
    method CreateFiveMinuteTasks(faults: string -> Fault) returns (r: Outcome<bool>)
      requires Valid()
      modifies this
      ensures Valid()
      ensures (r, State()) == GroupEffect(old(State()), org, bucket, FiveMinuteSpecs, faults)
    {
      r := CreateGroup(FiveMinuteSpecs, faults);
    }

    /** `setup_all_tasks`: true iff all six creates produced a task. */
    method SetupAllTasks(faults: string -> Fault) returns (r: Outcome<bool>)
      requires Valid()
      modifies this
      ensures Valid()
      ensures (r, State()) == SetupEffect(old(State()), org, bucket, faults)
    {
      var ok1 := CreateOneMinuteTasks(faults);
      if ok1.Raised? { return Raised; }
      var ok5 := CreateFiveMinuteTasks(faults);
      if ok5.Raised? { return Raised; }
      r := Returned(ok1.value && ok5.value);
    }

    /**
     * `list_tasks`: the registry, or nothing when the lookup fails, with the
     * status line logged for each task.
     */
    method ListTasks(listFails: bool) returns (found: seq<Task>, report: seq<(string, string)>)
      requires Valid()
      ensures listFails ==> found == [] && report == []
      ensures !listFails ==> found == tasks
      ensures |report| == |found|
      ensures forall i :: 0 <= i < |found| ==>
                report[i].0 == found[i].name &&
                (report[i].1 == "active" <==> found[i].status == "active") &&
                (report[i].1 == "active" || report[i].1 == "inactive")
    {
      if listFails {
        return [], [];
      }
      found := tasks;
      report := [];
      for i := 0 to |found|
        invariant |report| == i
        invariant forall j :: 0 <= j < i ==> report[j] == (found[j].name, ReportedStatus(found[j].status))
      {
        var status := if found[i].status == "active" then "active" else "inactive";
        report := report + [(found[i].name, status)];
      }
    }

    /** `delete_task(task_name)`: true iff tasks of that name existed and all were deleted. */
    method DeleteTask(name: string, fault: DeleteFault) returns (found: bool)
      requires Valid()
      modifies this
      ensures Valid() && nextId == old(nextId)
      ensures (found, tasks) == Delete(old(tasks), name, fault)
    {
      if fault == FindFails {
        return false;
      }
      var matches := Named(tasks, name);
      if matches == [] {
        return false;
      }
      ghost var before := tasks;
      RemoveIdsNone(before);
      assert IdsOf(matches[..0]) == {};
      for i := 0 to |matches|
        invariant Valid() && nextId == old(nextId)
        invariant tasks == RemoveIds(before, IdsOf(matches[..i]))
        invariant fault.DeleteFailsAt? ==> fault.k >= i
      {
        if fault == DeleteFailsAt(i) {
          return false;
        }
        RemoveIdsAgain(before, IdsOf(matches[..i]), matches[i].id);
        RemoveIdsWellFormed(State(), {matches[i].id});
        IdsOfPrefix(matches, i);
        tasks := RemoveIds(tasks, {matches[i].id});
      }
      assert matches[..|matches|] == matches;
      RemoveMatchingIds(before, name);
      found := true;
    }

    /** `delete_all_aggregation_tasks`: deletes each of the ten cleanup names in turn. */
    method DeleteAllAggregationTasks(faults: string -> DeleteFault)
      requires Valid()
      modifies this
      ensures Valid() && nextId == old(nextId)
      ensures tasks == DeleteSeq(old(tasks), CleanupNames, faults)
    {
      ghost var before := tasks;
      for i := 0 to |CleanupNames|
        invariant Valid() && nextId == old(nextId)
        invariant tasks == DeleteSeq(before, CleanupNames[..i], faults)
      {
        var _ := DeleteTask(CleanupNames[i], faults(CleanupNames[i]));
        assert CleanupNames[..i + 1][..i] == CleanupNames[..i];
      }
      assert CleanupNames[..|CleanupNames|] == CleanupNames;
    }
  }

  // ---------------------------------------------------------------------------
  // Lemmas used by the methods
  // ---------------------------------------------------------------------------

  lemma {:induction false} RemoveIdsAgain(tasks: seq<Task>, ids: set<nat>, id: nat)
    ensures RemoveIds(RemoveIds(tasks, ids), {id}) == RemoveIds(tasks, ids + {id})
  {
    if tasks != [] {
      RemoveIdsAgain(tasks[1..], ids, id);
      var rest := RemoveIds(tasks[1..], ids);
      if tasks[0].id !in ids {
        var r := [tasks[0]] + rest;
        assert r[0] == tasks[0] && r[1..] == rest;
        assert RemoveIds(r, {id}) == (if tasks[0].id == id then [] else [tasks[0]]) + RemoveIds(rest, {id});
      } else {
        assert RemoveIds(tasks, ids) == rest;
      }
    }
  }

  lemma RemoveIdsWellFormed(reg: Registry, ids: set<nat>)
    requires WellFormed(reg)
    ensures WellFormed(Registry(RemoveIds(reg.tasks, ids), reg.nextId))
  {
    RemoveIdsSpec(reg.tasks, ids);
  }

  lemma IdsOfPrefix(tasks: seq<Task>, i: nat)
    requires i < |tasks|
    ensures IdsOf(tasks[..i + 1]) == IdsOf(tasks[..i]) + {tasks[i].id}
  {
    assert tasks[..i + 1] == tasks[..i] + [tasks[i]];
  }

  lemma RemoveIdsNone(tasks: seq<Task>)
    ensures RemoveIds(tasks, {}) == tasks
  {
  }

  /** Removing by id exactly the ids of the tasks called `name` removes exactly those tasks. */
  lemma {:induction false} RemoveIdsByName(tasks: seq<Task>, ids: set<nat>, name: string)
    requires forall t :: t in tasks ==> (t.id in ids <==> t.name == name)
    ensures RemoveIds(tasks, ids) == RemoveNamed(tasks, name)
  {
    if tasks != [] {
      assert tasks[0] in tasks;
      assert forall t :: t in tasks[1..] ==> t in tasks;
      RemoveIdsByName(tasks[1..], ids, name);
    }
  }

  lemma RemoveMatchingIds(tasks: seq<Task>, name: string)
    requires DistinctIds(tasks)
    ensures RemoveIds(tasks, IdsOf(Named(tasks, name))) == RemoveNamed(tasks, name)
  {
    var matches := Named(tasks, name);
    NamedSpec(tasks, name);
    forall t | t in tasks
      ensures t.id in IdsOf(matches) <==> t.name == name
    {
      if t.id in IdsOf(matches) {
        var u :| u in matches && u.id == t.id;
        assert u == t;
      }
    }
    RemoveIdsByName(tasks, IdsOf(matches), name);
  }

  // ---------------------------------------------------------------------------
  // What a sequence of creates does
  // ---------------------------------------------------------------------------

  /** The names of `specs` are pairwise different. */
  predicate DistinctSpecNames(specs: seq<TaskSpec>) {
    forall i, j :: 0 <= i < j < |specs| ==> specs[i].name != specs[j].name
  }

  /** No lookup for a name of `specs` raises. */
  predicate NoLookupFault(specs: seq<TaskSpec>, faults: string -> Fault) {
    forall i :: 0 <= i < |specs| ==> faults(specs[i].name) != LookupFails
  }

  /** A create for `spec` yields a task: its name is registered already, or the create call succeeds. */
  predicate Obtainable(reg: Registry, spec: TaskSpec, faults: string -> Fault) {
    spec.name in Names(reg.tasks) || faults(spec.name) == NoFault
  }

  /** `t` is the task a create for one of `specs` registers. */
  ghost predicate IsGenerated(t: Task, specs: seq<TaskSpec>, org: string, bucket: string) {
    exists i :: 0 <= i < |specs| && t == NewTask(t.id, specs[i], org, bucket)
  }

  /** `after` is `before` followed only by new tasks generated from `specs`. */
  ghost predicate AddedFrom(before: seq<Task>, after: seq<Task>, specs: seq<TaskSpec>, org: string, bucket: string) {
    |before| <= |after| && after[..|before|] == before &&
    forall k :: |before| <= k < |after| ==> IsGenerated(after[k], specs, org, bucket)
  }

  /** A run of creates raises exactly when the lookup for one of its names raises. */
  lemma {:induction false} CreateAllRaises(reg: Registry, org: string, bucket: string, specs: seq<TaskSpec>, faults: string -> Fault)
    ensures CreateAll(reg, org, bucket, specs, faults).0.Raised? <==> !NoLookupFault(specs, faults)
  {
    if specs != [] {
      var init := specs[..|specs| - 1];
      CreateAllRaises(reg, org, bucket, init, faults);
      if !NoLookupFault(init, faults) {
        var i :| 0 <= i < |init| && faults(init[i].name) == LookupFails;
        assert specs[i] == init[i];
      }
      if NoLookupFault(init, faults) && faults(specs[|specs| - 1].name) != LookupFails {
        forall i | 0 <= i < |specs| ensures faults(specs[i].name) != LookupFails {
          if i < |init| {
            assert specs[i] == init[i];
          }
        }
      }
    }
  }

  /** Creates never remove or change a task; they only append tasks generated from their specs. */
  lemma {:induction false} CreateAllAppends(reg: Registry, org: string, bucket: string, specs: seq<TaskSpec>, faults: string -> Fault)
    ensures AddedFrom(reg.tasks, CreateAll(reg, org, bucket, specs, faults).1.tasks, specs, org, bucket)
  {
    if specs != [] {
      var init := specs[..|specs| - 1];
      var last := specs[|specs| - 1];
      CreateAllAppends(reg, org, bucket, init, faults);
      var (done, reg1) := CreateAll(reg, org, bucket, init, faults);
      var after := CreateAll(reg, org, bucket, specs, faults).1.tasks;
      assert |reg.tasks| <= |reg1.tasks| && reg1.tasks[..|reg.tasks|] == reg.tasks;
      forall k | |reg.tasks| <= k < |reg1.tasks|
        ensures IsGenerated(reg1.tasks[k], specs, org, bucket)
      {
        var i :| 0 <= i < |init| && reg1.tasks[k] == NewTask(reg1.tasks[k].id, init[i], org, bucket);
        assert init[i] == specs[i];
      }
      if !done.Raised? && after != reg1.tasks {
        var t := NewTask(reg1.nextId, last, org, bucket);
        assert after == reg1.tasks + [t];
        assert after[..|reg.tasks|] == reg1.tasks[..|reg.tasks|];
        forall k | |reg.tasks| <= k < |after|
          ensures IsGenerated(after[k], specs, org, bucket)
        {
          if k == |reg1.tasks| {
            assert after[k] == NewTask(after[k].id, specs[|specs| - 1], org, bucket);
          } else {
            assert after[k] == reg1.tasks[k];
          }
        }
      }
    }
  }

  /** The tasks called `n` in `a + [t]`. */
  lemma {:induction false} NamedAppend(a: seq<Task>, t: Task, n: string)
    ensures Named(a + [t], n) == Named(a, n) + (if t.name == n then [t] else [])
  {
    if a == [] {
      assert [t][1..] == [];
    } else {
      assert (a + [t])[1..] == a[1..] + [t];
      NamedAppend(a[1..], t, n);
    }
  }

  /** A name that was absent gets at most one task; a name that was present keeps exactly its tasks. */
  ghost predicate NoDuplicatesAdded(before: seq<Task>, after: seq<Task>) {
    forall n :: Named(after, n) == Named(before, n) || (Named(before, n) == [] && |Named(after, n)| == 1)
  }

  /** Creating never registers a second task under a name. */
  lemma {:induction false} CreateAllNoDuplicates(reg: Registry, org: string, bucket: string, specs: seq<TaskSpec>, faults: string -> Fault)
    ensures NoDuplicatesAdded(reg.tasks, CreateAll(reg, org, bucket, specs, faults).1.tasks)
  {
    if specs != [] {
      var init := specs[..|specs| - 1];
      var last := specs[|specs| - 1];
      CreateAllNoDuplicates(reg, org, bucket, init, faults);
      var (done, reg1) := CreateAll(reg, org, bucket, init, faults);
      var after := CreateAll(reg, org, bucket, specs, faults).1.tasks;
      if !done.Raised? && after != reg1.tasks {
        var t := NewTask(reg1.nextId, last, org, bucket);
        assert after == reg1.tasks + [t];
        assert Named(reg1.tasks, last.name) == [];
        forall n
          ensures Named(after, n) == Named(reg.tasks, n) || (Named(reg.tasks, n) == [] && |Named(after, n)| == 1)
        {
          NamedAppend(reg1.tasks, t, n);
        }
      }
    }
  }

  /** A task registered before a run of creates is still registered after it. */
  lemma CreateAllKeepsNames(reg: Registry, org: string, bucket: string, specs: seq<TaskSpec>, faults: string -> Fault, n: string)
    requires n in Names(reg.tasks)
    ensures n in Names(CreateAll(reg, org, bucket, specs, faults).1.tasks)
  {
    CreateAllAppends(reg, org, bucket, specs, faults);
    var after := CreateAll(reg, org, bucket, specs, faults).1.tasks;
    var k :| 0 <= k < |reg.tasks| && reg.tasks[k].name == n;
    assert after[..|reg.tasks|][k] == reg.tasks[k];
  }

  /** A run of creates registers no name outside its specs. */
  lemma CreateAllOnlyItsNames(reg: Registry, org: string, bucket: string, specs: seq<TaskSpec>, faults: string -> Fault, n: string)
    requires forall i :: 0 <= i < |specs| ==> specs[i].name != n
    ensures n in Names(CreateAll(reg, org, bucket, specs, faults).1.tasks) <==> n in Names(reg.tasks)
  {
    CreateAllAppends(reg, org, bucket, specs, faults);
    var after := CreateAll(reg, org, bucket, specs, faults).1.tasks;
    if n in Names(after) {
      var k :| 0 <= k < |after| && after[k].name == n;
      if k < |reg.tasks| {
        assert after[..|reg.tasks|][k] == after[k];
      }
    }
    if n in Names(reg.tasks) {
      CreateAllKeepsNames(reg, org, bucket, specs, faults, n);
    }
  }

  /**
   * When no lookup raises, the creates return one result per spec, and a spec
   * yields a task exactly when it was obtainable in the registry it started
   * from; every spec that yielded a task is registered afterwards.
   */
  lemma {:induction false} CreateAllResults(reg: Registry, org: string, bucket: string, specs: seq<TaskSpec>, faults: string -> Fault)
    requires DistinctSpecNames(specs) && NoLookupFault(specs, faults)
    ensures var (res, after) := CreateAll(reg, org, bucket, specs, faults);
            res.Returned? && |res.value| == |specs| &&
            (forall i :: 0 <= i < |specs| ==> (res.value[i].Some? <==> Obtainable(reg, specs[i], faults))) &&
            (forall i :: 0 <= i < |specs| && res.value[i].Some? ==> specs[i].name in Names(after.tasks))
  {
    if specs != [] {
      var init := specs[..|specs| - 1];
      var last := specs[|specs| - 1];
      assert NoLookupFault(init, faults) by {
        forall i | 0 <= i < |init| ensures faults(init[i].name) != LookupFails {
          assert init[i] == specs[i];
        }
      }
      CreateAllResults(reg, org, bucket, init, faults);
      var (done, reg1) := CreateAll(reg, org, bucket, init, faults);
      var (r, reg2) := Create(reg1, org, bucket, last, faults(last.name));
      assert forall i :: 0 <= i < |init| ==> init[i].name != last.name by {
        forall i | 0 <= i < |init| ensures init[i].name != last.name {
          assert init[i] == specs[i];
        }
      }
      CreateAllOnlyItsNames(reg, org, bucket, init, faults, last.name);
      NamedSpec(reg1.tasks, last.name);
      assert faults(last.name) != LookupFails;
      assert r.value.Some? <==> Obtainable(reg, last, faults) by {
        if Named(reg1.tasks, last.name) != [] {
          assert Named(reg1.tasks, last.name)[0] in Named(reg1.tasks, last.name);
        }
        if last.name in Names(reg1.tasks) {
          var t :| t in reg1.tasks && t.name == last.name;
          assert t in Named(reg1.tasks, last.name);
        }
      }
      var res := done.value + [r.value];
      forall i | 0 <= i < |init|
        ensures (res[i].Some? <==> Obtainable(reg, specs[i], faults))
        ensures res[i].Some? ==> specs[i].name in Names(reg2.tasks)
      {
        assert init[i] == specs[i] && res[i] == done.value[i];
        if res[i].Some? {
          CreateAllKeepsNames(reg1, org, bucket, [last], faults, specs[i].name);
          assert [last][..0] == [];
        }
      }
      if r.value.Some? && reg2 != reg1 {
        assert reg2.tasks[|reg2.tasks| - 1].name == last.name;
      }
    }
  }

  /** When every name is registered and no lookup raises, the creates change nothing and all return a task. */
  lemma {:induction false} CreateAllNoOp(reg: Registry, org: string, bucket: string, specs: seq<TaskSpec>, faults: string -> Fault)
    requires NoLookupFault(specs, faults)
    requires forall i :: 0 <= i < |specs| ==> specs[i].name in Names(reg.tasks)
    ensures var (res, after) := CreateAll(reg, org, bucket, specs, faults);
            after == reg && res.Returned? && AllCreated(res.value)
  {
    if specs != [] {
      var init := specs[..|specs| - 1];
      var last := specs[|specs| - 1];
      assert NoLookupFault(init, faults) by {
        forall i | 0 <= i < |init| ensures faults(init[i].name) != LookupFails {
          assert init[i] == specs[i];
        }
      }
      forall i | 0 <= i < |init| ensures init[i].name in Names(reg.tasks) {
        assert init[i] == specs[i];
      }
      CreateAllNoOp(reg, org, bucket, init, faults);
      NamedSpec(reg.tasks, last.name);
      var t :| t in reg.tasks && t.name == last.name;
      assert t in Named(reg.tasks, last.name);
    }
  }

  /** A create keeps ids distinct and below the next id. */
  lemma CreateWellFormed(reg: Registry, org: string, bucket: string, spec: TaskSpec, fault: Fault)
    requires WellFormed(reg)
    ensures WellFormed(Create(reg, org, bucket, spec, fault).1)
  {
  }

  lemma {:induction false} CreateAllWellFormed(reg: Registry, org: string, bucket: string, specs: seq<TaskSpec>, faults: string -> Fault)
    requires WellFormed(reg)
    ensures WellFormed(CreateAll(reg, org, bucket, specs, faults).1)
  {
    if specs != [] {
      var init := specs[..|specs| - 1];
      var last := specs[|specs| - 1];
      CreateAllWellFormed(reg, org, bucket, init, faults);
      CreateWellFormed(CreateAll(reg, org, bucket, init, faults).1, org, bucket, last, faults(last.name));
    }
  }

  // ---------------------------------------------------------------------------
  // What setup promises
  // ---------------------------------------------------------------------------

  /** The six setup names are different from each other, and cleanup deletes each of them. */
  lemma SetupNames()
    ensures DistinctSpecNames(SetupSpecs)
    ensures forall i :: 0 <= i < |SetupSpecs| ==> SetupSpecs[i].name in CleanupNames
    ensures forall i, j :: 0 <= i < |OneMinuteSpecs| && 0 <= j < |FiveMinuteSpecs| ==> OneMinuteSpecs[i].name != FiveMinuteSpecs[j].name
  {
  }

  /**
   * Each of the six tasks writes its own series: no two of them share the
   * output measurement and the stat_type tag.
   */
  lemma SetupSeriesDistinct(bucket: string)
    ensures forall i, j :: 0 <= i < j < |SetupSpecs| ==>
              var si := ScriptFor(SetupSpecs[i].name, SetupSpecs[i].window, SetupSpecs[i].statFn, SetupSpecs[i].statType, bucket);
              var sj := ScriptFor(SetupSpecs[j].name, SetupSpecs[j].window, SetupSpecs[j].statFn, SetupSpecs[j].statType, bucket);
              (si.outMeasurement, si.statType) != (sj.outMeasurement, sj.statType)
  {
    forall i, j | 0 <= i < j < |SetupSpecs|
      ensures var si := ScriptFor(SetupSpecs[i].name, SetupSpecs[i].window, SetupSpecs[i].statFn, SetupSpecs[i].statType, bucket);
              var sj := ScriptFor(SetupSpecs[j].name, SetupSpecs[j].window, SetupSpecs[j].statFn, SetupSpecs[j].statType, bucket);
              (si.outMeasurement, si.statType) != (sj.outMeasurement, sj.statType)
    {
      var a := SetupSpecs[i];
      var b := SetupSpecs[j];
      assert (a.window, a.statType) != (b.window, b.statType);
      var oa := SourceMeasurement + "_" + a.window;
      var ob := SourceMeasurement + "_" + b.window;
      assert oa[14..] == a.window && ob[14..] == b.window;
    }
  }

  lemma NoLookupFaultConcat(first: seq<TaskSpec>, second: seq<TaskSpec>, faults: string -> Fault)
    ensures NoLookupFault(first + second, faults) <==> NoLookupFault(first, faults) && NoLookupFault(second, faults)
  {
    var all := first + second;
    if NoLookupFault(all, faults) {
      forall i | 0 <= i < |first| ensures faults(first[i].name) != LookupFails {
        assert all[i] == first[i];
      }
      forall i | 0 <= i < |second| ensures faults(second[i].name) != LookupFails {
        assert all[|first| + i] == second[i];
      }
    }
    if NoLookupFault(first, faults) && NoLookupFault(second, faults) {
      forall i | 0 <= i < |all| ensures faults(all[i].name) != LookupFails {
        if i < |first| {
          assert all[i] == first[i];
        } else {
          assert all[i] == second[i - |first|];
        }
      }
    }
  }

  lemma DistinctSplit(first: seq<TaskSpec>, second: seq<TaskSpec>)
    requires DistinctSpecNames(first + second)
    ensures DistinctSpecNames(first) && DistinctSpecNames(second)
    ensures forall i, j :: 0 <= i < |first| && 0 <= j < |second| ==> first[i].name != second[j].name
  {
    var all := first + second;
    forall i, j | 0 <= i < j < |first| ensures first[i].name != first[j].name {
      assert all[i] == first[i] && all[j] == first[j];
    }
    forall i, j | 0 <= i < j < |second| ensures second[i].name != second[j].name {
      assert all[|first| + i] == second[i] && all[|first| + j] == second[j];
    }
    forall i, j | 0 <= i < |first| && 0 <= j < |second| ensures first[i].name != second[j].name {
      assert all[i] == first[i] && all[|first| + j] == second[j];
    }
  }

  /** What two groups run in a row return, for groups with different names. */
  lemma GroupsOutcome(reg: Registry, org: string, bucket: string, first: seq<TaskSpec>, second: seq<TaskSpec>, faults: string -> Fault)
    requires DistinctSpecNames(first + second)
    ensures var r := RunGroups(reg, org, bucket, first, second, faults).0;
            var all := first + second;
            (r.Raised? <==> !NoLookupFault(all, faults)) &&
            (r == Returned(true) <==>
               NoLookupFault(all, faults) && forall i :: 0 <= i < |all| ==> Obtainable(reg, all[i], faults))
  {
    var all := first + second;
    DistinctSplit(first, second);
    NoLookupFaultConcat(first, second, faults);
    var (ok1, reg1) := GroupEffect(reg, org, bucket, first, faults);
    CreateAllRaises(reg, org, bucket, first, faults);
    if !ok1.Raised? {
      CreateAllRaises(reg1, org, bucket, second, faults);
    }
    if NoLookupFault(all, faults) {
      CreateAllResults(reg, org, bucket, first, faults);
      CreateAllResults(reg1, org, bucket, second, faults);
      forall j | 0 <= j < |second|
        ensures Obtainable(reg1, second[j], faults) <==> Obtainable(reg, second[j], faults)
      {
        CreateAllOnlyItsNames(reg, org, bucket, first, faults, second[j].name);
      }
      var ok2 := GroupEffect(reg1, org, bucket, second, faults).0;
      assert ok1.value <==> forall i :: 0 <= i < |first| ==> Obtainable(reg, first[i], faults);
      assert ok2.value <==> forall j :: 0 <= j < |second| ==> Obtainable(reg, second[j], faults);
      if (forall i :: 0 <= i < |first| ==> Obtainable(reg, first[i], faults)) &&
         (forall j :: 0 <= j < |second| ==> Obtainable(reg, second[j], faults)) {
        forall i | 0 <= i < |all| ensures Obtainable(reg, all[i], faults) {
          if i < |first| {
            assert all[i] == first[i];
          } else {
            assert all[i] == second[i - |first|];
          }
        }
      }
      if forall i :: 0 <= i < |all| ==> Obtainable(reg, all[i], faults) {
        forall i | 0 <= i < |first| ensures Obtainable(reg, first[i], faults) {
          assert all[i] == first[i];
        }
        forall j | 0 <= j < |second| ensures Obtainable(reg, second[j], faults) {
          assert all[|first| + j] == second[j];
        }
      }
    }
  }

  /**
   * When no lookup raises, every spec of either group that is obtainable in
   * the starting registry is registered afterwards: the second group runs
   * even when the first reported a failure.
   */
  lemma GroupsRegisterObtainable(reg: Registry, org: string, bucket: string, first: seq<TaskSpec>, second: seq<TaskSpec>, faults: string -> Fault)
    requires DistinctSpecNames(first + second) && NoLookupFault(first + second, faults)
    ensures forall i :: 0 <= i < |first + second| && Obtainable(reg, (first + second)[i], faults) ==>
              (first + second)[i].name in Names(RunGroups(reg, org, bucket, first, second, faults).1.tasks)
  {
    var all := first + second;
    DistinctSplit(first, second);
    NoLookupFaultConcat(first, second, faults);
    var (ok1, reg1) := GroupEffect(reg, org, bucket, first, faults);
    CreateAllResults(reg, org, bucket, first, faults);
    CreateAllResults(reg1, org, bucket, second, faults);
    var after := RunGroups(reg, org, bucket, first, second, faults).1;
    forall i | 0 <= i < |all| && Obtainable(reg, all[i], faults) ensures all[i].name in Names(after.tasks) {
      if i < |first| {
        assert all[i] == first[i];
        CreateAllKeepsNames(reg1, org, bucket, second, faults, first[i].name);
      } else {
        assert all[i] == second[i - |first|];
        CreateAllOnlyItsNames(reg, org, bucket, first, faults, second[i - |first|].name);
      }
    }
  }

  /** `AddedFrom` still holds when more specs are allowed. */
  lemma AddedFromWiden(a: seq<Task>, b: seq<Task>, s1: seq<TaskSpec>, s2: seq<TaskSpec>, org: string, bucket: string)
    requires AddedFrom(a, b, s1, org, bucket)
    ensures AddedFrom(a, b, s1 + s2, org, bucket)
  {
    forall k | |a| <= k < |b|
      ensures IsGenerated(b[k], s1 + s2, org, bucket)
    {
      assert IsGenerated(b[k], s1, org, bucket);
      var i :| 0 <= i < |s1| && b[k] == NewTask(b[k].id, s1[i], org, bucket);
      assert (s1 + s2)[i] == s1[i];
    }
  }

  /** `AddedFrom` composes: two runs of appends are one run over both spec lists. */
  lemma AddedFromTrans(a: seq<Task>, b: seq<Task>, c: seq<Task>, s1: seq<TaskSpec>, s2: seq<TaskSpec>, org: string, bucket: string)
    requires AddedFrom(a, b, s1, org, bucket) && AddedFrom(b, c, s2, org, bucket)
    ensures AddedFrom(a, c, s1 + s2, org, bucket)
  {
    assert c[..|a|] == c[..|b|][..|a|];
    forall k | |a| <= k < |c|
      ensures IsGenerated(c[k], s1 + s2, org, bucket)
    {
      if k < |b| {
        assert c[k] == c[..|b|][k] == b[k];
        assert IsGenerated(b[k], s1, org, bucket);
        var i :| 0 <= i < |s1| && b[k] == NewTask(b[k].id, s1[i], org, bucket);
        assert (s1 + s2)[i] == s1[i];
        assert c[k] == NewTask(c[k].id, (s1 + s2)[i], org, bucket);
      } else {
        assert IsGenerated(c[k], s2, org, bucket);
        var i :| 0 <= i < |s2| && c[k] == NewTask(c[k].id, s2[i], org, bucket);
        assert (s1 + s2)[|s1| + i] == s2[i];
        assert c[k] == NewTask(c[k].id, (s1 + s2)[|s1| + i], org, bucket);
      }
    }
  }

  /** Two groups only append tasks generated from their specs, and never a second task under a name. */
  lemma GroupsAppend(reg: Registry, org: string, bucket: string, first: seq<TaskSpec>, second: seq<TaskSpec>, faults: string -> Fault)
    ensures var after := RunGroups(reg, org, bucket, first, second, faults).1;
            AddedFrom(reg.tasks, after.tasks, first + second, org, bucket) &&
            NoDuplicatesAdded(reg.tasks, after.tasks)
  {
    var (ok1, reg1) := GroupEffect(reg, org, bucket, first, faults);
    CreateAllAppends(reg, org, bucket, first, faults);
    CreateAllNoDuplicates(reg, org, bucket, first, faults);
    if ok1.Raised? {
      AddedFromWiden(reg.tasks, reg1.tasks, first, second, org, bucket);
    } else {
      CreateAllAppends(reg1, org, bucket, second, faults);
      CreateAllNoDuplicates(reg1, org, bucket, second, faults);
      AddedFromTrans(reg.tasks, reg1.tasks, RunGroups(reg, org, bucket, first, second, faults).1.tasks, first, second, org, bucket);
    }
  }

  /** With every name registered and no lookup raising, two groups change nothing and return true. */
  lemma GroupsNoOp(reg: Registry, org: string, bucket: string, first: seq<TaskSpec>, second: seq<TaskSpec>, faults: string -> Fault)
    requires NoLookupFault(first + second, faults)
    requires forall i :: 0 <= i < |first + second| ==> (first + second)[i].name in Names(reg.tasks)
    ensures RunGroups(reg, org, bucket, first, second, faults) == (Returned(true), reg)
  {
    var all := first + second;
    NoLookupFaultConcat(first, second, faults);
    forall i | 0 <= i < |first| ensures first[i].name in Names(reg.tasks) {
      assert all[i] == first[i];
    }
    forall j | 0 <= j < |second| ensures second[j].name in Names(reg.tasks) {
      assert all[|first| + j] == second[j];
    }
    CreateAllNoOp(reg, org, bucket, first, faults);
    CreateAllNoOp(reg, org, bucket, second, faults);
  }

  /**
   * `setup_all_tasks` raises exactly when a lookup raises; otherwise it returns
   * true exactly when each of the six tasks was already registered or its
   * create call succeeds.
   */
  lemma SetupOutcome(reg: Registry, org: string, bucket: string, faults: string -> Fault)
    ensures var r := SetupEffect(reg, org, bucket, faults).0;
            (r.Raised? <==> !NoLookupFault(SetupSpecs, faults)) &&
            (r == Returned(true) <==>
               NoLookupFault(SetupSpecs, faults) &&
               forall i :: 0 <= i < |SetupSpecs| ==> Obtainable(reg, SetupSpecs[i], faults))
  {
    SetupNames();
    GroupsOutcome(reg, org, bucket, OneMinuteSpecs, FiveMinuteSpecs, faults);
  }

  /**
   * When no lookup raises, setup attempts all six tasks: each one whose name
   * was registered or whose create succeeds is registered afterwards, whatever
   * happened to the others.
   */
  lemma SetupRegistersObtainable(reg: Registry, org: string, bucket: string, faults: string -> Fault)
    requires NoLookupFault(SetupSpecs, faults)
    ensures forall i :: 0 <= i < |SetupSpecs| && Obtainable(reg, SetupSpecs[i], faults) ==>
              SetupSpecs[i].name in Names(SetupEffect(reg, org, bucket, faults).1.tasks)
  {
    SetupNames();
    GroupsRegisterObtainable(reg, org, bucket, OneMinuteSpecs, FiveMinuteSpecs, faults);
  }

  /** After a setup that returned true, all six names are registered. */
  lemma SetupRegistersAll(reg: Registry, org: string, bucket: string, faults: string -> Fault)
    requires SetupEffect(reg, org, bucket, faults).0 == Returned(true)
    ensures forall i :: 0 <= i < |SetupSpecs| ==> SetupSpecs[i].name in Names(SetupEffect(reg, org, bucket, faults).1.tasks)
  {
    SetupOutcome(reg, org, bucket, faults);
    SetupRegistersObtainable(reg, org, bucket, faults);
  }

  /** The names of the six setup tasks. */
  function SetupNameSet(): set<string> {
    set i | 0 <= i < |SetupSpecs| :: SetupSpecs[i].name
  }

  /**
   * After a setup that returned true the registered names are exactly the
   * names registered before plus the six setup names.
   */
  lemma SetupExactNames(reg: Registry, org: string, bucket: string, faults: string -> Fault)
    requires SetupEffect(reg, org, bucket, faults).0 == Returned(true)
    ensures Names(SetupEffect(reg, org, bucket, faults).1.tasks) == Names(reg.tasks) + SetupNameSet()
  {
    var after := SetupEffect(reg, org, bucket, faults).1.tasks;
    SetupRegistersAll(reg, org, bucket, faults);
    SetupAppends(reg, org, bucket, faults);
    forall n | n in Names(after) ensures n in Names(reg.tasks) + SetupNameSet() {
      var k :| 0 <= k < |after| && after[k].name == n;
      if k < |reg.tasks| {
        assert after[..|reg.tasks|][k] == after[k];
      } else {
        var i :| 0 <= i < |SetupSpecs| && after[k] == NewTask(after[k].id, SetupSpecs[i], org, bucket);
      }
    }
    forall n | n in Names(reg.tasks) ensures n in Names(after) {
      var k :| 0 <= k < |reg.tasks| && reg.tasks[k].name == n;
      assert after[..|reg.tasks|][k] == reg.tasks[k];
    }
  }

  /**
   * Setup never removes or changes a task, appends only tasks generated from
   * the six specs, and never registers a second task under a name.
   */
  lemma SetupAppends(reg: Registry, org: string, bucket: string, faults: string -> Fault)
    ensures var after := SetupEffect(reg, org, bucket, faults).1;
            AddedFrom(reg.tasks, after.tasks, SetupSpecs, org, bucket) &&
            NoDuplicatesAdded(reg.tasks, after.tasks)
  {
    GroupsAppend(reg, org, bucket, OneMinuteSpecs, FiveMinuteSpecs, faults);
  }

  /**
   * Setup is idempotent: once it has returned true, running it again (with no
   * lookup raising) returns true and leaves the registry as it is.
   */
  lemma SetupIdempotent(reg: Registry, org: string, bucket: string, faults: string -> Fault, again: string -> Fault)
    requires SetupEffect(reg, org, bucket, faults).0 == Returned(true)
    requires NoLookupFault(SetupSpecs, again)
    ensures var after := SetupEffect(reg, org, bucket, faults).1;
            SetupEffect(after, org, bucket, again) == (Returned(true), after)
  {
    SetupRegistersAll(reg, org, bucket, faults);
    GroupsNoOp(SetupEffect(reg, org, bucket, faults).1, org, bucket, OneMinuteSpecs, FiveMinuteSpecs, again);
  }

  /** Setup keeps the registry well formed. */
  lemma SetupWellFormed(reg: Registry, org: string, bucket: string, faults: string -> Fault)
    requires WellFormed(reg)
    ensures WellFormed(SetupEffect(reg, org, bucket, faults).1)
  {
    CreateAllWellFormed(reg, org, bucket, OneMinuteSpecs, faults);
    CreateAllWellFormed(GroupEffect(reg, org, bucket, OneMinuteSpecs, faults).1, org, bucket, FiveMinuteSpecs, faults);
  }

  // ---------------------------------------------------------------------------
  // What delete promises
  // ---------------------------------------------------------------------------

  /**
   * `delete_task` returns true exactly when tasks of that name exist and every
   * delete call succeeds, and then none is left; it only ever removes tasks of
   * that name, and when the lookup fails or finds nothing it removes none.
   */
  lemma DeleteSpec(tasks: seq<Task>, name: string, fault: DeleteFault)
    requires DistinctIds(tasks)
    ensures var (found, after) := Delete(tasks, name, fault);
            (found <==> name in Names(tasks) && fault != FindFails &&
                        !(fault.DeleteFailsAt? && fault.k < |Named(tasks, name)|)) &&
            (found ==> name !in Names(after)) &&
            (forall t :: t in after ==> t in tasks) &&
            (forall t :: t in tasks && t.name != name ==> t in after) &&
            (fault == FindFails || name !in Names(tasks) ==> after == tasks)
  {
    var matches := Named(tasks, name);
    NamedSpec(tasks, name);
    RemoveNamedSpec(tasks, name);
    if matches != [] {
      assert matches[0] in matches;
    }
    if fault.DeleteFailsAt? && fault.k < |matches| {
      var ids := IdsOf(matches[..fault.k]);
      RemoveIdsSpec(tasks, ids);
      forall t | t in tasks && t.id in ids
        ensures t.name == name
      {
        var u :| u in matches[..fault.k] && u.id == t.id;
        assert u in matches;
      }
    }
  }

  /**
   * Deleting a list of names keeps ids distinct, removes only tasks with those
   * names, and, when no call fails, removes every one of them.
   */
  lemma {:induction false} DeleteSeqSpec(tasks: seq<Task>, names: seq<string>, faults: string -> DeleteFault)
    requires DistinctIds(tasks)
    ensures var after := DeleteSeq(tasks, names, faults);
            DistinctIds(after) &&
            (forall t :: t in after ==> t in tasks) &&
            (forall t :: t in tasks && t.name !in names ==> t in after) &&
            ((forall i :: 0 <= i < |names| ==> faults(names[i]) == NoDeleteFault) ==>
               forall t :: t in after ==> t.name !in names)
  {
    if names != [] {
      var init := names[..|names| - 1];
      var last := names[|names| - 1];
      DeleteSeqSpec(tasks, init, faults);
      var mid := DeleteSeq(tasks, init, faults);
      DeleteSpec(mid, last, faults(last));
      var after := DeleteSeq(tasks, names, faults);
      assert names == init + [last];
      if forall i :: 0 <= i < |names| ==> faults(names[i]) == NoDeleteFault {
        assert faults(last) == NoDeleteFault;
        forall i | 0 <= i < |init| ensures faults(init[i]) == NoDeleteFault {
          assert init[i] == names[i];
        }
      }
    }
  }

  /**
   * Cleanup after setup: when no delete fails, exactly the tasks that were
   * there before setup and do not carry one of the ten cleanup names are left.
   */
  lemma CleanupUndoesSetup(reg: Registry, org: string, bucket: string, faults: string -> Fault, deletes: string -> DeleteFault)
    requires WellFormed(reg)
    requires forall i :: 0 <= i < |CleanupNames| ==> deletes(CleanupNames[i]) == NoDeleteFault
    ensures var left := DeleteSeq(SetupEffect(reg, org, bucket, faults).1.tasks, CleanupNames, deletes);
            forall t :: t in left <==> t in reg.tasks && t.name !in CleanupNames
  {
    var after := SetupEffect(reg, org, bucket, faults).1.tasks;
    SetupWellFormed(reg, org, bucket, faults);
    SetupAppends(reg, org, bucket, faults);
    SetupNames();
    DeleteSeqSpec(after, CleanupNames, deletes);
    var left := DeleteSeq(after, CleanupNames, deletes);
    forall k | |reg.tasks| <= k < |after|
      ensures after[k].name in CleanupNames
    {
      var i :| 0 <= i < |SetupSpecs| && after[k] == NewTask(after[k].id, SetupSpecs[i], org, bucket);
    }
    forall t | t in left
      ensures t in reg.tasks
    {
      var k :| 0 <= k < |after| && after[k] == t;
      if k < |reg.tasks| {
        assert after[..|reg.tasks|][k] == t;
      }
    }
    forall t | t in reg.tasks && t.name !in CleanupNames
      ensures t in left
    {
      var k :| 0 <= k < |reg.tasks| && reg.tasks[k] == t;
      assert after[..|reg.tasks|][k] == t;
    }
  }
}
