/**
 * The worker side of the task table (app/scheduler/ds.py): every minute it
 * takes the waiting rows one at a time, runs each on a direct hook and
 * writes back `complete` with the result or `error` with the message;
 * another job deletes rows older than an hour.
 */
module Scheduler {
  import opened Wrappers
  import opened JsonData
  import opened Tasker
  import opened SdsHook

  /** `f(**j)` needs a mapping. */
  function Kwargs(j: Json): (r: Result<seq<Entry>>)
    ensures r.Ok? <==> j.JDict?
    ensures r.Ok? ==> r.value == j.entries
    ensures r.Err? ==> r.failure.exc == TypeError
  {
    if j.JDict? then Ok(j.entries) else Raise(TypeError, "argument after ** must be a mapping")
  }

  /**
   * Python's binding of keyword arguments to a signature whose first
   * `required` parameters have no default: an unknown keyword is reported
   * first, then a missing one.
   */
  function Bind(params: seq<string>, required: nat, kw: seq<Entry>): (o: Outcome)
    requires required <= |params|
    ensures o.Fail? ==> o.failure.exc == TypeError
  {
    if exists i | 0 <= i < |kw| :: kw[i].key !in params then
      Fail(Failure(TypeError, "got an unexpected keyword argument"))
    else if exists j | 0 <= j < required :: params[j] !in KeysOf(kw) then
      Fail(Failure(TypeError, "missing a required argument"))
    else Pass
  }

  /** The direct hook's constructor: `host` and `login` come first and have no default. */
  const CtorParams: seq<string> :=
    ["host", "login", "password", "keytab", "port", "base", "dry_run", "log_level"]

  /** A packed dict binds exactly when every required argument was given. */
  lemma PackBinds(names: seq<string>, required: nat, args: seq<Json>)
    requires |names| == |args| && required <= |names| && Distinct(names)
    ensures Bind(names, required, Pack(names, args)).Pass?
            <==> forall j | 0 <= j < required :: args[j] != JNull
  {
    var kw := Pack(names, args);
    forall i | 0 <= i < |kw| ensures kw[i].key in names {
      assert kw[i] in kw;
    }
    forall j | 0 <= j < required ensures names[j] in KeysOf(kw) <==> args[j] != JNull {
      PackedKeys(names, args, names[j]);
    }
  }

  /** The client's connection dict always binds to the constructor. */
  lemma ConnBinds(c: Login)
    ensures Bind(CtorParams, 2, ConnParams(c)).Pass?
  {
    var kw := ConnParams(c);
    assert KeysOf(kw)[2] == "host" && KeysOf(kw)[0] == "login";
  }

  /**
   * One task, as the worker's `try` block runs it: decode both parameter
   * dicts, build and open the hook, look the operation up by name, bind
   * the query and run it. `decode` stands for decryption and JSON,
   * `connect` for opening the session, `run` for the hook's method.
   */
  function Execute(
    t: Task, decode: string -> Result<Json>, connect: seq<Entry> -> Outcome,
    run: (Operation, seq<Entry>, seq<Entry>) -> Result<Json>): (r: Result<Json>)
    ensures decode(t.paramConn).Err? ==> r == Err(decode(t.paramConn).failure)
    ensures r.Ok? ==> OpOf(t.typeQuery).Some?
  {
    var connJ :- decode(t.paramConn);
    var queryJ :- decode(t.paramQuery);
    var conn :- Kwargs(connJ);
    :- Bind(CtorParams, 2, conn);
    :- connect(conn);
    var op :- match OpOf(t.typeQuery) case Some(op) => Ok(op) case None => Raise(AttributeError, "no such operation");
    var query :- Kwargs(queryJ);
    :- Bind(ParamNames(op), Required(op), query);
    run(op, conn, query)
  }

  /** `{'error': str(e)}`: what an error row holds. */
  function ErrorResult(reason: string): (j: Json)
    ensures j.JDict? && |j.entries| == 1 && j.entries[0].key == "error"
  {
    JDict([Entry("error", JStr(reason))])
  }

  /**
   * One pass of the loop body: the task is marked `complete` with the
   * result, or `error` with the exception's message; nothing else in the
   * row changes.
   */
  function Process(
    t: Task, decode: string -> Result<Json>, connect: seq<Entry> -> Outcome,
    run: (Operation, seq<Entry>, seq<Entry>) -> Result<Json>): (p: Task)
    ensures Finished(p)
    ensures p == t.(status := p.status, result := p.result)
    ensures p.status == Complete <==> Execute(t, decode, connect, run).Ok?
    ensures p.status == Complete ==> p.result == Execute(t, decode, connect, run).value
    ensures p.status == Error ==> p.result == ErrorResult(Execute(t, decode, connect, run).failure.reason)
  {
    match Execute(t, decode, connect, run)
    case Ok(v) => t.(status := Complete, result := v)
    case Err(f) => t.(status := Error, result := ErrorResult(f.reason))
  }

  /**
   * A call the client queued reaches the hook's method with the client's
   * connection dict and the packed arguments as JSON loads them back,
   * provided the row was inserted, `decode` undoes `seal` up to JSON's
   * loading and every required argument was given; the session failing to
   * open is the only other outcome.
   */
  lemma RemoteCallRuns(
    id: nat, op: Operation, args: seq<Json>, c: Login, now: int,
    seal: Json -> Result<string>, decode: string -> Result<Json>, connect: seq<Entry> -> Outcome,
    run: (Operation, seq<Entry>, seq<Entry>) -> Result<Json>)
    requires |args| == |ParamNames(op)|
    requires forall j | seal(j).Ok? :: decode(seal(j).value) == Ok(AsLoaded(j))
    requires forall i | 0 <= i < Required(op) :: args[i] != JNull
    requires Enqueue(id, op, args, c, seal, now).Ok?
    ensures Execute(Enqueue(id, op, args, c, seal, now).value, decode, connect, run) ==
              if connect(ConnParams(c)).Fail? then Err(connect(ConnParams(c)).failure)
              else run(op, ConnParams(c), Pack(ParamNames(op), LoadedAll(args)))
  {
    var t := Enqueue(id, op, args, c, seal, now).value;
    var loaded := LoadedAll(args);
    ConnStorable(c);
    PackLoaded(ParamNames(op), args);
    forall i | 0 <= i < Required(op) ensures loaded[i] != JNull {
      AsLoadedNull(args[i]);
    }
    ConnBinds(c);
    ParamsDistinct(op);
    PackBinds(ParamNames(op), Required(op), loaded);
    NameRoundTrip(op);
    ExecuteBound(t, decode, connect, run, ConnParams(c), op, Pack(ParamNames(op), loaded));
  }

  /** Once both dicts decode and bind, the task's outcome is the session's failure or the method's. */
  lemma ExecuteBound(
    t: Task, decode: string -> Result<Json>, connect: seq<Entry> -> Outcome,
    run: (Operation, seq<Entry>, seq<Entry>) -> Result<Json>,
    conn: seq<Entry>, op: Operation, query: seq<Entry>)
    requires decode(t.paramConn) == Ok(JDict(conn)) && decode(t.paramQuery) == Ok(JDict(query))
    requires Bind(CtorParams, 2, conn).Pass? && OpOf(t.typeQuery) == Some(op)
    requires Bind(ParamNames(op), Required(op), query).Pass?
    ensures Execute(t, decode, connect, run) ==
              if connect(conn).Fail? then Err(connect(conn).failure) else run(op, conn, query)
  {
  }

  /** A call that leaves out a required argument fails on the worker with `TypeError`. */
  lemma MissingArgumentFails(
    id: nat, op: Operation, args: seq<Json>, c: Login, now: int,
    seal: Json -> Result<string>, decode: string -> Result<Json>, connect: seq<Entry> -> Outcome,
    run: (Operation, seq<Entry>, seq<Entry>) -> Result<Json>, i: nat)
    requires |args| == |ParamNames(op)|
    requires forall j | seal(j).Ok? :: decode(seal(j).value) == Ok(AsLoaded(j))
    requires i < Required(op) && args[i] == JNull && connect(ConnParams(c)).Pass?
    requires Enqueue(id, op, args, c, seal, now).Ok?
    ensures RaisedAs(Execute(Enqueue(id, op, args, c, seal, now).value, decode, connect, run), TypeError)
  {
    var loaded := LoadedAll(args);
    ConnStorable(c);
    PackLoaded(ParamNames(op), args);
    AsLoadedNull(args[i]);
    assert loaded[i] == JNull;
    ConnBinds(c);
    ParamsDistinct(op);
    PackBinds(ParamNames(op), Required(op), loaded);
    NameRoundTrip(op);
  }

  /**
   * What the client reads back from a processed call: an exception on the
   * worker comes back as `RuntimeError` carrying the printed error dict,
   * a result comes back as the client's reply to it.
   */
  lemma ErrorsReachClient(t: Task, decode: string -> Result<Json>, connect: seq<Entry> -> Outcome,
    run: (Operation, seq<Entry>, seq<Entry>) -> Result<Json>, show: Json -> string)
    ensures var r := Execute(t, decode, connect, run);
            r.Err? ==> Answer(Process(t, decode, connect, run), show)
                         == Raise(RuntimeError, show(ErrorResult(r.failure.reason)))
    ensures var r := Execute(t, decode, connect, run);
            r.Ok? && !r.value.JList? ==> Answer(Process(t, decode, connect, run), show) == Ok(Value(r.value))
  {
  }

  // ---------------------------------------------------------------------
  // The polling loop

  /** How many rows are still waiting. */
  function WaitingCount(table: seq<Task>): (n: nat)
    ensures n <= |table|
    ensures n == 0 <==> forall i | 0 <= i < |table| :: !Pending(table[i])
  {
    if |table| == 0 then 0
    else
      assert forall i | 1 <= i < |table| :: table[1..][i - 1] == table[i];
      (if Pending(table[0]) then 1 else 0) + WaitingCount(table[1..])
  }

  /** `select ... where status = 'waiting'` then `.first()`. */
  function FirstWaiting(table: seq<Task>): (r: Option<nat>)
    ensures r.Some? ==> r.value < |table| && Pending(table[r.value])
                        && forall j | 0 <= j < r.value :: !Pending(table[j])
    ensures r.None? <==> forall i | 0 <= i < |table| :: !Pending(table[i])
  {
    if |table| == 0 then None
    else if Pending(table[0]) then Some(0)
    else
      assert forall i | 1 <= i < |table| :: table[1..][i - 1] == table[i];
      match FirstWaiting(table[1..])
      case Some(j) => Some(j + 1)
      case None => None
  }

  /**
   * A waiting row whose processed result the commit in `finally` refuses:
   * the result column's serializer (`json.dumps`, the default of a JSON
   * column) raises TypeError on a datetime or an exception object, the row
   * stays waiting and the exception leaves the loop.
   */
  predicate Blocks(t: Task, proc: Task -> Task) {
    Pending(t) && !Storable(proc(t).result)
  }

  /** A row processor that always finishes the row it is given. */
  ghost predicate Finishing(proc: Task -> Task) {
    forall t :: Finished(proc(t))
  }

  /** `Process` as the processor the loop applies to each waiting row. */
  function Processor(
    decode: string -> Result<Json>, connect: seq<Entry> -> Outcome,
    run: (Operation, seq<Entry>, seq<Entry>) -> Result<Json>): (proc: Task -> Task)
    ensures Finishing(proc)
    ensures forall t :: proc(t) == Process(t, decode, connect, run)
  {
    t => Process(t, decode, connect, run)
  }

  /** Only a method's own result can block a row: an error row always stores. */
  lemma BlocksOnlyOnResult(
    t: Task, decode: string -> Result<Json>, connect: seq<Entry> -> Outcome,
    run: (Operation, seq<Entry>, seq<Entry>) -> Result<Json>)
    ensures Blocks(t, Processor(decode, connect, run)) <==>
              Pending(t) && Execute(t, decode, connect, run).Ok? && !Storable(Execute(t, decode, connect, run).value)
  {
    var r := Execute(t, decode, connect, run);
    if r.Err? {
      var e := ErrorResult(r.failure.reason);
      assert e.entries[0].value == JStr(r.failure.reason);
      assert Storable(e);
    }
  }

  /** The table after the waiting rows before position `k` were processed. */
  function DrainedUpTo(table: seq<Task>, k: nat, proc: Task -> Task): (d: seq<Task>)
    requires Finishing(proc)
    ensures |d| == |table|
    ensures forall i | 0 <= i < |table| && i < k :: !Pending(d[i])
    ensures forall i | k <= i < |table| :: d[i] == table[i]
  {
    seq(|table|, i requires 0 <= i < |table| =>
      if i < k && Pending(table[i]) then proc(table[i]) else table[i])
  }

  /**
   * The reference result of a run that no row blocks: every row that was
   * waiting is processed, every other row is left as it was.
   */
  function Drained(table: seq<Task>, proc: Task -> Task): (d: seq<Task>)
    requires Finishing(proc)
    ensures |d| == |table|
    ensures forall i | 0 <= i < |table| :: !Pending(d[i])
  {
    DrainedUpTo(table, |table|, proc)
  }

  /** The first row at or after `from` that blocks. */
  function FirstBlocked(table: seq<Task>, from: nat, proc: Task -> Task): (r: Option<nat>)
    requires from <= |table|
    ensures r.Some? ==> from <= r.value < |table| && Blocks(table[r.value], proc)
                        && forall j | from <= j < r.value :: !Blocks(table[j], proc)
    ensures r.None? <==> forall j | from <= j < |table| :: !Blocks(table[j], proc)
    decreases |table| - from
  {
    if from == |table| then None
    else if Blocks(table[from], proc) then Some(from)
    else FirstBlocked(table, from + 1, proc)
  }

  /**
   * The reference result of one run of `run_execution`, with the row it
   * stopped at: with no blocking row every waiting row is processed;
   * otherwise the waiting rows before the first blocking one are processed
   * and it and every row after it stay as they were.
   */
  function Tick(table: seq<Task>, proc: Task -> Task): (r: (seq<Task>, Option<nat>))
    requires Finishing(proc)
    ensures r.1.None? <==> forall i | 0 <= i < |table| :: !Blocks(table[i], proc)
    ensures r.1.None? ==> r.0 == Drained(table, proc) && WaitingCount(r.0) == 0
    ensures r.1.Some? ==> r.1.value < |table| && Blocks(table[r.1.value], proc)
                          && (forall i | 0 <= i < r.1.value :: !Blocks(table[i], proc))
                          && r.0 == DrainedUpTo(table, r.1.value, proc)
                          && Pending(r.0[r.1.value])
                          && (forall i | r.1.value <= i < |table| :: r.0[i] == table[i])
  {
    match FirstBlocked(table, 0, proc)
    case None => (Drained(table, proc), None)
    case Some(k) => (DrainedUpTo(table, k, proc), Some(k))
  }

  /**
   * The next minute's run changes nothing more: a blocking row stops every
   * later run at the same place, so no row after it is ever processed.
   * Two assumptions are built in. The table is in the database's scan order,
   * taken to be the same from one query to the next. `proc` is a fixed
   * function of the row, so re-running the stuck row's operation gives the
   * same result that cannot be stored; only reads, whose objects can hold
   * datetime values, return such a result, while the `set_*` and `new_*`
   * operations return None.
   */
  lemma TickAgain(table: seq<Task>, proc: Task -> Task)
    requires Finishing(proc)
    ensures Tick(Tick(table, proc).0, proc) == Tick(table, proc)
  {
    var (d, stuck) := Tick(table, proc);
    match stuck
    case None =>
      assert forall i | 0 <= i < |d| :: !Blocks(d[i], proc);
      SettledUnchanged(d, |d|, proc);
    case Some(k) =>
      assert forall i | 0 <= i < k :: !Blocks(d[i], proc);
      FirstBlockedAt(d, k, proc);
      SettledUnchanged(d, k, proc);
  }

  /** Processing the waiting rows before `k` changes nothing when none of them waits. */
  lemma SettledUnchanged(table: seq<Task>, k: nat, proc: Task -> Task)
    requires Finishing(proc)
    requires k <= |table| && forall i | 0 <= i < k :: !Pending(table[i])
    ensures DrainedUpTo(table, k, proc) == table
  {
    var d := DrainedUpTo(table, k, proc);
    assert forall i | 0 <= i < |table| :: d[i] == table[i];
  }

  /** The first blocking row at or after `from` is the one `FirstBlocked` names. */
  lemma {:induction false} FirstBlockedFrom(table: seq<Task>, from: nat, k: nat, proc: Task -> Task)
    requires from <= k < |table| && Blocks(table[k], proc)
    requires forall i | from <= i < k :: !Blocks(table[i], proc)
    ensures FirstBlocked(table, from, proc) == Some(k)
    decreases k - from
  {
    if from < k {
      FirstBlockedFrom(table, from + 1, k, proc);
    }
  }

  /** A run that meets its first blocking row at `k` stops there. */
  lemma FirstBlockedAt(table: seq<Task>, k: nat, proc: Task -> Task)
    requires Finishing(proc)
    requires k < |table| && Blocks(table[k], proc)
    requires forall i | 0 <= i < k :: !Blocks(table[i], proc)
    ensures FirstBlocked(table, 0, proc) == Some(k)
    ensures Tick(table, proc) == (DrainedUpTo(table, k, proc), Some(k))
  {
    FirstBlockedFrom(table, 0, k, proc);
  }

  /** Marking one more row done takes one off the waiting count. */
  lemma {:induction false} WaitingCountStep(table: seq<Task>, i: nat, p: Task)
    requires i < |table| && Pending(table[i]) && !Pending(p)
    ensures WaitingCount(table[i := p]) == WaitingCount(table) - 1
  {
    if i > 0 {
      assert table[i := p][1..] == table[1..][i - 1 := p];
      WaitingCountStep(table[1..], i - 1, p);
    } else {
      assert table[i := p][1..] == table[1..];
    }
  }

  /**
   * `run_execution`: take the first waiting row, process it, commit, and
   * start over until none is left. A commit that raises ends the run; the
   * row it was for is returned in `stuck`, still waiting.
   */
  method RunExecution(
    table: seq<Task>, decode: string -> Result<Json>, connect: seq<Entry> -> Outcome,
    run: (Operation, seq<Entry>, seq<Entry>) -> Result<Json>)
    returns (final: seq<Task>, stuck: Option<nat>)
    ensures (final, stuck) == Tick(table, Processor(decode, connect, run))
    ensures stuck.None? <==> forall i | 0 <= i < |table| :: !Blocks(table[i], Processor(decode, connect, run))
    ensures stuck.None? ==> WaitingCount(final) == 0
    ensures stuck.Some? ==> stuck.value < |final| && final[stuck.value] == table[stuck.value] && Pending(final[stuck.value])
  {
    final, stuck := Drain(table, Processor(decode, connect, run));
  }

  /** The loop of `run_execution` for any way `proc` of processing one row. */
  method Drain(table: seq<Task>, proc: Task -> Task) returns (final: seq<Task>, stuck: Option<nat>)
    requires Finishing(proc)
    ensures (final, stuck) == Tick(table, proc)
    ensures stuck.None? <==> forall i | 0 <= i < |table| :: !Blocks(table[i], proc)
    ensures stuck.None? ==> WaitingCount(final) == 0
    ensures stuck.Some? ==> stuck.value < |final| && final[stuck.value] == table[stuck.value] && Pending(final[stuck.value])
  {
    final := table;
    var done := 0;
    while true
      invariant done <= |table|
      invariant final == DrainedUpTo(table, done, proc)
      invariant forall j | 0 <= j < done :: !Blocks(table[j], proc)
      decreases |table| - done
    {
      var next := FirstWaiting(final);
      if next.None? {
        DrainedAll(table, done, proc);
        return final, None;
      }
      var i := next.value;
      WaitingAt(table, done, i, proc);
      var p := proc(final[i]);
      if !Storable(p.result) {
        FirstBlockedAt(table, i, proc);
        return final, Some(i);
      }
      final := final[i := p];
      done := i + 1;
    }
  }

  /** The first waiting row of a partly processed table lies at or after `done`, with nothing waiting between. */
  lemma WaitingAt(table: seq<Task>, done: nat, i: nat, proc: Task -> Task)
    requires Finishing(proc)
    requires done <= |table| && forall j | 0 <= j < done :: !Blocks(table[j], proc)
    requires FirstWaiting(DrainedUpTo(table, done, proc)) == Some(i)
    ensures done <= i < |table| && Pending(table[i])
    ensures forall j | 0 <= j < i :: !Blocks(table[j], proc)
    ensures !Storable(proc(table[i]).result) ==> Blocks(table[i], proc)
    ensures DrainedUpTo(table, done, proc) == DrainedUpTo(table, i, proc)
    ensures DrainedUpTo(table, done, proc)[i := proc(table[i])]
            == DrainedUpTo(table, i + 1, proc)
  {
    var d := DrainedUpTo(table, done, proc);
    var e := DrainedUpTo(table, i + 1, proc);
    assert done <= i;
    forall j | done <= j < i ensures !Pending(table[j]) {
      assert d[j] == table[j];
    }
    var c := DrainedUpTo(table, i, proc);
    forall j | 0 <= j < |table| ensures d[j] == c[j] {
      if j >= done && j < i {
        assert !Pending(table[j]);
      }
    }
    var u := d[i := proc(table[i])];
    forall j | 0 <= j < |table| ensures u[j] == e[j] {
      if j >= done && j < i {
        assert !Pending(table[j]);
      }
    }
  }

  /** With nothing left waiting, the partly processed table is the fully drained one. */
  lemma DrainedAll(table: seq<Task>, done: nat, proc: Task -> Task)
    requires Finishing(proc)
    requires done <= |table| && forall j | 0 <= j < done :: !Blocks(table[j], proc)
    requires forall j | 0 <= j < |table| :: !Pending(DrainedUpTo(table, done, proc)[j])
    ensures forall j | 0 <= j < |table| :: !Blocks(table[j], proc)
    ensures DrainedUpTo(table, done, proc) == Drained(table, proc)
    ensures Tick(table, proc) == (Drained(table, proc), None)
  {
    var d := DrainedUpTo(table, done, proc);
    var e := Drained(table, proc);
    forall j | done <= j < |table| ensures !Pending(table[j]) {
      assert d[j] == table[j];
    }
    forall j | 0 <= j < |table| ensures d[j] == e[j] {
    }
  }

  // ---------------------------------------------------------------------
  // Cleaning

  /** How long a row is kept, in seconds. */
  const KeepFor := 3600

  /** `run_cleaning`: delete every row created more than an hour before `now`. */
  function Clean(table: seq<Task>, now: int): (kept: seq<Task>)
    ensures |kept| <= |table|
    ensures forall t :: t in kept <==> t in table && t.createdAt >= now - KeepFor
  {
    if |table| == 0 then []
    else
      var rest := Clean(table[1..], now);
      assert forall t :: t in table <==> t == table[0] || t in table[1..];
      if table[0].createdAt < now - KeepFor then rest else [table[0]] + rest
  }

  /** Cleaning twice in the same instant deletes nothing more. */
  lemma {:induction false} CleanIdempotent(table: seq<Task>, now: int)
    ensures Clean(Clean(table, now), now) == Clean(table, now)
  {
    if |table| > 0 {
      CleanIdempotent(table[1..], now);
      if table[0].createdAt >= now - KeepFor {
        assert ([table[0]] + Clean(table[1..], now))[1..] == Clean(table[1..], now);
      }
    }
  }
}
