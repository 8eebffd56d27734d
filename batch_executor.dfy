// The batch executor: read a command template and a list of IDs, then run
// the template once per ID with `<id>` replaced by that ID, pausing a fixed
// delay between consecutive items.
//
// The file system and the subprocess are the environment, passed in as an
// `Io` value: what reading a path gives (its text, or the rows a CSV reader
// yields), and what the k-th launched command does. What happens observably
// during a run (each execution and each pause) is returned as a trace.

module BatchExecution {
  import opened PyStr

  /** A value, or the message of the exception raised instead. */
  datatype Result<T> = Success(value: T) | Failure(error: string)

  /** One row as the CSV reader yields it: its cells. */
  type Row = seq<string>

  /** The token of the command template that each ID replaces. */
  const Placeholder: string := "<id>"

  /** The exit code reported when the command could not be run to its end. */
  const Sentinel: int := -1

  const TimeoutMessage: string := "Command timed out"

  // ---------------------------------------------------------------------
  // Running one command

  /** What running one command in a shell can end in. */
  datatype RunnerOutcome =
    | Exited(returncode: int, stdout: string, stderr: string)
    | TimedOut
    | Errored(message: string)  // any other exception, by its message

  /** The (exit code, stdout, stderr) triple of one execution. */
  datatype ExecResult = ExecResult(exitCode: int, stdout: string, stderr: string)

  /**
   * The triple `execute_command` returns for a run of the command: never an
   * exception. Exit code 0 comes only from a command that exited with 0;
   * a timeout or a failure to run gives the sentinel code and no output.
   */
  function ExecuteCommand(outcome: RunnerOutcome): (r: ExecResult)
    ensures r.exitCode == 0 <==> outcome.Exited? && outcome.returncode == 0
    ensures outcome.Exited? ==>
      r.exitCode == outcome.returncode && r.stdout == outcome.stdout && r.stderr == outcome.stderr
    ensures !outcome.Exited? ==> r.exitCode == Sentinel && r.stdout == ""
    ensures outcome.TimedOut? ==> r.stderr == TimeoutMessage
    ensures outcome.Errored? ==> r.stderr == outcome.message
  {
    match outcome
    case Exited(code, out, err) => ExecResult(code, out, err)
    case TimedOut => ExecResult(Sentinel, "", TimeoutMessage)
    case Errored(message) => ExecResult(Sentinel, "", message)
  }

  /**
   * `replace_id_in_command`: every `<id>` of the template becomes `id`, so
   * the command is the template's pieces between placeholders, joined with `id`.
   */
  function ReplaceIdInCommand(template: string, id: string): (command: string)
    ensures command == Join(Split(template, Placeholder), id)
  {
    ReplaceIsJoin(template, Placeholder, id);
    Replace(template, Placeholder, id)
  }

  /**
   * Substitution splits the template at its placeholders and joins the
   * pieces with the ID; a template without a placeholder is left as it is.
   */
  lemma ReplaceIdInCommandSpec(template: string, id: string)
    ensures Join(Split(template, Placeholder), Placeholder) == template
    ensures forall k :: 0 <= k < |Split(template, Placeholder)| ==>
      !Contains(Split(template, Placeholder)[k], Placeholder)
    ensures !Contains(template, Placeholder) ==> ReplaceIdInCommand(template, id) == template
  {
    JoinSplit(template, Placeholder);
    SplitPiecesClean(template, Placeholder);
    if !Contains(template, Placeholder) {
      ReplaceAbsent(template, Placeholder, id);
    }
  }

  /** `<id>` cannot overlap itself: only its first character is `<`. */
  lemma PlaceholderSelfOverlapFree()
    ensures SelfOverlapFree(Placeholder)
  {
    forall d | 0 < d < |Placeholder|
      ensures !Overlaps(Placeholder, d)
    {
      assert Placeholder[d..][0] != Placeholder[..|Placeholder| - d][0];
    }
  }

  /**
   * Every `<id>` of the template is replaced: the positions where it occurs
   * are exactly the cut points at which `ReplaceIdInCommand` puts the ID.
   */
  lemma EveryPlaceholderReplaced(template: string, i: int)
    ensures OccursAt(template, Placeholder, i) <==>
      IsCutPoint(Split(template, Placeholder), Placeholder, i)
  {
    if OccursAt(template, Placeholder, i) {
      PlaceholderSelfOverlapFree();
      OccurrencesAreCuts(template, Placeholder, i);
    }
    if IsCutPoint(Split(template, Placeholder), Placeholder, i) {
      CutsAreOccurrences(template, Placeholder, i);
    }
  }

  // ---------------------------------------------------------------------
  // IDs from the rows of the CSV file

  /** A row gives an ID when it has a first cell that is not blank. */
  predicate HasId(row: Row) {
    |row| > 0 && Strip(row[0]) != []
  }

  /** The IDs of `rows`, in row order: each kept row's first cell, stripped. */
  function IdsOf(rows: seq<Row>): (ids: seq<string>)
    ensures |ids| <= |rows|
  {
    if rows == [] then []
    else
      var last := rows[|rows| - 1];
      IdsOf(rows[..|rows| - 1]) + (if HasId(last) then [Strip(last[0])] else [])
  }

  /** Every ID is non-empty and has no surrounding whitespace. */
  lemma {:induction false} IdsOfStripped(rows: seq<Row>)
    ensures forall k :: 0 <= k < |IdsOf(rows)| ==> IdsOf(rows)[k] != [] && IsStripped(IdsOf(rows)[k])
  {
    if rows != [] {
      IdsOfStripped(rows[..|rows| - 1]);
    }
  }

  /** IDs keep the order of the rows: reading two files in turn concatenates. */
  lemma {:induction false} IdsOfAppend(a: seq<Row>, b: seq<Row>)
    ensures IdsOf(a + b) == IdsOf(a) + IdsOf(b)
    decreases |b|
  {
    if b == [] {
      assert a + b == a;
    } else {
      var b' := b[..|b| - 1];
      assert (a + b)[..|a + b| - 1] == a + b';
      assert (a + b)[|a + b| - 1] == b[|b| - 1];
      IdsOfAppend(a, b');
    }
  }

  /** Every ID comes from a row whose first cell is non-blank and strips to it. */
  lemma {:induction false} IdsOfSource(rows: seq<Row>, id: string) returns (j: nat)
    requires id in IdsOf(rows)
    ensures j < |rows| && HasId(rows[j]) && Strip(rows[j][0]) == id
  {
    var init, last := rows[..|rows| - 1], rows[|rows| - 1];
    if id in IdsOf(init) {
      j := IdsOfSource(init, id);
      assert rows[j] == init[j];
    } else {
      j := |rows| - 1;
    }
  }

  /** Every row whose first cell is non-blank gives its stripped first cell as an ID. */
  lemma {:induction false} IdsOfKept(rows: seq<Row>, j: nat)
    requires j < |rows| && HasId(rows[j])
    ensures Strip(rows[j][0]) in IdsOf(rows)
  {
    var init := rows[..|rows| - 1];
    if j < |rows| - 1 {
      assert init[j] == rows[j];
      IdsOfKept(init, j);
    }
  }

  /** An ID is read exactly when some row with a non-blank first cell strips to it. */
  lemma IdsOfMembers(rows: seq<Row>, id: string)
    ensures id in IdsOf(rows) <==>
      exists j :: 0 <= j < |rows| && HasId(rows[j]) && Strip(rows[j][0]) == id
  {
    if id in IdsOf(rows) {
      var j := IdsOfSource(rows, id);
    }
    if exists j :: 0 <= j < |rows| && HasId(rows[j]) && Strip(rows[j][0]) == id {
      var j :| 0 <= j < |rows| && HasId(rows[j]) && Strip(rows[j][0]) == id;
      IdsOfKept(rows, j);
    }
  }

  /** Rows that are empty or whose first cell is blank give no IDs. */
  lemma {:induction false} IdsOfBlankRows(rows: seq<Row>)
    requires forall j :: 0 <= j < |rows| ==> !HasId(rows[j])
    ensures IdsOf(rows) == []
  {
    if rows != [] {
      IdsOfBlankRows(rows[..|rows| - 1]);
    }
  }

  /** Rows that all have an ID give one ID each, in order. */
  lemma {:induction false} IdsOfAllKept(rows: seq<Row>)
    requires forall j :: 0 <= j < |rows| ==> HasId(rows[j])
    ensures |IdsOf(rows)| == |rows| &&
      forall j :: 0 <= j < |rows| ==> HasId(rows[j]) && IdsOf(rows)[j] == Strip(rows[j][0])
  {
    if rows != [] {
      var init, last := rows[..|rows| - 1], rows[|rows| - 1];
      forall j | 0 <= j < |init| ensures HasId(init[j]) {
        assert init[j] == rows[j];
      }
      IdsOfAllKept(init);
      assert IdsOf(rows) == IdsOf(init) + [Strip(last[0])];
      assert forall j :: 0 <= j < |init| ==> rows[j] == init[j];
    }
  }

  // ---------------------------------------------------------------------
  // The batch run and what it does

  /** The environment: reading a file, reading a CSV file, running command k. */
  datatype Io = Io(
    readText: string -> Result<string>,
    readCsv: string -> Result<seq<Row>>,
    run: (nat, string) -> RunnerOutcome)

  /** One observable step of a run: an execution or a pause of `ms` milliseconds. */
  datatype Event = Execute(command: string, result: ExecResult) | Sleep(ms: int)

  /** The exceptions that escape a run. */
  datatype Error =
    | ReadError(message: string)  // reading the template or the CSV file failed
    | NegativeSleepLength         // `time.sleep` refuses a negative delay

  /** How a run ends. */
  datatype BatchOutcome =
    | Aborted(error: Error)
    | NoIds
    | Finished(successful: nat, failed: nat)

  /** A loaded run: template, IDs, mode, delay and the runner. */
  datatype Batch = Batch(
    template: string,
    ids: seq<string>,
    dryRun: bool,
    delayMs: int,
    run: (nat, string) -> RunnerOutcome)
  {
    /** The command for the k-th ID. */
    function Command(k: nat): string
      requires k < |ids|
    {
      ReplaceIdInCommand(template, ids[k])
    }

    /** The commands of the whole run, in ID order. */
    function Commands(): seq<string> {
      seq(|ids|, k requires 0 <= k < |ids| => Command(k))
    }

    /** The triple the k-th execution yields. */
    function ResultAt(k: nat): ExecResult
      requires k < |ids|
    {
      ExecuteCommand(run(k, Command(k)))
    }

    function Results(): seq<ExecResult> {
      seq(|ids|, k requires 0 <= k < |ids| => ResultAt(k))
    }

    /** The events of item k: its execution unless dry, then a pause unless last. */
    function Step(k: nat): seq<Event>
      requires k < |ids|
    {
      (if dryRun then [] else [Execute(Command(k), ResultAt(k))])
      + (if k + 1 < |ids| then [Sleep(delayMs)] else [])
    }

    /** The events of the first n items. */
    function Events(n: nat): seq<Event>
      requires n <= |ids|
    {
      if n == 0 then [] else Events(n - 1) + Step(n - 1)
    }
  }

  /** Number of results with exit code 0. */
  function Successes(rs: seq<ExecResult>): nat {
    if rs == [] then 0
    else Successes(rs[..|rs| - 1]) + (if rs[|rs| - 1].exitCode == 0 then 1 else 0)
  }

  /** Number of results with a non-zero exit code. */
  function Failures(rs: seq<ExecResult>): nat {
    if rs == [] then 0
    else Failures(rs[..|rs| - 1]) + (if rs[|rs| - 1].exitCode != 0 then 1 else 0)
  }

  /** Every result counts once, as a success or as a failure. */
  lemma {:induction false} SuccessesPlusFailures(rs: seq<ExecResult>)
    ensures Successes(rs) + Failures(rs) == |rs|
  {
    if rs != [] {
      SuccessesPlusFailures(rs[..|rs| - 1]);
    }
  }

  /** When every command exits with 0 there is no failure. */
  lemma {:induction false} AllExitZero(rs: seq<ExecResult>)
    requires forall k :: 0 <= k < |rs| ==> rs[k].exitCode == 0
    ensures Successes(rs) == |rs| && Failures(rs) == 0
  {
    if rs != [] {
      AllExitZero(rs[..|rs| - 1]);
    }
  }

  /** The commands executed in a trace, in order. */
  function Executed(trace: seq<Event>): seq<string> {
    if trace == [] then []
    else Executed(trace[..|trace| - 1])
         + (if trace[|trace| - 1].Execute? then [trace[|trace| - 1].command] else [])
  }

  /** The pauses of a trace, in order, by their length. */
  function Sleeps(trace: seq<Event>): seq<int> {
    if trace == [] then []
    else Sleeps(trace[..|trace| - 1])
         + (if trace[|trace| - 1].Sleep? then [trace[|trace| - 1].ms] else [])
  }

  lemma ExecutedSingle(e: Event)
    ensures Executed([e]) == if e.Execute? then [e.command] else []
  {
  }

  lemma SleepsSingle(e: Event)
    ensures Sleeps([e]) == if e.Sleep? then [e.ms] else []
  {
  }

  lemma {:induction false} ExecutedAppend(t: seq<Event>, u: seq<Event>)
    ensures Executed(t + u) == Executed(t) + Executed(u)
    decreases |u|
  {
    if u == [] {
      assert t + u == t;
    } else {
      var u' := u[..|u| - 1];
      assert (t + u)[..|t + u| - 1] == t + u';
      ExecutedAppend(t, u');
    }
  }

  lemma {:induction false} SleepsAppend(t: seq<Event>, u: seq<Event>)
    ensures Sleeps(t + u) == Sleeps(t) + Sleeps(u)
    decreases |u|
  {
    if u == [] {
      assert t + u == t;
    } else {
      var u' := u[..|u| - 1];
      assert (t + u)[..|t + u| - 1] == t + u';
      SleepsAppend(t, u');
    }
  }

  /** The commands item k executes: its own, unless the run is dry. */
  lemma StepExecuted(b: Batch, k: nat)
    requires k < |b.ids|
    ensures Executed(b.Step(k)) == if b.dryRun then [] else [b.Command(k)]
  {
    var exec: seq<Event> := if b.dryRun then [] else [Execute(b.Command(k), b.ResultAt(k))];
    var pause: seq<Event> := if k + 1 < |b.ids| then [Sleep(b.delayMs)] else [];
    assert b.Step(k) == exec + pause;
    ExecutedAppend(exec, pause);
    if exec != [] {
      ExecutedSingle(exec[0]);
    }
    if pause != [] {
      ExecutedSingle(pause[0]);
    }
  }

  /** The pauses item k makes: one, unless it is the last item. */
  lemma StepSleeps(b: Batch, k: nat)
    requires k < |b.ids|
    ensures Sleeps(b.Step(k)) == if k + 1 < |b.ids| then [b.delayMs] else []
  {
    var exec: seq<Event> := if b.dryRun then [] else [Execute(b.Command(k), b.ResultAt(k))];
    var pause: seq<Event> := if k + 1 < |b.ids| then [Sleep(b.delayMs)] else [];
    assert b.Step(k) == exec + pause;
    SleepsAppend(exec, pause);
    if exec != [] {
      SleepsSingle(exec[0]);
    }
    if pause != [] {
      SleepsSingle(pause[0]);
    }
  }

  lemma PrefixSnoc<T>(s: seq<T>, n: nat)
    requires 0 < n <= |s|
    ensures s[..n] == s[..n - 1] + [s[n - 1]]
  {
  }

  lemma RepeatSnoc(x: int, m: nat)
    ensures seq(m + 1, _ => x) == seq(m, _ => x) + [x]
  {
  }

  /**
   * The runner is called once per item, in ID order, with the template
   * filled with that item's ID; a dry run calls it never.
   */
  lemma {:induction false} EventsExecuted(b: Batch, n: nat)
    requires n <= |b.ids|
    ensures Executed(b.Events(n)) == if b.dryRun then [] else b.Commands()[..n]
  {
    if n > 0 {
      var k := n - 1;
      EventsExecuted(b, k);
      assert b.Events(n) == b.Events(k) + b.Step(k);
      ExecutedAppend(b.Events(k), b.Step(k));
      StepExecuted(b, k);
      if !b.dryRun {
        var cs := b.Commands();
        assert cs[k] == b.Command(k);
        PrefixSnoc(cs, n);
      }
    }
  }

  /** There is a pause after every item but the last, each of the configured length. */
  lemma {:induction false} EventsSleeps(b: Batch, n: nat)
    requires n <= |b.ids|
    ensures Sleeps(b.Events(n)) ==
      seq(if n == |b.ids| && n > 0 then n - 1 else n, _ => b.delayMs)
  {
    if n > 0 {
      var k := n - 1;
      EventsSleeps(b, k);
      assert b.Events(n) == b.Events(k) + b.Step(k);
      SleepsAppend(b.Events(k), b.Step(k));
      StepSleeps(b, k);
      if n < |b.ids| {
        RepeatSnoc(b.delayMs, k);
      }
    }
  }

  /**
   * A run that executes alternates strictly: execution, pause, execution,
   * ..., and ends with the last execution.
   */
  lemma {:induction false} EventsAlternate(b: Batch, n: nat)
    requires n <= |b.ids| && !b.dryRun
    ensures |b.Events(n)| == if n == |b.ids| && n > 0 then 2 * n - 1 else 2 * n
    ensures forall j :: 0 <= j < |b.Events(n)| ==>
      b.Events(n)[j] == if j % 2 == 0 then Execute(b.Command(j / 2), b.ResultAt(j / 2))
                        else Sleep(b.delayMs)
  {
    if n > 0 {
      EventsAlternate(b, n - 1);
      var e := b.Events(n);
      var prev := b.Events(n - 1);
      assert |prev| == 2 * (n - 1);
      forall j | 0 <= j < |e|
        ensures e[j] == if j % 2 == 0 then Execute(b.Command(j / 2), b.ResultAt(j / 2))
                        else Sleep(b.delayMs)
      {
        if j < |prev| {
          assert e[j] == prev[j];
        } else if j == |prev| {
          assert j / 2 == n - 1 && j % 2 == 0;
        } else {
          assert j % 2 == 1;
        }
      }
    }
  }

  /** A dry run only pauses: one pause between each two consecutive items. */
  lemma {:induction false} EventsDryRun(b: Batch, n: nat)
    requires n <= |b.ids| && b.dryRun
    ensures b.Events(n) == seq(if n == |b.ids| && n > 0 then n - 1 else n, _ => Sleep(b.delayMs))
  {
    if n > 0 {
      EventsDryRun(b, n - 1);
    }
  }

  /** A complete run executes every command once, in order, with a pause between each two. */
  lemma CompleteRun(b: Batch)
    requires b.ids != []
    ensures Executed(b.Events(|b.ids|)) == if b.dryRun then [] else b.Commands()
    ensures Sleeps(b.Events(|b.ids|)) == seq(|b.ids| - 1, _ => b.delayMs)
    ensures Successes(b.Results()) + Failures(b.Results()) == |b.ids|
  {
    EventsExecuted(b, |b.ids|);
    EventsSleeps(b, |b.ids|);
    SuccessesPlusFailures(b.Results());
    assert b.Commands()[..|b.ids|] == b.Commands();
  }

  /**
   * The loop of `run_batch_execution` over loaded IDs: each item in order,
   * executed and counted by its exit code unless the run is dry, then a
   * pause unless it is the last item; a negative pause raises.
   */
  method ProcessIds(b: Batch) returns (outcome: BatchOutcome, trace: seq<Event>)
    ensures b.delayMs >= 0 || |b.ids| <= 1 ==>
      && trace == b.Events(|b.ids|)
      && outcome == Finished(if b.dryRun then |b.ids| else Successes(b.Results()),
                             if b.dryRun then 0 else Failures(b.Results()))
    ensures b.delayMs < 0 && |b.ids| > 1 ==>
      outcome == Aborted(NegativeSleepLength) && trace + [Sleep(b.delayMs)] == b.Events(1)
  {
    trace := [];
    ghost var rs := b.Results();
    var successful, failed := 0, 0;
    for i := 0 to |b.ids|
      invariant trace == b.Events(i)
      invariant successful == if b.dryRun then i else Successes(rs[..i])
      invariant failed == if b.dryRun then 0 else Failures(rs[..i])
      invariant b.delayMs < 0 && |b.ids| > 1 ==> i == 0
    {
      var command := ReplaceIdInCommand(b.template, b.ids[i]);
      ghost var before := trace;
      if b.dryRun {
        successful := successful + 1;
      } else {
        var result := ExecuteCommand(b.run(i, command));
        assert result == b.ResultAt(i) == rs[i];
        trace := trace + [Execute(command, result)];
        assert rs[..i + 1] == rs[..i] + [result];
        if result.exitCode == 0 {
          successful := successful + 1;
        } else {
          failed := failed + 1;
        }
      }
      if i + 1 < |b.ids| {
        if b.delayMs < 0 {
          return Aborted(NegativeSleepLength), trace;
        }
        trace := trace + [Sleep(b.delayMs)];
      }
      assert trace == before + b.Step(i);
    }
    assert rs[..|b.ids|] == rs;
    outcome := Finished(successful, failed);
  }

  // ---------------------------------------------------------------------
  // The executor

  class BatchExecutor {
    var commandFile: string
    var csvFile: string
    var delayMs: int

    constructor (commandFile: string, csvFile: string, delayMs: int := 1000)
      ensures this.commandFile == commandFile && this.csvFile == csvFile
      ensures this.delayMs == delayMs
    {
      this.commandFile := commandFile;
      this.csvFile := csvFile;
      this.delayMs := delayMs;
    }

    /**
     * `read_command_template`: the command file's text without surrounding
     * whitespace, or the read error, propagated unchanged.
     */
    function ReadCommandTemplate(io: Io): (r: Result<string>)
      reads this
      ensures r.Success? <==> io.readText(commandFile).Success?
      ensures r.Failure? ==> r.error == io.readText(commandFile).error
      ensures r.Success? ==>
        IsStripped(r.value) && r.value == Strip(io.readText(commandFile).value)
    {
      match io.readText(commandFile)
      case Success(text) => Success(Strip(text))
      case Failure(e) => Failure(e)
    }

    /**
     * `read_ids_from_csv`: the IDs of the CSV file's rows, or the read error,
     * propagated unchanged. Every ID is non-empty and stripped.
     */
    method ReadIdsFromCsv(io: Io) returns (r: Result<seq<string>>)
      ensures io.readCsv(csvFile).Failure? ==> r == Failure(io.readCsv(csvFile).error)
      ensures io.readCsv(csvFile).Success? ==> r == Success(IdsOf(io.readCsv(csvFile).value))
      ensures r.Success? ==> forall k :: 0 <= k < |r.value| ==>
        r.value[k] != [] && IsStripped(r.value[k])
    {
      var read := io.readCsv(csvFile);
      if read.Failure? {
        return Failure(read.error);
      }
      var rows := read.value;
      var ids: seq<string> := [];
      for rowNum := 0 to |rows|
        invariant ids == IdsOf(rows[..rowNum])
      {
        var row := rows[rowNum];
        if HasId(row) {
          ids := ids + [Strip(row[0])];
        }
        assert rows[..rowNum + 1][..rowNum] == rows[..rowNum];
      }
      assert rows[..|rows|] == rows;
      IdsOfStripped(rows);
      return Success(ids);
    }

    /** The run `RunBatchExecution` performs once both reads succeed. */
    function Loaded(io: Io, dryRun: bool): Batch
      reads this
      requires io.readText(commandFile).Success? && io.readCsv(csvFile).Success?
    {
      Batch(Strip(io.readText(commandFile).value), IdsOf(io.readCsv(csvFile).value),
            dryRun, delayMs, io.run)
    }

    /**
     * `run_batch_execution`: read the template, then the IDs; stop if either
     * read fails or there is no ID; otherwise process the IDs in order,
     * executing each command unless `dryRun`, counting it by its exit code,
     * and pausing `delayMs` between consecutive items.
     */
    method RunBatchExecution(io: Io, dryRun: bool := false)
      returns (outcome: BatchOutcome, trace: seq<Event>)
      // the template is read first; a read error escapes before anything runs
      ensures io.readText(commandFile).Failure? ==>
        outcome == Aborted(ReadError(io.readText(commandFile).error)) && trace == []
      ensures io.readText(commandFile).Success? && io.readCsv(csvFile).Failure? ==>
        outcome == Aborted(ReadError(io.readCsv(csvFile).error)) && trace == []
      // no ID: nothing runs and nothing pauses
      ensures io.readText(commandFile).Success? && io.readCsv(csvFile).Success? ==>
        var b := Loaded(io, dryRun);
        (outcome == NoIds <==> b.ids == []) && (b.ids == [] ==> trace == [])
      // a complete run
      ensures io.readText(commandFile).Success? && io.readCsv(csvFile).Success? ==>
        var b := Loaded(io, dryRun);
        b.ids != [] && (delayMs >= 0 || |b.ids| == 1) ==>
          && trace == b.Events(|b.ids|)
          && outcome.Finished?
          && outcome.successful + outcome.failed == |b.ids|
          && outcome.successful == (if dryRun then |b.ids| else Successes(b.Results()))
          && outcome.failed == (if dryRun then 0 else Failures(b.Results()))
          && Executed(trace) == (if dryRun then [] else b.Commands())
          && Sleeps(trace) == seq(|b.ids| - 1, _ => b.delayMs)
      // a negative delay makes the first pause raise, after the first item
      ensures io.readText(commandFile).Success? && io.readCsv(csvFile).Success? ==>
        var b := Loaded(io, dryRun);
        delayMs < 0 && |b.ids| > 1 ==>
          outcome == Aborted(NegativeSleepLength) && trace + [Sleep(delayMs)] == b.Events(1)
    {
      var templateRead := ReadCommandTemplate(io);
      if templateRead.Failure? {
        return Aborted(ReadError(templateRead.error)), [];
      }
      var idsRead := ReadIdsFromCsv(io);
      if idsRead.Failure? {
        return Aborted(ReadError(idsRead.error)), [];
      }
      if |idsRead.value| == 0 {
        return NoIds, [];
      }
      var b := Batch(templateRead.value, idsRead.value, dryRun, delayMs, io.run);
      assert b == Loaded(io, dryRun);
      outcome, trace := ProcessIds(b);
      if delayMs >= 0 || |b.ids| == 1 {
        CompleteRun(b);
      }
    }
  }
}
