/** The summary of a TTL job built from its scan tasks
    (`summarizeTaskResultWithError`): row counters summed as unsigned 64-bit
    integers, task counters, and the combined error text. */
module TtlSummary {
  import opened Common
  import opened TtlTypes
  import opened TtlStrings

  datatype TTLSummary = TTLSummary(
    totalRows: u64,
    successRows: u64,
    errorRows: u64,
    totalScanTask: int,
    scheduledScanTask: int,
    finishedScanTask: int,
    scanTaskErr: string)

  /** The three row counters a task state records. */
  datatype RowCounter = TotalRows | SuccessRows | ErrorRows

  function Rows(t: Task, c: RowCounter): u64 {
    match t.state
    case None => 0
    case Some(st) => match c
      case TotalRows => st.totalRows
      case SuccessRows => st.successRows
      case ErrorRows => st.errorRows
  }

  /** The counter as the summary accumulates it, wrapping around at 2^64. */
  function WrappedRows(tasks: seq<Task>, c: RowCounter): u64 {
    if |tasks| == 0 then 0 else AddU64(WrappedRows(tasks[..|tasks| - 1], c), Rows(tasks[|tasks| - 1], c))
  }

  /** The exact sum of the counter over the tasks that have a state. */
  function ExactRows(tasks: seq<Task>, c: RowCounter): nat {
    if |tasks| == 0 then 0 else ExactRows(tasks[..|tasks| - 1], c) + Rows(tasks[|tasks| - 1], c)
  }

  function CountScheduled(tasks: seq<Task>): nat {
    if |tasks| == 0 then 0
    else CountScheduled(tasks[..|tasks| - 1]) + (if tasks[|tasks| - 1].status != TaskStatusWaiting then 1 else 0)
  }

  function CountFinished(tasks: seq<Task>): nat {
    if |tasks| == 0 then 0
    else CountFinished(tasks[..|tasks| - 1]) + (if tasks[|tasks| - 1].status == TaskStatusFinished then 1 else 0)
  }

  /** Does the task report a scan error? */
  predicate HasScanError(t: Task) {
    t.state.Some? && |t.state.value.scanTaskErr| > 0
  }

  /** The scan errors of the tasks, in order. */
  function TaskErrors(tasks: seq<Task>): seq<string> {
    if |tasks| == 0 then []
    else TaskErrors(tasks[..|tasks| - 1]) + (if HasScanError(tasks[|tasks| - 1]) then [tasks[|tasks| - 1].state.value.scanTaskErr] else [])
  }

  /** The text of the combined error: the messages of the given error and of
      every task's scan error, separated by "; ", or empty when there is no
      error at all. */
  function ErrorText(messages: seq<string>): (r: string)
    ensures |messages| == 0 ==> r == ""
    ensures |messages| == 1 ==> r == messages[0]
    ensures |messages| >= 2 ==> messages[0] + "; " <= r
  {
    if |messages| == 0 then "" else Join(messages, "; ")
  }

  /** The summary of the tasks, with `err` the error the caller passes in. */
  function Summarize(tasks: seq<Task>, err: Option<string>): (r: TTLSummary)
    ensures |TaskErrors(tasks)| == 0 ==> r.scanTaskErr == (if err.Some? then err.value else "")
  {
    var messages := (if err.Some? then [err.value] else []) + TaskErrors(tasks);
    TTLSummary(
      WrappedRows(tasks, TotalRows), WrappedRows(tasks, SuccessRows), WrappedRows(tasks, ErrorRows),
      |tasks|, CountScheduled(tasks), CountFinished(tasks), ErrorText(messages))
  }

  /** The counters the loop of `summarizeTaskResultWithError` carries. */
  datatype Counters = Counters(
    totalRows: u64, successRows: u64, errorRows: u64,
    total: int, scheduled: int, finished: int, allErr: seq<string>)

  /** One step of that loop. */
  function Step(acc: Counters, t: Task): Counters {
    var withState :=
      if t.state.None? then acc
      else acc.(totalRows := AddU64(acc.totalRows, t.state.value.totalRows),
                successRows := AddU64(acc.successRows, t.state.value.successRows),
                errorRows := AddU64(acc.errorRows, t.state.value.errorRows),
                allErr := if |t.state.value.scanTaskErr| > 0 then acc.allErr + [t.state.value.scanTaskErr] else acc.allErr);
    withState.(total := withState.total + 1,
               scheduled := if t.status != TaskStatusWaiting then withState.scheduled + 1 else withState.scheduled,
               finished := if t.status == TaskStatusFinished then withState.finished + 1 else withState.finished)
  }

  function Fold(tasks: seq<Task>, init: Counters): Counters {
    if |tasks| == 0 then init else Step(Fold(tasks[..|tasks| - 1], init), tasks[|tasks| - 1])
  }

  function InitialCounters(err: Option<string>): Counters {
    Counters(0, 0, 0, 0, 0, 0, if err.Some? then [err.value] else [])
  }

  /** The loop computes the counters `Summarize` describes. */
  lemma {:induction false} FoldCounts(tasks: seq<Task>, err: Option<string>)
    ensures Fold(tasks, InitialCounters(err)) ==
      Counters(WrappedRows(tasks, TotalRows), WrappedRows(tasks, SuccessRows), WrappedRows(tasks, ErrorRows),
               |tasks|, CountScheduled(tasks), CountFinished(tasks),
               (if err.Some? then [err.value] else []) + TaskErrors(tasks))
  {
    if |tasks| > 0 {
      var init := tasks[..|tasks| - 1];
      FoldCounts(init, err);
      var t := tasks[|tasks| - 1];
      if t.state.None? {
        assert AddU64(WrappedRows(init, TotalRows), 0) == WrappedRows(init, TotalRows);
        assert AddU64(WrappedRows(init, SuccessRows), 0) == WrappedRows(init, SuccessRows);
        assert AddU64(WrappedRows(init, ErrorRows), 0) == WrappedRows(init, ErrorRows);
      }
    }
  }

  /** `summarizeTaskResultWithError`, without the JSON text. */
  method SummarizeTaskResultWithError(tasks: seq<Task>, err: Option<string>) returns (summary: TTLSummary)
    ensures summary == Summarize(tasks, err)
  {
    var totalRows: u64, successRows: u64, errorRows: u64 := 0, 0, 0;
    var total, scheduled, finished := 0, 0, 0;
    var allErr := if err.Some? then [err.value] else [];
    var i := 0;
    while i < |tasks|
      invariant 0 <= i <= |tasks|
      invariant Counters(totalRows, successRows, errorRows, total, scheduled, finished, allErr) ==
        Fold(tasks[..i], InitialCounters(err))
    {
      var t := tasks[i];
      assert tasks[..i + 1][..i] == tasks[..i];
      if t.state.Some? {
        totalRows := AddU64(totalRows, t.state.value.totalRows);
        successRows := AddU64(successRows, t.state.value.successRows);
        errorRows := AddU64(errorRows, t.state.value.errorRows);
        if |t.state.value.scanTaskErr| > 0 {
          allErr := allErr + [t.state.value.scanTaskErr];
        }
      }
      total := total + 1;
      if t.status != TaskStatusWaiting {
        scheduled := scheduled + 1;
      }
      if t.status == TaskStatusFinished {
        finished := finished + 1;
      }
      i := i + 1;
    }
    assert tasks[..i] == tasks;
    FoldCounts(tasks, err);
    var scanTaskErr := "";
    if |allErr| > 0 {
      scanTaskErr := Join(allErr, "; ");
    }
    summary := TTLSummary(totalRows, successRows, errorRows, total, scheduled, finished, scanTaskErr);
  }

  /** Finished tasks are scheduled, and scheduled tasks are tasks. */
  lemma {:induction false} TaskCountsOrdered(tasks: seq<Task>)
    ensures CountFinished(tasks) <= CountScheduled(tasks) <= |tasks|
  {
    if |tasks| > 0 {
      TaskCountsOrdered(tasks[..|tasks| - 1]);
    }
  }

  /** The summary counts every task once and its counters are ordered. */
  lemma SummaryCounts(tasks: seq<Task>, err: Option<string>)
    ensures var s := Summarize(tasks, err);
            s.totalScanTask == |tasks| && s.finishedScanTask <= s.scheduledScanTask <= s.totalScanTask
  {
    TaskCountsOrdered(tasks);
  }

  /** Each row counter is the exact sum over the tasks with a state, reduced
      modulo 2^64; without overflow it is the exact sum. */
  lemma {:induction false} WrappedRowsIsExactModulo(tasks: seq<Task>, c: RowCounter)
    ensures WrappedRows(tasks, c) == ExactRows(tasks, c) % TwoTo64
  {
    if |tasks| > 0 {
      var init := tasks[..|tasks| - 1];
      WrappedRowsIsExactModulo(init, c);
      ModAddStep(ExactRows(init, c), WrappedRows(init, c), Rows(tasks[|tasks| - 1], c));
    }
  }

  lemma ModAddStep(exact: nat, wrapped: u64, x: u64)
    requires wrapped == exact % TwoTo64
    ensures AddU64(wrapped, x) == (exact + x) % TwoTo64
  {
    var q := exact / TwoTo64;
    assert exact == q * TwoTo64 + wrapped;
    assert exact + x == q * TwoTo64 + (wrapped + x);
    if wrapped + x >= TwoTo64 {
      assert exact + x == (q + 1) * TwoTo64 + (wrapped + x - TwoTo64);
    }
  }

  lemma SummaryRowsExact(tasks: seq<Task>, err: Option<string>)
    ensures var s := Summarize(tasks, err);
            s.totalRows == ExactRows(tasks, TotalRows) % TwoTo64 &&
            s.successRows == ExactRows(tasks, SuccessRows) % TwoTo64 &&
            s.errorRows == ExactRows(tasks, ErrorRows) % TwoTo64
  {
    WrappedRowsIsExactModulo(tasks, TotalRows);
    WrappedRowsIsExactModulo(tasks, SuccessRows);
    WrappedRowsIsExactModulo(tasks, ErrorRows);
  }

  /** The task errors are exactly the non-empty scan errors. */
  lemma {:induction false} TaskErrorsExist(tasks: seq<Task>)
    ensures |TaskErrors(tasks)| > 0 <==> exists k :: 0 <= k < |tasks| && HasScanError(tasks[k])
    ensures forall i :: 0 <= i < |TaskErrors(tasks)| ==> TaskErrors(tasks)[i] != ""
  {
    if |tasks| > 0 {
      var init := tasks[..|tasks| - 1];
      TaskErrorsExist(init);
      if exists k :: 0 <= k < |init| && HasScanError(init[k]) {
        var k :| 0 <= k < |init| && HasScanError(init[k]);
        assert tasks[k] == init[k];
      }
      if exists k :: 0 <= k < |tasks| && HasScanError(tasks[k]) {
        var k :| 0 <= k < |tasks| && HasScanError(tasks[k]);
        if k < |init| {
          assert init[k] == tasks[k];
        }
      }
    }
  }

  /** Joining with a non-empty separator gives the empty string only for no
      part or a single empty part. */
  lemma JoinEmpty(parts: seq<string>, sep: string)
    requires |sep| > 0
    ensures Join(parts, sep) == "" <==> |parts| == 0 || (|parts| == 1 && parts[0] == "")
  {
    if |parts| > 1 {
      assert |Join(parts, sep)| >= |sep|;
    }
  }

  /** The summary carries an error text exactly when the error passed in has a
      message or some task reports a scan error. */
  lemma SummaryErrorIff(tasks: seq<Task>, err: Option<string>)
    ensures Summarize(tasks, err).scanTaskErr != "" <==>
      (err.Some? && err.value != "") || exists k :: 0 <= k < |tasks| && HasScanError(tasks[k])
  {
    var messages := (if err.Some? then [err.value] else []) + TaskErrors(tasks);
    TaskErrorsExist(tasks);
    JoinEmpty(messages, "; ");
    if |TaskErrors(tasks)| > 0 {
      assert messages[|messages| - 1] == TaskErrors(tasks)[|TaskErrors(tasks)| - 1];
    }
  }
}
