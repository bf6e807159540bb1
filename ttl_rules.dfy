/** The decision rules of the TTL job manager: whether a table may get a new
    job or have its job taken over, when the timers are synchronised, why
    running jobs are cancelled, the outcome of a heartbeat, whether a job
    history row counts as finished, and whether a new job may be submitted. */
module TtlRules {
  import opened Common
  import opened TtlTypes

  // ---------------------------------------------------------------------------
  // Lock eligibility.

  /** `couldLockJobForCreate`. `status` is the cached status (`None` for a
      table without one), `jobInterval` the table's schedule interval (`None`
      when it cannot be parsed). */
  function CouldLockJobForCreate(status: Option<TableStatus>, jobInterval: Option<int>, now: int, checkScheduleInterval: bool): (r: bool)
    ensures status.None? ==> r
    ensures status.Some? && status.value.currentJobID != "" ==> !r
    ensures status.Some? && status.value.currentJobID == "" && !checkScheduleInterval ==> r
    ensures status.Some? && status.value.currentJobID == "" && checkScheduleInterval && jobInterval.None? ==> !r
    ensures status.Some? && status.value.currentJobID == "" && checkScheduleInterval && jobInterval.Some? ==>
      (r <==> status.value.lastJobStartTime + jobInterval.value < now)
  {
    if status.None? then true
    else if status.value.currentJobID != "" then false
    else if !checkScheduleInterval then true
    else match jobInterval
      case None => false
      case Some(interval) => status.value.lastJobStartTime + interval < now
  }

  /** The heartbeat timeout: twice the heartbeat interval, or twice the status
      cache interval when that is longer, since the cached heartbeat may be as
      old as one cache refresh. */
  function HeartbeatTimeout(heartbeatInterval: int, cacheInterval: int): (r: int)
    ensures r >= 2 * heartbeatInterval && r >= 2 * cacheInterval
    ensures r == 2 * heartbeatInterval || r == 2 * cacheInterval
  {
    if 2 * cacheInterval > 2 * heartbeatInterval then 2 * cacheInterval else 2 * heartbeatInterval
  }

  /** `couldLockJobForExistJob`: a table's job may be taken over when it has
      one and its owner is unset or has not sent a heartbeat within the
      timeout. */
  function CouldLockJobForExistJob(status: Option<TableStatus>, now: int, heartbeatInterval: int, cacheInterval: int): (r: bool)
    ensures status.None? || status.value.currentJobID == "" ==> !r
    ensures status.Some? && status.value.currentJobID != "" && status.value.currentJobOwnerID == "" ==> r
    ensures status.Some? && status.value.currentJobID != "" && status.value.currentJobOwnerID != "" ==>
      (r <==> status.value.currentJobOwnerHBTime + HeartbeatTimeout(heartbeatInterval, cacheInterval) < now)
  {
    if status.None? || status.value.currentJobID == "" then false
    else if status.value.currentJobOwnerID != "" then
      status.value.currentJobOwnerHBTime + HeartbeatTimeout(heartbeatInterval, cacheInterval) < now
    else true
  }

  /** A table is never both open for a new job and for taking over a job. */
  lemma CreateAndTakeOverExclusive(status: Option<TableStatus>, jobInterval: Option<int>, now: int, check: bool,
                                   heartbeatInterval: int, cacheInterval: int)
    ensures !(CouldLockJobForCreate(status, jobInterval, now, check) && CouldLockJobForExistJob(status, now, heartbeatInterval, cacheInterval))
  {
  }

  /** Both rules only open up as time passes: what may be locked now may be
      locked at any later time. */
  lemma LockRulesMonotone(status: Option<TableStatus>, jobInterval: Option<int>, now: int, later: int, check: bool,
                          heartbeatInterval: int, cacheInterval: int)
    requires now <= later
    ensures CouldLockJobForCreate(status, jobInterval, now, check) ==> CouldLockJobForCreate(status, jobInterval, later, check)
    ensures CouldLockJobForExistJob(status, now, heartbeatInterval, cacheInterval) ==>
      CouldLockJobForExistJob(status, later, heartbeatInterval, cacheInterval)
  {
  }

  /** A job whose owner sent a heartbeat within both twice the heartbeat
      interval and twice the cache interval is never taken over. */
  lemma RecentHeartbeatKeepsJob(status: TableStatus, now: int, heartbeatInterval: int, cacheInterval: int)
    requires status.currentJobOwnerID != ""
    requires now <= status.currentJobOwnerHBTime + 2 * heartbeatInterval || now <= status.currentJobOwnerHBTime + 2 * cacheInterval
    ensures !CouldLockJobForExistJob(Some(status), now, heartbeatInterval, cacheInterval)
  {
  }

  // ---------------------------------------------------------------------------
  // Timer synchronisation in `onTimerTick`.

  /** What a timer tick does: a follower pauses the timer runtime and resets
      the syncer; the leader resumes the runtime and may synchronise. */
  datatype TimerTickAction = PauseAndReset | Resume | ResumeAndSync

  /** The least time between two synchronisations. */
  const MinSyncDuration: int := 5 * Second
  /** The time after which the timers are synchronised whatever the schema
      version. */
  const MaxSyncDelay: int := 2 * Minute

  /** `onTimerTick`'s decision, from the last synchronisation time and schema
      version the syncer recorded and the current schema version. */
  function OnTimerTick(isLeader: bool, lastSyncTime: int, lastSyncVer: int, schemaVer: int, now: int): (r: TimerTickAction)
    ensures isLeader <==> r != PauseAndReset
    ensures r == ResumeAndSync ==> now - lastSyncTime >= MinSyncDuration
    ensures isLeader && schemaVer > lastSyncVer && now - lastSyncTime >= MinSyncDuration ==> r == ResumeAndSync
  {
    if !isLeader then PauseAndReset
    else if now - lastSyncTime < MinSyncDuration then Resume
    else if schemaVer > lastSyncVer || now - lastSyncTime > MaxSyncDelay then ResumeAndSync
    else Resume
  }

  /** The leader synchronises exactly when at least five seconds have passed
      and the schema has changed or two minutes have passed; a follower never
      does. */
  lemma TimerSyncIff(isLeader: bool, lastSyncTime: int, lastSyncVer: int, schemaVer: int, now: int)
    ensures OnTimerTick(isLeader, lastSyncTime, lastSyncVer, schemaVer, now) == ResumeAndSync <==>
      isLeader && now - lastSyncTime >= MinSyncDuration && (schemaVer > lastSyncVer || now - lastSyncTime > MaxSyncDelay)
    ensures OnTimerTick(isLeader, lastSyncTime, lastSyncVer, schemaVer, now) == PauseAndReset <==> !isLeader
  {
  }

  // ---------------------------------------------------------------------------
  // Cancelling running jobs in `rescheduleJobs`.

  /** The reason all running jobs are cancelled, if any: a disabled
      `tidb_ttl_job_enable` is reported before being outside the schedule
      window. */
  function CancelReason(enableTTLJob: bool, withinScheduleWindow: bool): (r: Option<string>)
    ensures r.None? <==> enableTTLJob && withinScheduleWindow
    ensures !enableTTLJob ==> r == Some("tidb_ttl_job_enable turned off")
    ensures enableTTLJob && !withinScheduleWindow ==> r == Some("out of TTL job schedule window")
  {
    if !enableTTLJob then Some("tidb_ttl_job_enable turned off")
    else if !withinScheduleWindow then Some("out of TTL job schedule window")
    else None
  }

  // ---------------------------------------------------------------------------
  // Heartbeat of one job, `updateHeartBeatForJob`.

  /** What one heartbeat does: a job older than the job timeout is finished
      (and then removed, unless finishing failed); otherwise the heartbeat
      statement must update exactly one row. */
  datatype HeartbeatOutcome =
    | TimedOutRemoved
    | TimedOutFinishFailed(finishError: string)
    | HeartbeatStatementFailed(sqlError: string)
    | HeartbeatOwnerLost(affectedRows: int)
    | HeartbeatDone

  /** `updateHeartBeatForJob`, with the results of the statements it runs as
      inputs: the error of finishing a timed-out job, the error of the
      heartbeat update and the number of rows it affected. */
  function UpdateHeartBeatForJob(createTime: int, jobTimeout: int, now: int,
                                 finishError: Option<string>, sqlError: Option<string>, affectedRows: int): (r: HeartbeatOutcome)
    ensures r.TimedOutRemoved? || r.TimedOutFinishFailed? <==> createTime + jobTimeout < now
    ensures r == HeartbeatDone <==> now <= createTime + jobTimeout && sqlError.None? && affectedRows == 1
    ensures r.HeartbeatOwnerLost? ==> r.affectedRows != 1
  {
    if createTime + jobTimeout < now then
      match finishError
      case Some(e) => TimedOutFinishFailed(e)
      case None => TimedOutRemoved
    else if sqlError.Some? then HeartbeatStatementFailed(sqlError.value)
    else if affectedRows != 1 then HeartbeatOwnerLost(affectedRows)
    else HeartbeatDone
  }

  // ---------------------------------------------------------------------------
  // `getJobWithSession`.

  /** A job history row as `getJobWithSession` reads it: its status column,
      `None` when NULL. (The summary column is not modelled.) */
  datatype HistoryRow = HistoryRow(status: Option<JobStatus>)

  datatype JobTrace = JobTrace(requestID: string, finished: bool)

  /** The statuses under which a job is over. */
  predicate IsFinishedStatus(s: JobStatus) {
    s == JobStatusFinished || s == JobStatusTimeout || s == JobStatusCancelled
  }

  /** `getJobWithSession` on the outcome of the history query (its rows, or
      its error): the query's error is returned as it is; otherwise no trace
      without a row, and a trace that is finished exactly when the first
      row's status is finished, timed out or cancelled. */
  function GetJobTrace(requestID: string, queryRows: Result<seq<HistoryRow>, string>): (r: Result<Option<JobTrace>, string>)
    ensures r.Err? <==> queryRows.Err?
    ensures queryRows.Err? ==> r.error == queryRows.error
    ensures queryRows.Ok? ==> (r.value.None? <==> |queryRows.value| == 0)
    ensures r.Ok? && r.value.Some? ==> r.value.value.requestID == requestID
    ensures r.Ok? && r.value.Some? ==>
      var row := queryRows.value[0];
      (r.value.value.finished <==> (row.status.Some? && row.status.value in {JobStatusFinished, JobStatusTimeout, JobStatusCancelled}))
  {
    match queryRows
    case Err(e) => Err(e)
    case Ok(rows) =>
      if |rows| == 0 then Ok(None)
      else Ok(Some(JobTrace(requestID, rows[0].status.Some? && IsFinishedStatus(rows[0].status.value))))
  }

  // ---------------------------------------------------------------------------
  // `canSubmitJobWithSession`.

  /** The table a job is asked for, as the schema describes it. */
  datatype TableInfo = TableInfo(ttlEnabled: bool, partitions: set<int>)

  /** `canSubmitJobWithSession`: a job may be submitted for a TTL-enabled table
      (or one of its partitions) while fewer tasks are waiting or running than
      the limit. `countRows` is the result of the task-count query: its rows,
      or its error. */
  function CanSubmitJobWithSession(table: Option<TableInfo>, tableID: int, physicalID: int,
                                   countRows: Result<seq<int>, string>, tasksLimit: int): (r: Result<bool, string>)
    ensures r.Err? <==> table.Some? && table.value.ttlEnabled && (physicalID == tableID || physicalID in table.value.partitions) && countRows.Err?
    ensures r == Ok(true) <==>
      table.Some? && table.value.ttlEnabled && (physicalID == tableID || physicalID in table.value.partitions) &&
      countRows.Ok? && |countRows.value| > 0 && countRows.value[0] < tasksLimit
  {
    if table.None? then Ok(false)
    else if !table.value.ttlEnabled then Ok(false)
    else if physicalID != tableID && physicalID !in table.value.partitions then Ok(false)
    else match countRows
      case Err(e) => Err(e)
      case Ok(rows) =>
        if |rows| == 0 then Ok(false)
        else if rows[0] >= tasksLimit then Ok(false)
        else Ok(true)
  }

  /** `CanSubmitJob`: an error counts as "no". */
  function CanSubmitJob(table: Option<TableInfo>, tableID: int, physicalID: int,
                        countRows: Result<seq<int>, string>, tasksLimit: int): (r: bool)
    ensures r <==>
      table.Some? && table.value.ttlEnabled && (physicalID == tableID || physicalID in table.value.partitions) &&
      countRows.Ok? && |countRows.value| > 0 && countRows.value[0] < tasksLimit
  {
    match CanSubmitJobWithSession(table, tableID, physicalID, countRows, tasksLimit)
    case Err(_) => false
    case Ok(ok) => ok
  }

  /** Submitting is monotone in the limit: a job that may be submitted under
      one limit may be submitted under any larger limit. */
  lemma CanSubmitMonotone(table: Option<TableInfo>, tableID: int, physicalID: int,
                          countRows: Result<seq<int>, string>, limit: int, larger: int)
    requires limit <= larger
    ensures CanSubmitJob(table, tableID, physicalID, countRows, limit) ==> CanSubmitJob(table, tableID, physicalID, countRows, larger)
  {
  }
}
