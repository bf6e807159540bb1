/** The records the TTL job manager works with: the cached row of
    `mysql.tidb_ttl_table_status` for a table, a running job, and the scan
    tasks a job is split into. Times and durations are integer nanoseconds. */
module TtlTypes {
  import opened Common

  const Millisecond: int := 1_000_000
  const Second: int := 1000 * Millisecond
  const Minute: int := 60 * Second

  /** The status of a TTL job, as stored in the status and history tables. */
  datatype JobStatus =
    | JobStatusWaiting
    | JobStatusRunning
    | JobStatusCancelling
    | JobStatusCancelled
    | JobStatusTimeout
    | JobStatusFinished

  /** The fields of a cached table status the manager reads. An empty string
      stands for a column that is not set. */
  datatype TableStatus = TableStatus(
    tableID: int,
    currentJobID: string,
    currentJobOwnerID: string,
    currentJobOwnerHBTime: int,
    lastJobStartTime: int)

  /** A job in the running-job list of a node. */
  datatype Job = Job(id: string, tableID: int, ownerID: string, createTime: int, status: JobStatus)

  /** The status of a scan task. */
  datatype TaskStatus = TaskStatusWaiting | TaskStatusRunning | TaskStatusFinished

  /** The progress a scan task has recorded, once it has run. */
  datatype TaskState = TaskState(totalRows: u64, successRows: u64, errorRows: u64, scanTaskErr: string)

  datatype Task = Task(status: TaskStatus, state: Option<TaskState>)
}
