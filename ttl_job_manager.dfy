/** The state a TTL job manager keeps in memory and the operations that change
    it: its running-job list, the cached table statuses and the tables of the
    cached information schema. */
module TtlJobManager {
  import opened Common
  import opened TtlTypes
  import opened TtlRules
  import opened TtlJobList

  /** No running job is for the table. */
  predicate NoRunningJobFor(jobs: seq<Job>, tableID: int) {
    forall k :: 0 <= k < |jobs| ==> jobs[k].tableID != tableID
  }

  /** A cached status whose job this node may take over: no running job of the
      node is for the table, and the job's heartbeat has timed out. */
  predicate ReadyForTakeOver(jobs: seq<Job>, status: TableStatus, now: int, heartbeatInterval: int, cacheInterval: int) {
    NoRunningJobFor(jobs, status.tableID) && CouldLockJobForExistJob(Some(status), now, heartbeatInterval, cacheInterval)
  }

  /** The statuses ready for take-over, in the order the table ids of `walk`
      are visited: at most one per visited id. */
  function ReadyInWalk(jobs: seq<Job>, cache: map<int, TableStatus>, walk: seq<int>, now: int, heartbeatInterval: int, cacheInterval: int): (r: seq<TableStatus>)
    requires forall j :: 0 <= j < |walk| ==> walk[j] in cache
    ensures |r| <= |walk|
    ensures forall t :: t in r ==> ReadyForTakeOver(jobs, t, now, heartbeatInterval, cacheInterval)
    decreases |walk|
  {
    if |walk| == 0 then []
    else
      var earlier := ReadyInWalk(jobs, cache, walk[..|walk| - 1], now, heartbeatInterval, cacheInterval);
      var status := cache[walk[|walk| - 1]];
      if ReadyForTakeOver(jobs, status, now, heartbeatInterval, cacheInterval) then earlier + [status] else earlier
  }

  class JobManager {
    /** The id of this node, the owner id it writes into the status table. */
    const id: string
    var runningJobs: seq<Job>
    var tableStatusCache: map<int, TableStatus>
    /** The physical table ids of the cached information schema. */
    var infoSchemaTables: set<int>

    constructor(id: string)
      ensures this.id == id && runningJobs == [] && tableStatusCache == map[] && infoSchemaTables == {}
    {
      this.id := id;
      runningJobs := [];
      tableStatusCache := map[];
      infoSchemaTables := {};
    }

    /** `appendJob`. */
    method AppendJob(job: Job)
      modifies this
      ensures runningJobs == old(runningJobs) + [job]
      ensures tableStatusCache == old(tableStatusCache) && infoSchemaTables == old(infoSchemaTables)
    {
      runningJobs := runningJobs + [job];
    }

    /** `removeJob`: removes the first running job with the id of
        `finishedJob`, keeping the others in order. */
    method RemoveJob(finishedJob: Job)
      modifies this
      ensures runningJobs == RemoveFirst(old(runningJobs), finishedJob.id)
      ensures tableStatusCache == old(tableStatusCache) && infoSchemaTables == old(infoSchemaTables)
    {
      var idx := 0;
      while idx < |runningJobs| && runningJobs[idx].id != finishedJob.id
        invariant 0 <= idx <= |runningJobs|
        invariant forall j :: 0 <= j < idx ==> runningJobs[j].id != finishedJob.id
      {
        idx := idx + 1;
      }
      if idx < |runningJobs| {
        RemoveFirstAt(runningJobs, finishedJob.id, idx);
        runningJobs := runningJobs[..idx] + runningJobs[idx + 1..];
      } else {
        RemoveFirstAbsent(runningJobs, finishedJob.id);
      }
    }

    /** The reverse walk shared by `checkNotOwnJob` and `rescheduleJobs`:
        every job the rule marks is removed by id. */
    method SweepJobs(rule: SweepRule)
      modifies this
      ensures runningJobs == Sweep(rule, old(runningJobs), |old(runningJobs)| - 1)
      ensures forall job :: job in runningJobs ==> !Marks(rule, job)
      ensures DistinctIds(old(runningJobs)) ==> runningJobs == Kept(rule, old(runningJobs))
      ensures tableStatusCache == old(tableStatusCache) && infoSchemaTables == old(infoSchemaTables)
    {
      ghost var target := Sweep(rule, runningJobs, |runningJobs| - 1);
      var i := |runningJobs| - 1;
      while i >= 0
        invariant -1 <= i < |runningJobs|
        invariant Sweep(rule, runningJobs, i) == target
        invariant tableStatusCache == old(tableStatusCache) && infoSchemaTables == old(infoSchemaTables)
        decreases i + 1
      {
        var job := runningJobs[i];
        if Marks(rule, job) {
          RemoveJob(job);
        }
        i := i - 1;
      }
      SweepLeavesNoMarked(rule, old(runningJobs), |old(runningJobs)| - 1);
      if DistinctIds(old(runningJobs)) {
        SweepKeepsUnmarked(rule, old(runningJobs));
      }
    }

    /** `checkNotOwnJob`: drops the running jobs whose table status is missing
        or names another owner. Every remaining job is owned by this node;
        with distinct job ids exactly the jobs it owns remain. */
    method CheckNotOwnJob()
      modifies this
      ensures runningJobs == Sweep(NotOwned(old(tableStatusCache), id), old(runningJobs), |old(runningJobs)| - 1)
      ensures forall job :: job in runningJobs ==> Owned(tableStatusCache, id, job)
      ensures DistinctIds(old(runningJobs)) ==>
        forall job :: job in runningJobs <==> job in old(runningJobs) && Owned(tableStatusCache, id, job)
      ensures tableStatusCache == old(tableStatusCache) && infoSchemaTables == old(infoSchemaTables)
    {
      SweepJobs(NotOwned(tableStatusCache, id));
      if DistinctIds(old(runningJobs)) {
        forall job {
          KeptMembers(NotOwned(tableStatusCache, id), old(runningJobs), job);
        }
      }
    }

    /** The removal part of `rescheduleJobs`: when jobs are cancelled (TTL
        jobs disabled, or outside the schedule window) every job that could
        be finished is removed; otherwise the jobs whose table left the
        information schema and that could be finished. `finishes` is the
        outcome of `job.finish`. */
    method RescheduleRunningJobs(enableTTLJob: bool, withinScheduleWindow: bool, finishes: Job -> bool)
      modifies this
      ensures CancelReason(enableTTLJob, withinScheduleWindow).Some? ==>
        runningJobs == Sweep(Cancelled(finishes), old(runningJobs), |old(runningJobs)| - 1)
      ensures CancelReason(enableTTLJob, withinScheduleWindow).None? ==>
        runningJobs == Sweep(Dropped(infoSchemaTables, finishes), old(runningJobs), |old(runningJobs)| - 1)
      ensures tableStatusCache == old(tableStatusCache) && infoSchemaTables == old(infoSchemaTables)
    {
      var reason := CancelReason(enableTTLJob, withinScheduleWindow);
      if reason.Some? {
        if |runningJobs| > 0 {
          SweepJobs(Cancelled(finishes));
        }
      } else {
        SweepJobs(Dropped(infoSchemaTables, finishes));
      }
    }

    /** `localJobs`: the running jobs this node owns according to the cached
        statuses, in order. */
    method LocalJobs() returns (jobs: seq<Job>)
      ensures jobs == Kept(NotOwned(tableStatusCache, id), runningJobs)
    {
      var rule := NotOwned(tableStatusCache, id);
      jobs := [];
      var i := 0;
      while i < |runningJobs|
        invariant 0 <= i <= |runningJobs|
        invariant jobs == Kept(rule, runningJobs[..i])
      {
        var job := runningJobs[i];
        KeptPrefixStep(rule, runningJobs, i);
        if !(job.tableID in tableStatusCache) || tableStatusCache[job.tableID].currentJobOwnerID != id {
          i := i + 1;
          continue;
        }
        jobs := jobs + [job];
        i := i + 1;
      }
      assert runningJobs[..i] == runningJobs;
    }

    /** The inner loop of `readyForLockHBTimeoutJobTables`: does a running job
        belong to the table? */
    method HasRunningJobFor(tableID: int) returns (found: bool)
      ensures found <==> !NoRunningJobFor(runningJobs, tableID)
    {
      found := false;
      var k := 0;
      while k < |runningJobs|
        invariant 0 <= k <= |runningJobs|
        invariant !found && NoRunningJobFor(runningJobs[..k], tableID)
      {
        if runningJobs[k].tableID == tableID {
          assert !NoRunningJobFor(runningJobs, tableID);
          return true;
        }
        assert runningJobs[..k + 1] == runningJobs[..k] + [runningJobs[k]];
        k := k + 1;
      }
      assert runningJobs[..k] == runningJobs;
    }

    /** `readyForLockHBTimeoutJobTables`: the cached statuses whose job this
        node may take over, in the order the cache is walked. Go leaves the
        order in which a map is walked unspecified, so `walkOrder` lists the
        cached table ids in the order of one walk. */
    method ReadyForLockHBTimeoutJobTables(walkOrder: seq<int>, now: int, heartbeatInterval: int, cacheInterval: int)
      returns (tables: seq<TableStatus>)
      requires forall j :: 0 <= j < |walkOrder| ==> walkOrder[j] in tableStatusCache
      requires forall k :: k in tableStatusCache ==> k in walkOrder
      requires forall i, j :: 0 <= i < j < |walkOrder| ==> walkOrder[i] != walkOrder[j]
      ensures tables == ReadyInWalk(runningJobs, tableStatusCache, walkOrder, now, heartbeatInterval, cacheInterval)
      ensures forall t :: t in tables ==> t in tableStatusCache.Values && ReadyForTakeOver(runningJobs, t, now, heartbeatInterval, cacheInterval)
      ensures forall k :: k in tableStatusCache && ReadyForTakeOver(runningJobs, tableStatusCache[k], now, heartbeatInterval, cacheInterval) ==>
        tableStatusCache[k] in tables
    {
      tables := [];
      var i := 0;
      while i < |walkOrder|
        invariant 0 <= i <= |walkOrder|
        invariant forall t :: t in tables ==> t in tableStatusCache.Values && ReadyForTakeOver(runningJobs, t, now, heartbeatInterval, cacheInterval)
        invariant forall j :: 0 <= j < i && ReadyForTakeOver(runningJobs, tableStatusCache[walkOrder[j]], now, heartbeatInterval, cacheInterval) ==>
          tableStatusCache[walkOrder[j]] in tables
        invariant tables == ReadyInWalk(runningJobs, tableStatusCache, walkOrder[..i], now, heartbeatInterval, cacheInterval)
      {
        assert walkOrder[..i + 1][..i] == walkOrder[..i];
        var status := tableStatusCache[walkOrder[i]];
        var busy := HasRunningJobFor(status.tableID);
        if !busy && CouldLockJobForExistJob(Some(status), now, heartbeatInterval, cacheInterval) {
          tables := tables + [status];
        }
        i := i + 1;
      }
      assert walkOrder[..i] == walkOrder;
      forall k | k in tableStatusCache && ReadyForTakeOver(runningJobs, tableStatusCache[k], now, heartbeatInterval, cacheInterval)
        ensures tableStatusCache[k] in tables
      {
        var j :| 0 <= j < |walkOrder| && walkOrder[j] == k;
      }
    }
  }
}
