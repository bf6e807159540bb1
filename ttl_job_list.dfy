/** The running-job list of a TTL job manager, as values: removing a job by
    its id, the jobs a node owns, and the reverse sweep that removes the jobs a
    rule marks while walking the list from its end. */
module TtlJobList {
  import opened Common
  import opened TtlTypes

  /** Removes the first job with the given id; the list is unchanged when no
      job has it (`removeJob`). */
  function RemoveFirst(jobs: seq<Job>, id: string): (r: seq<Job>)
    ensures |r| == |jobs| || |r| == |jobs| - 1
    ensures forall j :: j in r ==> j in jobs
  {
    if |jobs| == 0 then []
    else if jobs[0].id == id then jobs[1..]
    else [jobs[0]] + RemoveFirst(jobs[1..], id)
  }

  /** No job has the id: removal changes nothing. */
  lemma {:induction false} RemoveFirstAbsent(jobs: seq<Job>, id: string)
    requires forall k :: 0 <= k < |jobs| ==> jobs[k].id != id
    ensures RemoveFirst(jobs, id) == jobs
  {
    if |jobs| > 0 {
      RemoveFirstAbsent(jobs[1..], id);
    }
  }

  /** The job at `k` is the first with the id: removal drops exactly it and
      keeps the others in order. */
  lemma {:induction false} RemoveFirstAt(jobs: seq<Job>, id: string, k: int)
    requires 0 <= k < |jobs| && jobs[k].id == id
    requires forall j :: 0 <= j < k ==> jobs[j].id != id
    ensures RemoveFirst(jobs, id) == jobs[..k] + jobs[k + 1..]
  {
    if k > 0 {
      RemoveFirstAt(jobs[1..], id, k - 1);
      assert jobs[1..][..k - 1] == jobs[1..k];
      assert jobs[1..][k..] == jobs[k + 1..];
      assert jobs[..k] == [jobs[0]] + jobs[1..k];
    }
  }

  /** Removing a job that was just appended, when no other job has its id,
      restores the list (`removeJob` undoes `appendJob`). */
  lemma RemoveAfterAppend(jobs: seq<Job>, job: Job)
    requires forall k :: 0 <= k < |jobs| ==> jobs[k].id != job.id
    ensures RemoveFirst(jobs + [job], job.id) == jobs
  {
    var all := jobs + [job];
    assert forall j :: 0 <= j < |jobs| ==> all[j].id != job.id;
    RemoveFirstAt(all, job.id, |jobs|);
    assert all[..|jobs|] == jobs;
  }

  /** Job ids are unique in the list. */
  predicate DistinctIds(jobs: seq<Job>) {
    forall i, j :: 0 <= i < j < |jobs| ==> jobs[i].id != jobs[j].id
  }

  /** A rule that marks jobs for removal. `NotOwned` marks the jobs whose
      table status is missing or names another owner (`checkNotOwnJob`);
      `Dropped` those whose table is gone from the schema and that could be
      finished; `Cancelled` every job that could be finished. `finishes`
      stands for the outcome of finishing a job, which runs SQL. */
  datatype SweepRule =
    | NotOwned(cache: map<int, TableStatus>, managerID: string)
    | Dropped(tables: set<int>, finishes: Job -> bool)
    | Cancelled(finishes: Job -> bool)

  /** Is the job owned by the manager, according to the cached statuses? */
  predicate Owned(cache: map<int, TableStatus>, managerID: string, job: Job) {
    job.tableID in cache && cache[job.tableID].currentJobOwnerID == managerID
  }

  predicate Marks(rule: SweepRule, job: Job) {
    match rule
    case NotOwned(cache, managerID) => !Owned(cache, managerID, job)
    case Dropped(tables, finishes) => job.tableID !in tables && finishes(job)
    case Cancelled(finishes) => finishes(job)
  }

  /** The jobs a rule keeps, in order. */
  function Kept(rule: SweepRule, jobs: seq<Job>): (r: seq<Job>)
    ensures |r| <= |jobs|
  {
    if |jobs| == 0 then []
    else Kept(rule, jobs[..|jobs| - 1]) + (if Marks(rule, jobs[|jobs| - 1]) then [] else [jobs[|jobs| - 1]])
  }

  /** `Kept` is a filter: it distributes over concatenation. */
  lemma {:induction false} KeptConcat(rule: SweepRule, a: seq<Job>, b: seq<Job>)
    ensures Kept(rule, a + b) == Kept(rule, a) + Kept(rule, b)
  {
    if |b| > 0 {
      var b' := b[..|b| - 1];
      assert (a + b)[..|a + b| - 1] == a + b';
      KeptConcat(rule, a, b');
    } else {
      assert a + b == a;
    }
  }

  /** Every kept job is in the list and not marked; every unmarked job of the
      list is kept. */
  lemma {:induction false} KeptMembers(rule: SweepRule, jobs: seq<Job>, job: Job)
    ensures job in Kept(rule, jobs) <==> job in jobs && !Marks(rule, job)
  {
    if |jobs| > 0 {
      var init := jobs[..|jobs| - 1];
      KeptMembers(rule, init, job);
      assert jobs == init + [jobs[|jobs| - 1]];
    }
  }

  /** The walk of `checkNotOwnJob` and `rescheduleJobs`: from index `i` down
      to 0, a marked job is removed by id before moving on to `i - 1`. */
  function Sweep(rule: SweepRule, jobs: seq<Job>, i: int): (r: seq<Job>)
    requires -1 <= i < |jobs|
    ensures |r| <= |jobs|
    ensures forall j :: j in r ==> j in jobs
    decreases i + 1
  {
    if i < 0 then jobs
    else if Marks(rule, jobs[i]) then Sweep(rule, RemoveFirst(jobs, jobs[i].id), i - 1)
    else Sweep(rule, jobs, i - 1)
  }

  /** Removing one job keeps ids distinct. */
  lemma DistinctRemove(jobs: seq<Job>, i: int)
    requires DistinctIds(jobs) && 0 <= i < |jobs|
    ensures DistinctIds(jobs[..i] + jobs[i + 1..])
  {
    var r := jobs[..i] + jobs[i + 1..];
    forall a, b | 0 <= a < b < |r|
      ensures r[a].id != r[b].id
    {
      var a' := if a < i then a else a + 1;
      var b' := if b < i then b else b + 1;
      assert r[a] == jobs[a'] && r[b] == jobs[b'];
    }
  }

  /** `Kept` on a prefix one job longer. */
  lemma KeptPrefixStep(rule: SweepRule, jobs: seq<Job>, i: int)
    requires 0 <= i < |jobs|
    ensures Kept(rule, jobs[..i + 1]) == Kept(rule, jobs[..i]) + (if Marks(rule, jobs[i]) then [] else [jobs[i]])
  {
    assert jobs[..i + 1][..i] == jobs[..i];
  }

  /** A marked job with a distinct id is removed in place, and the walk goes
      on with a list whose prefix is unchanged. */
  lemma SweepMarkedStep(rule: SweepRule, jobs: seq<Job>, i: int)
    requires 0 <= i < |jobs| && DistinctIds(jobs) && Marks(rule, jobs[i])
    ensures var rest := jobs[..i] + jobs[i + 1..];
            Sweep(rule, jobs, i) == Sweep(rule, rest, i - 1) && DistinctIds(rest) &&
            rest[..i] == jobs[..i] && rest[i..] == jobs[i + 1..]
  {
    assert forall j :: 0 <= j < i ==> jobs[j].id != jobs[i].id;
    RemoveFirstAt(jobs, jobs[i].id, i);
    DistinctRemove(jobs, i);
  }

  /** Closes the step for a marked job, from the sweep of the shortened list. */
  lemma SweepMarkedClose(rule: SweepRule, jobs: seq<Job>, i: int, rest: seq<Job>)
    requires 0 <= i < |jobs| && Marks(rule, jobs[i])
    requires |rest| == |jobs| - 1 && rest[..i] == jobs[..i] && rest[i..] == jobs[i + 1..]
    requires Sweep(rule, jobs, i) == Sweep(rule, rest, i - 1)
    requires Sweep(rule, rest, i - 1) == Kept(rule, rest[..i]) + rest[i..]
    ensures Sweep(rule, jobs, i) == Kept(rule, jobs[..i + 1]) + jobs[i + 1..]
  {
    KeptPrefixStep(rule, jobs, i);
  }

  /** Moving a kept job from the untouched tail into the kept prefix. */
  lemma KeptStep(rule: SweepRule, jobs: seq<Job>, i: int)
    requires 0 <= i < |jobs| && !Marks(rule, jobs[i])
    ensures Kept(rule, jobs[..i]) + jobs[i..] == Kept(rule, jobs[..i + 1]) + jobs[i + 1..]
  {
    KeptPrefixStep(rule, jobs, i);
    assert jobs[i..] == [jobs[i]] + jobs[i + 1..];
  }

  /** With distinct ids the sweep up to `i` keeps exactly the unmarked jobs of
      the prefix and leaves the rest alone. */
  lemma {:induction false} SweepDistinctFrom(rule: SweepRule, jobs: seq<Job>, i: int)
    requires -1 <= i < |jobs| && DistinctIds(jobs)
    ensures Sweep(rule, jobs, i) == Kept(rule, jobs[..i + 1]) + jobs[i + 1..]
    decreases i + 1
  {
    if i < 0 {
      assert jobs[..0] == [];
    } else if Marks(rule, jobs[i]) {
      var rest := jobs[..i] + jobs[i + 1..];
      SweepMarkedStep(rule, jobs, i);
      SweepDistinctFrom(rule, rest, i - 1);
      SweepMarkedClose(rule, jobs, i, rest);
    } else {
      SweepDistinctFrom(rule, jobs, i - 1);
      KeptStep(rule, jobs, i);
    }
  }

  /** With distinct ids, the whole sweep keeps exactly the unmarked jobs, in
      order. */
  lemma SweepKeepsUnmarked(rule: SweepRule, jobs: seq<Job>)
    requires DistinctIds(jobs)
    ensures Sweep(rule, jobs, |jobs| - 1) == Kept(rule, jobs)
  {
    SweepDistinctFrom(rule, jobs, |jobs| - 1);
    assert jobs[..|jobs|] == jobs;
    assert jobs[|jobs|..] == [];
  }

  /** Removing the first job with the id of the job at `i` shifts every later
      job down by one place. */
  lemma {:induction false} RemoveFirstShiftsTail(jobs: seq<Job>, id: string, i: int)
    requires 0 <= i < |jobs| && jobs[i].id == id
    ensures |RemoveFirst(jobs, id)| == |jobs| - 1
    ensures forall m :: i <= m < |jobs| - 1 ==> RemoveFirst(jobs, id)[m] == jobs[m + 1]
  {
    if jobs[0].id != id {
      RemoveFirstShiftsTail(jobs[1..], id, i - 1);
    }
  }

  /** Whatever the ids, no job the rule marks survives the sweep: the jobs
      past the walk position stay unmarked after each removal. */
  lemma {:induction false} SweepLeavesNoMarked(rule: SweepRule, jobs: seq<Job>, i: int)
    requires -1 <= i < |jobs|
    requires forall k :: i < k < |jobs| ==> !Marks(rule, jobs[k])
    ensures forall job :: job in Sweep(rule, jobs, i) ==> !Marks(rule, job)
    decreases i + 1
  {
    if i >= 0 {
      if Marks(rule, jobs[i]) {
        var rest := RemoveFirst(jobs, jobs[i].id);
        RemoveFirstShiftsTail(jobs, jobs[i].id, i);
        assert forall k :: i - 1 < k < |rest| ==> rest[k] == jobs[k + 1];
        SweepLeavesNoMarked(rule, rest, i - 1);
      } else {
        SweepLeavesNoMarked(rule, jobs, i - 1);
      }
    }
  }

  /** With a repeated id the sweep can remove a job the rule keeps: removing
      the marked job by id drops the earlier, owned job with the same id, and
      the marked job, now one place down, is removed on the next step. */
  lemma SweepDuplicateIds()
    ensures var owned := Job("j", 1, "me", 0, JobStatusRunning);
            var foreign := Job("j", 2, "other", 0, JobStatusRunning);
            var rule := NotOwned(map[1 := TableStatus(1, "j", "me", 0, 0)], "me");
            Sweep(rule, [owned, foreign], 1) == [] && Kept(rule, [owned, foreign]) == [owned]
  {
    var owned := Job("j", 1, "me", 0, JobStatusRunning);
    var foreign := Job("j", 2, "other", 0, JobStatusRunning);
    var rule := NotOwned(map[1 := TableStatus(1, "j", "me", 0, 0)], "me");
    assert Marks(rule, foreign) && !Marks(rule, owned);
    assert RemoveFirst([owned, foreign], "j") == [foreign];
    assert RemoveFirst([foreign], "j") == [];
    assert [owned, foreign][..1] == [owned];
  }
}
