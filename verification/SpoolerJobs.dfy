/** What reports and commands do to single jobs and printers, and how long a job stays in the
    list.
 */
module SpoolerJobs {
  import opened Options
  import opened Conversions
  import opened Spooler
  import opened SpoolerRuns

  // ----- reports

  /** Job i is the one that a report of its process is about. */
  lemma TheJob(s: Spool, i: nat)
    requires Inv(s) && i < |s.jobs| && s.jobs[i].pgid != 0
    ensures GetJobByPid(s.jobs, s.jobs[i].pgid) == Some(i)
  {
    var r := GetJobByPid(s.jobs, s.jobs[i].pgid);
    assert r.Some? && r.value <= i;
    assert r.value != i ==> Apart(s, i, r.value);
  }

  /** What the end of a process makes of its job, running or paused, and of the printer. */
  lemma EndTells(s: Spool, i: nat, from: set<JobStatus>, to: JobStatus, now: nat)
    requires Inv(s) && i < |s.jobs| && s.jobs[i].Active() && s.jobs[i].status in from && to != Queued
    ensures |Finish(s, i, from, to, now).jobs| == |s.jobs|
    ensures Finish(s, i, from, to, now).jobs[i] == s.jobs[i].(status := to, changed := now)
  {
    hide Inv, RunJobsFrom;
    ReleaseOk(s, i, Completed, now);
    var s1 := SetStatus(s, i, to, now);
    var s2 := FreePrinter(s1, s1.printers[s.jobs[i].chosen.value].name);
    RunJobsFrame(s2, 0, now);
  }

  /** Success completes a running job; failure and a fatal signal abort a running or paused
      one; a stop pauses a running job, and a continuation resumes a paused one. */
  lemma ReportsTell(s: Spool, i: nat, now: nat)
    requires Inv(s) && i < |s.jobs| && s.jobs[i].Active()
    ensures var job, pid := s.jobs[i], s.jobs[i].pgid;
            && |Step(s, Exited(pid), now).jobs| == |Step(s, Failed(pid), now).jobs| == |s.jobs|
            && |Step(s, Killed(pid), now).jobs| == |s.jobs|
            && (job.status == Running ==>
                  Step(s, Exited(pid), now).jobs[i] == job.(status := Completed, changed := now))
            && Step(s, Failed(pid), now).jobs[i] == job.(status := Aborted, changed := now)
            && Step(s, Killed(pid), now).jobs[i] == job.(status := Aborted, changed := now)
            && Step(s, Stopped(pid), now) ==
               (if job.status == Running then s.(jobs := s.jobs[i := job.(status := Paused, changed := now)]) else s)
            && Step(s, Continued(pid), now) ==
               (if job.status == Paused then s.(jobs := s.jobs[i := job.(status := Running, changed := now)]) else s)
  {
    hide Inv, Finish;
    ActiveHasProcess(s, i);
    TheJob(s, i);
    if s.jobs[i].status == Running {
      EndTells(s, i, {Running}, Completed, now);
    } else {
      FinishKeepsCount(s, i, {Running}, Completed, now);
    }
    EndTells(s, i, {Running, Paused}, Aborted, now);
  }

  lemma ActiveHasProcess(s: Spool, i: nat)
    requires Inv(s) && i < |s.jobs| && s.jobs[i].Active()
    ensures s.jobs[i].pgid != 0
  {
    assert JobOk(s, i);
  }

  lemma FinishKeepsCount(s: Spool, i: nat, from: set<JobStatus>, to: JobStatus, now: nat)
    requires i < |s.jobs|
    ensures |Finish(s, i, from, to, now).jobs| == |s.jobs|
  {
    hide RunJobsFrom;
  }

  // ----- commands about printers

  /** No printer before k has its name. */
  predicate FirstOfName(printers: seq<Printer>, k: nat) {
    k < |printers| && forall j :: 0 <= j < k ==> printers[j].name != printers[k].name
  }

  /** Enabling and disabling set the flag of the first printer of the name, and nothing else. */
  lemma FlagsTell(s: Spool, name: string, now: nat)
    ensures var on, off := Step(s, Enable(name), now), Step(s, Disable(name), now);
            && on == s.(printers := on.printers) && off == s.(printers := off.printers)
            && |on.printers| == |off.printers| == |s.printers|
            && forall k :: 0 <= k < |s.printers| ==>
                 var it := FirstOfName(s.printers, k) && s.printers[k].name == name;
                 && on.printers[k] == (if it then s.printers[k].(enabled := true) else s.printers[k])
                 && off.printers[k] == (if it then s.printers[k].(enabled := false) else s.printers[k])
  {
  }

  /** A new printer is disabled and idle, and is added if its type is defined and there is
      room. */
  lemma PrinterAdded(s: Spool, name: string, kind: string, now: nat)
    ensures Step(s, NewPrinter(name, kind), now).printers ==
            s.printers +
            (if Defined(s.types, kind) && |s.printers| < 32 then [Printer(name, kind, false, false)] else [])
  {
  }

  // ----- jobs over time

  predicate Ended(job: Job) {
    job.status == Completed || job.status == Aborted
  }

  /** What a job keeps for as long as it is there. */
  predicate Same(job: Job, job': Job) {
    job'.id == job.id && job'.fileName == job.fileName && job'.fileType == job.fileType && job'.eligible == job.eligible
  }

  /** After a round exactly those jobs are gone that were completed or aborted 60 seconds ago or
      more; the others are there in their order. */
  lemma WhoIsRemoved(s: Spool, now: nat) returns (from: seq<nat>)
    ensures var before, after := RunJobs(s, now).jobs, Step(s, Tick, now).jobs;
            && |from| == |after|
            && (forall k, l :: 0 <= k < l < |from| ==> from[k] < from[l])
            && (forall k :: 0 <= k < |from| ==> from[k] < |before| && after[k] == before[from[k]])
            && forall i :: 0 <= i < |before| ==>
                 (i in from <==>
                   !((before[i].status == Completed || before[i].status == Aborted) && now >= before[i].changed + 60))
  {
    hide RunJobsFrom, RemoveJobs;
    from := Survivors(RunJobs(s, now).jobs, now);
  }

  lemma Survivors(jobs: seq<Job>, now: nat) returns (from: seq<nat>)
    ensures |from| == |RemoveJobs(jobs, now)|
    ensures forall k, l :: 0 <= k < l < |from| ==> from[k] < from[l]
    ensures forall k :: 0 <= k < |from| ==> from[k] < |jobs| && RemoveJobs(jobs, now)[k] == jobs[from[k]]
    ensures forall i :: 0 <= i < |jobs| ==> (i in from <==> Kept(jobs[i], now))
  {
    from := Places(jobs, now);
    PlacesAre(jobs, now);
    forall i | 0 <= i < |jobs|
      ensures i in from <==> Kept(jobs[i], now)
    {
      PlacesHold(jobs, now, i);
    }
  }

  function Moved(places: seq<nat>): (moved: seq<nat>)
    ensures |moved| == |places| && forall k :: 0 <= k < |places| ==> moved[k] == places[k] + 1
  {
    seq(|places|, k requires 0 <= k < |places| => places[k] + 1)
  }

  /** The places of the jobs that are kept. */
  function Places(jobs: seq<Job>, now: nat): seq<nat> {
    if jobs == [] then []
    else if Kept(jobs[0], now) then [0] + Moved(Places(jobs[1..], now))
    else Moved(Places(jobs[1..], now))
  }

  lemma {:induction false} PlacesAre(jobs: seq<Job>, now: nat)
    ensures var from := Places(jobs, now);
            && |from| == |RemoveJobs(jobs, now)|
            && (forall k, l :: 0 <= k < l < |from| ==> from[k] < from[l])
            && forall k :: 0 <= k < |from| ==> from[k] < |jobs| && RemoveJobs(jobs, now)[k] == jobs[from[k]]
  {
    hide Kept;
    if jobs != [] {
      PlacesAre(jobs[1..], now);
    }
  }

  lemma {:induction false} PlacesHold(jobs: seq<Job>, now: nat, i: nat)
    requires i < |jobs|
    ensures i in Places(jobs, now) <==> Kept(jobs[i], now)
  {
    hide Kept;
    MovedOn(Places(jobs[1..], now), i);
    if 0 < i {
      PlacesHold(jobs[1..], now, i - 1);
    }
  }

  lemma MovedOn(places: seq<nat>, i: nat)
    ensures i in Moved(places) <==> 0 < i && i - 1 in places
  {
    if 0 < i && i - 1 in places {
      var k :| 0 <= k < |places| && places[k] == i - 1;
      assert Moved(places)[k] == i;
    }
    if i in Moved(places) {
      var k :| 0 <= k < |places| && Moved(places)[k] == i;
      assert places[k] == i - 1;
    }
  }

  /** Starting jobs changes none that has ended, and ends none. */
  lemma {:induction false} RunJobsKeeps(s: Spool, i: nat, now: nat)
    requires i <= |s.jobs|
    ensures forall j :: 0 <= j < |s.jobs| ==>
              Same(s.jobs[j], RunJobsFrom(s, i, now).jobs[j])
              && (s.jobs[j].status != Queued ==> RunJobsFrom(s, i, now).jobs[j] == s.jobs[j])
              && (s.jobs[j].status == Queued ==> !Ended(RunJobsFrom(s, i, now).jobs[j]))
    decreases |s.jobs| - i
  {
    hide TryJob;
    if i < |s.jobs| {
      if s.jobs[i].status == Queued {
        TryJobFrame(s, i, now);
        RunJobsKeeps(TryJob(s, i, now), i + 1, now);
      } else {
        RunJobsKeeps(s, i + 1, now);
      }
    }
  }

  /** What a step does to a job: it has ended before and stays as it is, or it goes on, or it
      ends now. */
  ghost predicate GoesOn(job: Job, job': Job, now: nat) {
    Same(job, job') && if Ended(job) then job' == job else Ended(job') ==> job'.changed == now
  }

  lemma FinishGoesOn(s: Spool, i: nat, from: set<JobStatus>, to: JobStatus, now: nat)
    requires i < |s.jobs| && Queued !in from && Completed !in from && Aborted !in from
    ensures |Finish(s, i, from, to, now).jobs| == |s.jobs| && Finish(s, i, from, to, now).nextId == s.nextId
    ensures forall j :: 0 <= j < |s.jobs| ==> GoesOn(s.jobs[j], Finish(s, i, from, to, now).jobs[j], now)
  {
    hide RunJobsFrom;
    var s1 := if s.jobs[i].status in from then SetStatus(s, i, to, now) else s;
    if s.jobs[i].chosen.Some? && s.jobs[i].chosen.value < |s1.printers| {
      var s2 := FreePrinter(s1, s1.printers[s.jobs[i].chosen.value].name);
      RunJobsKeeps(s2, 0, now);
    }
  }

  /** A step other than a round keeps all jobs in their places. */
  lemma StepGoesOn(s: Spool, e: Event, now: nat)
    requires !e.Tick?
    ensures var s' := Step(s, e, now);
            || (|s'.jobs| == |s.jobs| && s'.nextId == s.nextId)
            || (|s'.jobs| == |s.jobs| + 1 && s'.nextId == s.nextId + 1 && s'.jobs[|s.jobs|].id == s.nextId)
    ensures forall j :: 0 <= j < |s.jobs| ==> GoesOn(s.jobs[j], Step(s, e, now).jobs[j], now)
  {
    hide Finish, TryJob, WithType, WithConversion, Defined, GetPrinter;
    match e {
      case Print(fileName, fileType, eligible) =>
        if Defined(s.types, fileType) && eligible != {} {
          var job := Job(s.nextId, Queued, 0, fileName, fileType, eligible, None, now);
          TryJobFrame(s.(jobs := s.jobs + [job], nextId := s.nextId + 1), |s.jobs|, now);
        }
      case Exited(pid) =>
        if GetJobByPid(s.jobs, pid).Some? {
          FinishGoesOn(s, GetJobByPid(s.jobs, pid).value, {Running}, Completed, now);
        }
      case Failed(pid) =>
        if GetJobByPid(s.jobs, pid).Some? {
          FinishGoesOn(s, GetJobByPid(s.jobs, pid).value, {Running, Paused}, Aborted, now);
        }
      case Killed(pid) =>
        if GetJobByPid(s.jobs, pid).Some? {
          FinishGoesOn(s, GetJobByPid(s.jobs, pid).value, {Running, Paused}, Aborted, now);
        }
      case _ =>
    }
  }

  /** The job that a submission adds: last in the list, with the next id and what was asked
      for; queued, or started at once. */
  lemma Submitted(s: Spool, fileName: string, fileType: string, eligible: set<nat>, now: nat)
    requires Defined(s.types, fileType) && eligible != {}
    ensures var s' := Step(s, Print(fileName, fileType, eligible), now);
            && |s'.jobs| == |s.jobs| + 1 && s'.nextId == s.nextId + 1
            && var job := s'.jobs[|s.jobs|];
               && job.id == s.nextId && job.fileName == fileName && job.fileType == fileType && job.eligible == eligible
               && (job.status == Queued || job.status == Running)
  {
    hide TryJob, Defined;
    var job := Job(s.nextId, Queued, 0, fileName, fileType, eligible, None, now);
    TryJobFrame(s.(jobs := s.jobs + [job], nextId := s.nextId + 1), |s.jobs|, now);
  }

  /** Where only first printers of a name are enabled it is started if it can be. */
  lemma SubmittedStarts(s: Spool, fileName: string, fileType: string, eligible: set<nat>, now: nat)
    requires Defined(s.types, fileType) && eligible != {} && FirstEnabled(s.printers)
    ensures var job := Job(s.nextId, Queued, 0, fileName, fileType, eligible, None, now);
            var s' := Step(s, Print(fileName, fileType, eligible), now);
            |s'.jobs| == |s.jobs| + 1 && (s'.jobs[|s.jobs|].status == Running <==> CanStart(s, job))
  {
    hide TryJob, Defined, CanStart;
    var job := Job(s.nextId, Queued, 0, fileName, fileType, eligible, None, now);
    var s1 := s.(jobs := s.jobs + [job], nextId := s.nextId + 1);
    TryJobFrame(s1, |s.jobs|, now);
    StartsExactly(s1, |s.jobs|, now);
    OnlyPrinters(s, s1, job);
  }

  lemma OnlyPrinters(s: Spool, s': Spool, job: Job)
    requires s'.types == s.types && s'.printers == s.printers
    ensures CanStart(s', job) <==> CanStart(s, job)
  {
    hide Search;
    assert forall k: nat :: OwnIdle(s', job, k) <==> OwnIdle(s, job, k);
    assert forall k: nat :: FirstReached(s', job, k) <==> FirstReached(s, job, k) by {
      assert forall k: nat :: Reached(s', job, k) <==> Reached(s, job, k);
    }
  }

  /** Jobs are numbered in the order of their submission, so that an id names one job. */
  ghost predicate Numbered(s: Spool) {
    && (forall i, j :: 0 <= i < j < |s.jobs| ==> s.jobs[i].id < s.jobs[j].id)
    && forall i :: 0 <= i < |s.jobs| ==> s.jobs[i].id < s.nextId
  }

  lemma StepNumbered(s: Spool, e: Event, now: nat)
    requires Numbered(s)
    ensures Numbered(Step(s, e, now))
  {
    hide RunJobsFrom, RemoveJobs, Finish, Submit;
    if e.Tick? {
      RunJobsKeeps(s, 0, now);
      var s1 := RunJobs(s, now);
      var from := Survivors(s1.jobs, now);
      assert forall i :: 0 <= i < |s.jobs| ==> s1.jobs[i].id == s.jobs[i].id;
    } else {
      StepGoesOn(s, e, now);
      hide Step;
      var s' := Step(s, e, now);
      assert forall i :: 0 <= i < |s.jobs| ==> s'.jobs[i].id == s.jobs[i].id;
    }
  }

  lemma {:induction false} RunsNumbered(s: Spool, es: seq<(Event, nat)>)
    requires Numbered(s)
    ensures Numbered(After(s, es))
    decreases |es|
  {
    hide Step, Numbered;
    if es != [] {
      StepNumbered(s, es[0].0, es[0].1);
      RunsNumbered(Step(s, es[0].0, es[0].1), es[1..]);
    }
  }

  // ----- runs

  /** The state after the first k events. */
  function At(s: Spool, es: seq<(Event, nat)>, k: nat): Spool
    requires k <= |es|
  {
    After(s, es[..k])
  }

  lemma {:induction false} AfterSnoc(s: Spool, es: seq<(Event, nat)>, e: (Event, nat))
    ensures After(s, es + [e]) == Step(After(s, es), e.0, e.1)
    decreases |es|
  {
    hide Step;
    if es == [] {
      assert es + [e] == [e];
      assert After(Step(s, e.0, e.1), []) == Step(s, e.0, e.1);
    } else {
      assert (es + [e])[1..] == es[1..] + [e];
      AfterSnoc(Step(s, es[0].0, es[0].1), es[1..], e);
    }
  }

  lemma AtNext(s: Spool, es: seq<(Event, nat)>, k: nat)
    requires k < |es|
    ensures At(s, es, k + 1) == Step(At(s, es, k), es[k].0, es[k].1)
  {
    assert es[..k + 1] == es[..k] + [es[k]];
    AfterSnoc(s, es[..k], es[k]);
  }

  ghost predicate There(s: Spool, job: Job, j: nat) {
    j < |s.jobs| && Same(job, s.jobs[j])
  }

  /** Event m ended the job. */
  ghost predicate EndedBy(s: Spool, es: seq<(Event, nat)>, job: Job, m: nat) {
    && m < |es|
    && IsThere(At(s, es, m), job, false)
    && IsThere(At(s, es, m + 1), job, true)
  }

  /** The job is in the list, and has ended or not. */
  ghost predicate IsThere(s: Spool, job: Job, ended: bool) {
    exists j: nat :: There(s, job, j) && Ended(s.jobs[j]) == ended
  }

  /** The job is there after k events, and if it has ended one of them ended it. */
  ghost predicate Lasts(s: Spool, es: seq<(Event, nat)>, job: Job, k: nat)
    requires k <= |es|
  {
    exists j: nat :: LastsAt(s, es, job, k, j)
  }

  ghost predicate LastsAt(s: Spool, es: seq<(Event, nat)>, job: Job, k: nat, j: nat)
    requires k <= |es|
  {
    && There(At(s, es, k), job, j)
    && (Ended(At(s, es, k).jobs[j]) ==>
          exists m: nat :: m < k && EndedBy(s, es, job, m) && At(s, es, k).jobs[j].changed == es[m].1)
  }

  /** One of the first k events was a round, 60 seconds or more after the event that ended the
      job. */
  ghost predicate Cleared(s: Spool, es: seq<(Event, nat)>, job: Job, k: nat)
    requires k <= |es|
  {
    exists m: nat, n: nat :: m < n < k && EndedBy(s, es, job, m) && es[n].0 == Tick && es[n].1 >= es[m].1 + 60
  }

  lemma LastsOn(s: Spool, es: seq<(Event, nat)>, job: Job, k: nat, j: nat)
    requires k < |es| && LastsAt(s, es, job, k, j)
    ensures Lasts(s, es, job, k + 1) || Cleared(s, es, job, k + 1)
  {
    hide Step, Ended, RunJobsFrom;
    AtNext(s, es, k);
    var s0, s1 := At(s, es, k), At(s, es, k + 1);
    var e, now := es[k].0, es[k].1;
    var j' := j;
    if e.Tick? {
      var from := WhoIsRemoved(s0, now);
      RunJobsKeeps(s0, 0, now);
      TickGoesOn(s0, now, j, from);
      if j in from {
        j' :| 0 <= j' < |from| && from[j'] == j;
      } else {
        var m: nat :| m < k && EndedBy(s, es, job, m) && s0.jobs[j].changed == es[m].1;
        assert Cleared(s, es, job, k + 1);
        return;
      }
    } else {
      StepGoesOn(s0, e, now);
    }
    assert GoesOn(s0.jobs[j], s1.jobs[j'], now);
    assert There(s1, job, j');
    if Ended(s1.jobs[j']) {
      if Ended(s0.jobs[j]) {
        var m: nat :| m < k && EndedBy(s, es, job, m) && s0.jobs[j].changed == es[m].1;
      } else {
        assert IsThere(s0, job, false) && IsThere(s1, job, true);
        assert EndedBy(s, es, job, k);
      }
    }
    assert LastsAt(s, es, job, k + 1, j');
  }

  lemma TickGoesOn(s: Spool, now: nat, j: nat, from: seq<nat>)
    requires j < |s.jobs|
    requires var before, after := RunJobs(s, now).jobs, Step(s, Tick, now).jobs;
             && |from| == |after|
             && (forall k :: 0 <= k < |from| ==> from[k] < |before| && after[k] == before[from[k]])
             && forall i :: 0 <= i < |before| ==>
                  (i in from <==>
                    !((before[i].status == Completed || before[i].status == Aborted) && now >= before[i].changed + 60))
    ensures j in from ==>
              forall k :: 0 <= k < |from| && from[k] == j ==> GoesOn(s.jobs[j], Step(s, Tick, now).jobs[k], now)
    ensures j !in from ==> Ended(s.jobs[j]) && now >= s.jobs[j].changed + 60
  {
    hide RunJobsFrom, RemoveJobs;
    RunJobsKeeps(s, 0, now);
  }

  lemma {:induction false} LastsAll(s: Spool, es: seq<(Event, nat)>, i: nat, k: nat)
    requires i < |s.jobs| && !Ended(s.jobs[i]) && k <= |es|
    ensures Lasts(s, es, s.jobs[i], k) || Cleared(s, es, s.jobs[i], k)
    decreases k
  {
    hide Ended;
    var job := s.jobs[i];
    if k == 0 {
      assert es[..0] == [];
      assert LastsAt(s, es, job, 0, i);
    } else {
      LastsAll(s, es, i, k - 1);
      if Lasts(s, es, job, k - 1) {
        var j: nat :| LastsAt(s, es, job, k - 1, j);
        LastsOn(s, es, job, k - 1, j);
      }
    }
  }

  ghost predicate Present(s: Spool, job: Job) {
    exists j: nat :: There(s, job, j)
  }

  lemma LastsIsPresent(s: Spool, es: seq<(Event, nat)>, job: Job, k: nat)
    requires k <= |es| && Lasts(s, es, job, k)
    ensures Present(At(s, es, k), job)
  {
    hide At, There;
    var j: nat :| LastsAt(s, es, job, k, j);
  }

  lemma AtTheEnd(s: Spool, es: seq<(Event, nat)>)
    ensures At(s, es, |es|) == After(s, es)
  {
    hide After;
    assert es[..|es|] == es;
  }

  /** A job that has not ended is there after every run, with its id, file and set of printers,
      unless the run completed or aborted it and had a round 60 seconds or more after that. */
  lemma JobStays(s: Spool, es: seq<(Event, nat)>, i: nat)
    requires i < |s.jobs| && !Ended(s.jobs[i])
    ensures Present(After(s, es), s.jobs[i]) || Cleared(s, es, s.jobs[i], |es|)
  {
    hide *;
    LastsAll(s, es, i, |es|);
    AtTheEnd(s, es);
    if Lasts(s, es, s.jobs[i], |es|) {
      LastsIsPresent(s, es, s.jobs[i], |es|);
    }
  }
}
