/** The print spooler: printers, jobs, and what commands and reports about child processes do
    to them.  A report is handled in one step, as the program handles a signal.
 */
module Spooler {
  import opened Options
  import opened Conversions

  const MAX_PRINTERS: nat := 32

  /** A printer; its id is its position in the array. */
  datatype Printer = Printer(name: string, kind: string, enabled: bool, busy: bool)

  datatype JobStatus = Queued | Running | Paused | Completed | Aborted

  datatype Job = Job(
    id: nat,
    status: JobStatus,
    pgid: nat,
    fileName: string,
    fileType: string,
    eligible: set<nat>,
    chosen: Option<nat>,
    changed: nat)
  {
    predicate Active() {
      status == Running || status == Paused
    }
  }

  /** Processes get the numbers nextPid, nextPid + 1, ...; 0 stands for none. */
  datatype Spool = Spool(types: seq<FileType>, printers: seq<Printer>, jobs: seq<Job>, nextId: nat, nextPid: nat)

  const EMPTY: Spool := Spool([], [], [], 0, 1)

  // ----- looking things up

  /** The first position from i on at which p holds. */
  function FirstFrom<T>(s: seq<T>, p: (nat, T) -> bool, i: nat): (r: Option<nat>)
    requires i <= |s|
    ensures r.Some? ==> i <= r.value < |s| && p(r.value, s[r.value]) && forall k :: i <= k < r.value ==> !p(k, s[k])
    ensures r.None? ==> forall k :: i <= k < |s| ==> !p(k, s[k])
    decreases |s| - i
  {
    if i == |s| then None else if p(i, s[i]) then Some(i) else FirstFrom(s, p, i + 1)
  }

  function GetPrinter(printers: seq<Printer>, name: string): Option<nat> {
    FirstFrom(printers, (k, p: Printer) => p.name == name, 0)
  }

  function GetJobByPid(jobs: seq<Job>, pid: nat): Option<nat> {
    FirstFrom(jobs, (k, j: Job) => j.pgid == pid, 0)
  }

  /** The printer could serve the job: it is enabled and in the set the user gave. */
  predicate Allowed(k: nat, p: Printer, job: Job) {
    p.enabled && k in job.eligible
  }

  predicate ReadyFor(k: nat, p: Printer, job: Job) {
    Allowed(k, p, job) && !p.busy && p.kind == job.fileType
  }

  predicate Reaches(types: seq<FileType>, k: nat, p: Printer, job: Job) {
    Allowed(k, p, job) && Search(types, job.fileType, p.kind, MAX_CONVERSIONS).Some?
  }

  /** `getEligiblePrinter`: an idle printer of the job's own type; failing that, one that a
      conversion path leads to; failing that, a busy one of its own type. */
  function GetEligiblePrinter(s: Spool, job: Job): Option<nat> {
    if !Defined(s.types, job.fileType) then None
    else
      match FirstFrom(s.printers, (k, p) => ReadyFor(k, p, job), 0)
      case Some(k) => Some(k)
      case None =>
        match FirstFrom(s.printers, (k, p) => Reaches(s.types, k, p, job), 0)
        case Some(k) => Some(k)
        case None => FirstFrom(s.printers, (k, p: Printer) => Allowed(k, p, job) && p.kind == job.fileType, 0)
  }

  // ----- starting jobs

  /** `runJob`: the printer is looked up again by name, and must be idle. */
  function RunJob(s: Spool, i: nat, name: string, now: nat): Spool
    requires i < |s.jobs|
  {
    match GetPrinter(s.printers, name)
    case None => s
    case Some(p) =>
      if s.printers[p].busy then s
      else
        s.(jobs := s.jobs[i := s.jobs[i].(status := Running, chosen := Some(p), changed := now, pgid := s.nextPid)],
           printers := s.printers[p := s.printers[p].(busy := true)],
           nextPid := s.nextPid + 1)
  }

  /** What `print` and `runJobs` do with one queued job. */
  function TryJob(s: Spool, i: nat, now: nat): Spool
    requires i < |s.jobs|
  {
    match GetEligiblePrinter(s, s.jobs[i])
    case None => s
    case Some(k) => RunJob(s, i, s.printers[k].name, now)
  }

  function RunJobsFrom(s: Spool, i: nat, now: nat): (s': Spool)
    requires i <= |s.jobs|
    ensures |s'.jobs| == |s.jobs| && |s'.printers| == |s.printers| && s'.types == s.types && s'.nextId == s.nextId
    decreases |s.jobs| - i
  {
    if i == |s.jobs| then s
    else if s.jobs[i].status == Queued then RunJobsFrom(TryJob(s, i, now), i + 1, now)
    else RunJobsFrom(s, i + 1, now)
  }

  function RunJobs(s: Spool, now: nat): Spool {
    RunJobsFrom(s, 0, now)
  }

  // ----- commands and reports

  datatype Event =
    | DeclareType(name: string)
    | DeclareConversion(from: string, c: Conversion)
    | NewPrinter(name: string, kind: string)
    | Enable(name: string)
    | Disable(name: string)
    | Print(fileName: string, fileType: string, eligible: set<nat>)
    | Tick
    | Exited(pid: nat)
    | Failed(pid: nat)
    | Killed(pid: nat)
    | Stopped(pid: nat)
    | Continued(pid: nat)

  function SetEnabled(s: Spool, name: string, on: bool): Spool {
    match GetPrinter(s.printers, name)
    case None => s
    case Some(p) => s.(printers := s.printers[p := s.printers[p].(enabled := on)])
  }

  function FreePrinter(s: Spool, name: string): Spool {
    match GetPrinter(s.printers, name)
    case None => s
    case Some(p) => s.(printers := s.printers[p := s.printers[p].(busy := false)])
  }

  function SetStatus(s: Spool, i: nat, status: JobStatus, now: nat): Spool
    requires i < |s.jobs|
  {
    s.(jobs := s.jobs[i := s.jobs[i].(status := status, changed := now)])
  }

  /** The end of the process of job i: its status changes if it is in one of the states from
      which it may, its printer is freed in any case, and waiting jobs get their chance. */
  function Finish(s: Spool, i: nat, from: set<JobStatus>, to: JobStatus, now: nat): Spool
    requires i < |s.jobs|
  {
    var s1 := if s.jobs[i].status in from then SetStatus(s, i, to, now) else s;
    match s.jobs[i].chosen
    case None => s1
    case Some(p) => if p < |s1.printers| then RunJobs(FreePrinter(s1, s1.printers[p].name), now) else s1
  }

  predicate Kept(job: Job, now: nat) {
    !((job.status == Completed || job.status == Aborted) && now - job.changed >= 60)
  }

  function RemoveJobs(jobs: seq<Job>, now: nat): seq<Job> {
    if jobs == [] then []
    else if Kept(jobs[0], now) then [jobs[0]] + RemoveJobs(jobs[1..], now)
    else RemoveJobs(jobs[1..], now)
  }

  function Submit(s: Spool, fileName: string, fileType: string, eligible: set<nat>, now: nat): Spool {
    if !Defined(s.types, fileType) || eligible == {} then s
    else
      var s1 := s.(jobs := s.jobs + [Job(s.nextId, Queued, 0, fileName, fileType, eligible, None, now)],
          nextId := s.nextId + 1);
      TryJob(s1, |s.jobs|, now)
  }

  function Step(s: Spool, e: Event, now: nat): Spool {
    match e
    case DeclareType(name) => s.(types := WithType(s.types, name))
    case DeclareConversion(from, c) => s.(types := WithConversion(s.types, from, c))
    case NewPrinter(name, kind) =>
      if Defined(s.types, kind)
          && |s.printers| < MAX_PRINTERS then s.(printers := s.printers + [Printer(name, kind, false, false)]) else s
    case Enable(name) => SetEnabled(s, name, true)
    case Disable(name) => SetEnabled(s, name, false)
    case Print(fileName, fileType, eligible) => Submit(s, fileName, fileType, eligible, now)
    case Tick =>
      var s1 := RunJobs(s, now);
      s1.(jobs := RemoveJobs(s1.jobs, now))
    case Exited(pid) =>
      (match GetJobByPid(s.jobs, pid) case None => s case Some(i) => Finish(s, i, {Running}, Completed, now))
    case Failed(pid) =>
      (match GetJobByPid(s.jobs, pid) case None => s case Some(i) => Finish(s, i, {Running, Paused}, Aborted, now))
    case Killed(pid) =>
      (match GetJobByPid(s.jobs, pid) case None => s case Some(i) => Finish(s, i, {Running, Paused}, Aborted, now))
    case Stopped(pid) =>
      (match GetJobByPid(s.jobs, pid)
       case None => s
       case Some(i) => if s.jobs[i].status == Running then SetStatus(s, i, Paused, now) else s)
    case Continued(pid) =>
      (match GetJobByPid(s.jobs, pid)
       case None => s
       case Some(i) => if s.jobs[i].status == Paused then SetStatus(s, i, Running, now) else s)
  }

  // ----- the invariant

  ghost predicate JobOk(s: Spool, i: nat)
    requires i < |s.jobs|
  {
    var job := s.jobs[i];
    && (job.status == Queued <==> job.pgid == 0)
    && job.pgid < s.nextPid
    && job.id < s.nextId
    && (job.status != Queued ==> job.chosen.Some? && job.chosen.value < |s.printers|)
    && (job.status != Queued ==> GetPrinter(s.printers, s.printers[job.chosen.value].name) == job.chosen)
    && (job.Active() ==> s.printers[job.chosen.value].busy)
  }

  /** Two jobs have different processes, and never share a printer while active. */
  ghost predicate Apart(s: Spool, i: nat, j: nat)
    requires i < |s.jobs| && j < |s.jobs|
  {
    && (s.jobs[i].pgid != 0 ==> s.jobs[i].pgid != s.jobs[j].pgid)
    && !(s.jobs[i].Active() && s.jobs[j].Active() && s.jobs[i].chosen == s.jobs[j].chosen)
  }

  ghost predicate Occupied(s: Spool, p: nat) {
    exists i :: 0 <= i < |s.jobs| && s.jobs[i].Active() && s.jobs[i].chosen == Some(p)
  }

  /** A printer is busy if and only if exactly one running or paused job has it. */
  ghost predicate Inv(s: Spool) {
    && (forall i {:trigger JobOk(s, i)} :: 0 <= i < |s.jobs| ==> JobOk(s, i))
    && (forall i, j {:trigger Apart(s, i, j)} :: 0 <= i < |s.jobs| && 0 <= j < |s.jobs| && i != j ==> Apart(s, i, j))
    && (forall p {:trigger Occupied(s, p)} :: 0 <= p < |s.printers| && s.printers[p].busy ==> Occupied(s, p))
    && 1 <= s.nextPid
  }

  // ----- steps that start jobs

  /** Looking up a name finds the same printer when only flags changed or printers were added. */
  lemma SameLookup(printers: seq<Printer>, printers': seq<Printer>, name: string)
    requires |printers| <= |printers'| && forall k :: 0 <= k < |printers| ==> printers'[k].name == printers[k].name
    requires GetPrinter(printers, name).Some?
    ensures GetPrinter(printers', name) == GetPrinter(printers, name)
  {
  }

  lemma LookupAgain(printers: seq<Printer>, name: string)
    requires GetPrinter(printers, name).Some?
    ensures var p := GetPrinter(printers, name).value;
            printers[p].name == name && GetPrinter(printers, printers[p].name) == Some(p)
  {
  }

  lemma RunJobOk(s: Spool, i: nat, name: string, now: nat)
    requires Inv(s) && i < |s.jobs| && s.jobs[i].status == Queued
    ensures Inv(RunJob(s, i, name, now))
  {
    var s' := RunJob(s, i, name, now);
    if s' != s {
      var p := GetPrinter(s.printers, name).value;
      LookupAgain(s.printers, name);
      assert JobOk(s, i);
      forall j | 0 <= j < |s'.jobs|
        ensures JobOk(s', j)
      {
        assert JobOk(s, j);
        if s'.jobs[j].status != Queued {
          SameLookup(s.printers, s'.printers, s.printers[s'.jobs[j].chosen.value].name);
        }
      }
      forall j, k | 0 <= j < |s'.jobs| && 0 <= k < |s'.jobs| && j != k
        ensures Apart(s', j, k)
      {
        assert Apart(s, j, k) && JobOk(s, j) && JobOk(s, k);
      }
      forall q | 0 <= q < |s'.printers| && s'.printers[q].busy
        ensures Occupied(s', q)
      {
        if q == p {
          assert s'.jobs[i].Active() && s'.jobs[i].chosen == Some(p);
        } else {
          assert Occupied(s, q);
          var j :| 0 <= j < |s.jobs| && s.jobs[j].Active() && s.jobs[j].chosen == Some(q);
          assert s'.jobs[j] == s.jobs[j];
        }
      }
    }
  }

  lemma TryJobOk(s: Spool, i: nat, now: nat)
    requires Inv(s) && i < |s.jobs| && s.jobs[i].status == Queued
    ensures Inv(TryJob(s, i, now))
  {
    if GetEligiblePrinter(s, s.jobs[i]).Some? {
      RunJobOk(s, i, s.printers[GetEligiblePrinter(s, s.jobs[i]).value].name, now);
    }
  }

  lemma {:induction false} RunJobsOk(s: Spool, i: nat, now: nat)
    requires Inv(s) && i <= |s.jobs|
    ensures Inv(RunJobsFrom(s, i, now))
    decreases |s.jobs| - i
  {
    hide Inv, TryJob;
    if i < |s.jobs| {
      if s.jobs[i].status == Queued {
        TryJobOk(s, i, now);
        TryJobFrame(s, i, now);
        RunJobsOk(TryJob(s, i, now), i + 1, now);
      } else {
        RunJobsOk(s, i + 1, now);
      }
    }
  }

  /** Trying a job changes that job only, and makes at most one printer busy. */
  lemma TryJobFrame(s: Spool, i: nat, now: nat)
    requires i < |s.jobs|
    ensures var s' := TryJob(s, i, now);
            && |s'.jobs| == |s.jobs| && |s'.printers| == |s.printers| && s'.types == s.types && s'.nextId == s.nextId
            && (forall j :: 0 <= j < |s.jobs| && j != i ==> s'.jobs[j] == s.jobs[j])
            && (forall p :: 0 <= p < |s.printers| ==>
                  s'.printers[p] == s.printers[p]
                      || (s'.printers[p] == s.printers[p].(busy := true) && s'.jobs[i].status == Running
                          && s'.jobs[i].chosen == Some(p)))
            && (s'.jobs[i] == s.jobs[i]
                || (s'.jobs[i].status == Running
                    && s'.jobs[i] ==
                        s.jobs[i].(status := Running, chosen := s'.jobs[i].chosen, changed := now,
                            pgid := s'.jobs[i].pgid)))
  {
  }

  // ----- steps that end jobs

  /** Putting an active job into a final state and freeing its printer. */
  lemma ReleaseOk(s: Spool, i: nat, to: JobStatus, now: nat)
    requires Inv(s) && i < |s.jobs| && s.jobs[i].Active() && (to == Completed || to == Aborted)
    ensures s.jobs[i].chosen.Some? && s.jobs[i].chosen.value < |s.printers|
    ensures Inv(FreePrinter(SetStatus(s, i, to, now), s.printers[s.jobs[i].chosen.value].name))
  {
    assert JobOk(s, i);
    var p := s.jobs[i].chosen.value;
    var s' := FreePrinter(SetStatus(s, i, to, now), s.printers[p].name);
    assert s'.printers == s.printers[p := s.printers[p].(busy := false)];
    forall j | 0 <= j < |s'.jobs|
      ensures JobOk(s', j)
    {
      assert JobOk(s, j);
      if j != i {
        assert Apart(s, i, j);
      }
      if s'.jobs[j].status != Queued {
        SameLookup(s.printers, s'.printers, s.printers[s'.jobs[j].chosen.value].name);
      }
    }
    forall j, k | 0 <= j < |s'.jobs| && 0 <= k < |s'.jobs| && j != k
      ensures Apart(s', j, k)
    {
      assert Apart(s, j, k);
    }
    forall q | 0 <= q < |s'.printers| && s'.printers[q].busy
      ensures Occupied(s', q)
    {
      assert Occupied(s, q);
      var j :| 0 <= j < |s.jobs| && s.jobs[j].Active() && s.jobs[j].chosen == Some(q);
      assert s'.jobs[j] == s.jobs[j];
    }
  }

  /** A switch between running and paused. */
  lemma SwitchOk(s: Spool, i: nat, to: JobStatus, now: nat)
    requires Inv(s) && i < |s.jobs| && s.jobs[i].Active() && (to == Running || to == Paused)
    ensures Inv(SetStatus(s, i, to, now))
  {
    var s' := SetStatus(s, i, to, now);
    forall j | 0 <= j < |s'.jobs|
      ensures JobOk(s', j)
    {
      assert JobOk(s, j);
    }
    forall j, k | 0 <= j < |s'.jobs| && 0 <= k < |s'.jobs| && j != k
      ensures Apart(s', j, k)
    {
      assert Apart(s, j, k);
    }
    forall q | 0 <= q < |s'.printers| && s'.printers[q].busy
      ensures Occupied(s', q)
    {
      assert Occupied(s, q);
      var j :| 0 <= j < |s.jobs| && s.jobs[j].Active() && s.jobs[j].chosen == Some(q);
      assert s'.jobs[j].Active() && s'.jobs[j].chosen == Some(q);
    }
  }

  // ----- the other steps

  /** Nothing that the invariant looks at has changed, but for printers or types added. */
  lemma AddedOk(s: Spool, s': Spool)
    requires Inv(s)
    requires s'.jobs == s.jobs && s'.nextPid == s.nextPid && s'.nextId == s.nextId
    requires |s.printers| <= |s'.printers|
    requires forall k :: 0 <= k < |s.printers| ==>
               s'.printers[k].name == s.printers[k].name && s'.printers[k].busy == s.printers[k].busy
    requires forall k :: |s.printers| <= k < |s'.printers| ==> !s'.printers[k].busy
    ensures Inv(s')
  {
    forall j | 0 <= j < |s'.jobs|
      ensures JobOk(s', j)
    {
      assert JobOk(s, j);
      if s'.jobs[j].status != Queued {
        SameLookup(s.printers, s'.printers, s.printers[s'.jobs[j].chosen.value].name);
      }
    }
    forall j, k | 0 <= j < |s'.jobs| && 0 <= k < |s'.jobs| && j != k
      ensures Apart(s', j, k)
    {
      assert Apart(s, j, k);
    }
    forall q | 0 <= q < |s'.printers| && s'.printers[q].busy
      ensures Occupied(s', q)
    {
      assert Occupied(s, q);
    }
  }

  lemma EnqueueOk(s: Spool, job: Job)
    requires Inv(s) && job.status == Queued && job.pgid == 0 && job.id == s.nextId
    ensures Inv(s.(jobs := s.jobs + [job], nextId := s.nextId + 1))
  {
    var s' := s.(jobs := s.jobs + [job], nextId := s.nextId + 1);
    forall j | 0 <= j < |s'.jobs|
      ensures JobOk(s', j)
    {
      if j < |s.jobs| {
        assert JobOk(s, j);
      }
    }
    forall j, k | 0 <= j < |s'.jobs| && 0 <= k < |s'.jobs| && j != k
      ensures Apart(s', j, k)
    {
      if j < |s.jobs| && k < |s.jobs| {
        assert Apart(s, j, k);
      } else if j < |s.jobs| {
        assert JobOk(s, j);
      }
    }
    forall q | 0 <= q < |s'.printers| && s'.printers[q].busy
      ensures Occupied(s', q)
    {
      assert Occupied(s, q);
      var j :| 0 <= j < |s.jobs| && s.jobs[j].Active() && s.jobs[j].chosen == Some(q);
      assert s'.jobs[j] == s.jobs[j];
    }
  }

  /** Where the jobs that stay were before. */
  lemma {:induction false} WhoStays(jobs: seq<Job>, now: nat) returns (from: seq<nat>)
    ensures |from| == |RemoveJobs(jobs, now)|
    ensures forall k :: 0 <= k < |from| ==> from[k] < |jobs| && RemoveJobs(jobs, now)[k] == jobs[from[k]]
    ensures forall k, l :: 0 <= k < l < |from| ==> from[k] < from[l]
  {
    hide Kept;
    if jobs == [] {
      from := [];
    } else {
      var rest := WhoStays(jobs[1..], now);
      var moved := seq(|rest|, k requires 0 <= k < |rest| => rest[k] + 1);
      from := if Kept(jobs[0], now) then [0] + moved else moved;
    }
  }

  /** Every job that is to be kept stays. */
  lemma {:induction false} Stays(jobs: seq<Job>, now: nat, i: nat) returns (k: nat)
    requires i < |jobs| && Kept(jobs[i], now)
    ensures k < |RemoveJobs(jobs, now)| && RemoveJobs(jobs, now)[k] == jobs[i]
  {
    hide Kept;
    if i == 0 {
      k := 0;
    } else {
      k := Stays(jobs[1..], now, i - 1);
      k := if Kept(jobs[0], now) then k + 1 else k;
    }
  }

  lemma RemoveOk(s: Spool, now: nat)
    requires Inv(s)
    ensures Inv(s.(jobs := RemoveJobs(s.jobs, now)))
  {
    var s' := s.(jobs := RemoveJobs(s.jobs, now));
    var from := WhoStays(s.jobs, now);
    forall j | 0 <= j < |s'.jobs|
      ensures JobOk(s', j)
    {
      assert JobOk(s, from[j]);
    }
    forall j, k | 0 <= j < |s'.jobs| && 0 <= k < |s'.jobs| && j != k
      ensures Apart(s', j, k)
    {
      assert Apart(s, from[j], from[k]);
    }
    forall q | 0 <= q < |s'.printers| && s'.printers[q].busy
      ensures Occupied(s', q)
    {
      assert Occupied(s, q);
      var i :| 0 <= i < |s.jobs| && s.jobs[i].Active() && s.jobs[i].chosen == Some(q);
      var j := Stays(s.jobs, now, i);
    }
  }
}
