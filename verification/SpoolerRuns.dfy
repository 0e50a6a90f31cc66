/** What holds of the spooler after every sequence of commands and reports. */
module SpoolerRuns {
  import opened Options
  import opened Conversions
  import opened Spooler

  // ----- printers and jobs

  /** The report is one that the process of an active job can make. */
  predicate FromActive(s: Spool, pid: nat) {
    pid != 0 && match GetJobByPid(s.jobs, pid) case None => false case Some(i) => s.jobs[i].Active()
  }

  /** Processes report their end once; a paused job reports that it goes on before it reports
      success. */
  predicate Plausible(s: Spool, e: Event) {
    match e
    case Exited(pid) => FromActive(s, pid) && s.jobs[GetJobByPid(s.jobs, pid).value].status == Running
    case Failed(pid) => FromActive(s, pid)
    case Killed(pid) => FromActive(s, pid)
    case _ => true
  }

  lemma FinishOk(s: Spool, i: nat, from: set<JobStatus>, to: JobStatus, now: nat)
    requires Inv(s) && i < |s.jobs| && s.jobs[i].Active() && s.jobs[i].status in from
    requires to == Completed || to == Aborted
    ensures Inv(Finish(s, i, from, to, now))
  {
    hide Inv, FreePrinter;
    ReleaseOk(s, i, to, now);
    var s1 := SetStatus(s, i, to, now);
    RunJobsOk(FreePrinter(s1, s1.printers[s.jobs[i].chosen.value].name), 0, now);
  }

  lemma StepOk(s: Spool, e: Event, now: nat)
    requires Inv(s) && Plausible(s, e)
    ensures Inv(Step(s, e, now))
  {
    hide Inv, Finish, TryJob, RunJobsFrom, RemoveJobs, WithType, WithConversion, Defined;
    var s' := Step(s, e, now);
    match e {
      case DeclareType(_) => AddedOk(s, s');
      case DeclareConversion(_, _) => AddedOk(s, s');
      case NewPrinter(_, _) => AddedOk(s, s');
      case Enable(_) => AddedOk(s, s');
      case Disable(_) => AddedOk(s, s');
      case Print(fileName, fileType, eligible) =>
        if s' != s {
          var job := Job(s.nextId, Queued, 0, fileName, fileType, eligible, None, now);
          EnqueueOk(s, job);
          TryJobOk(s.(jobs := s.jobs + [job], nextId := s.nextId + 1), |s.jobs|, now);
        }
      case Tick =>
        RunJobsOk(s, 0, now);
        RemoveOk(RunJobs(s, now), now);
      case Exited(pid) => FinishOk(s, GetJobByPid(s.jobs, pid).value, {Running}, Completed, now);
      case Failed(pid) => FinishOk(s, GetJobByPid(s.jobs, pid).value, {Running, Paused}, Aborted, now);
      case Killed(pid) => FinishOk(s, GetJobByPid(s.jobs, pid).value, {Running, Paused}, Aborted, now);
      case Stopped(pid) =>
        if s' != s {
          SwitchOk(s, GetJobByPid(s.jobs, pid).value, Paused, now);
        }
      case Continued(pid) =>
        if s' != s {
          SwitchOk(s, GetJobByPid(s.jobs, pid).value, Running, now);
        }
    }
  }

  ghost predicate Happens(s: Spool, es: seq<(Event, nat)>)
    decreases |es|
  {
    es == [] || (Plausible(s, es[0].0) && Happens(Step(s, es[0].0, es[0].1), es[1..]))
  }

  function After(s: Spool, es: seq<(Event, nat)>): Spool
    decreases |es|
  {
    if es == [] then s else After(Step(s, es[0].0, es[0].1), es[1..])
  }

  lemma {:induction false} RunsOk(s: Spool, es: seq<(Event, nat)>)
    requires Inv(s) && Happens(s, es)
    ensures Inv(After(s, es))
    decreases |es|
  {
    if es != [] {
      StepOk(s, es[0].0, es[0].1);
      RunsOk(Step(s, es[0].0, es[0].1), es[1..]);
    }
  }

  predicate Has(s: Spool, i: nat, p: nat)
    requires i < |s.jobs|
  {
    s.jobs[i].Active() && s.jobs[i].chosen == Some(p)
  }

  /** At the end of every run a printer is busy exactly when some running or paused job has
      it, and then only one has. */
  lemma BusyMeansOneJob(es: seq<(Event, nat)>, p: nat)
    requires Happens(EMPTY, es)
    requires p < |After(EMPTY, es).printers|
    ensures var s := After(EMPTY, es);
            && (s.printers[p].busy <==> Occupied(s, p))
            && forall i, j :: 0 <= i < |s.jobs| && 0 <= j < |s.jobs| && Has(s, i, p) && Has(s, j, p) ==> i == j
  {
    RunsOk(EMPTY, es);
    var s := After(EMPTY, es);
    forall i, j | 0 <= i < |s.jobs| && 0 <= j < |s.jobs| && Has(s, i, p) && Has(s, j, p)
      ensures i == j
    {
      assert i != j ==> Apart(s, i, j);
    }
    forall i | 0 <= i < |s.jobs| && s.jobs[i].Active() && s.jobs[i].chosen == Some(p)
      ensures s.printers[p].busy
    {
      assert JobOk(s, i);
    }
  }

  // ----- the one report that breaks this

  /** Starting jobs leaves jobs that are not queued alone, and a printer that becomes busy
      does so for a job that was queued. */
  lemma {:induction false} RunJobsFrame(s: Spool, i: nat, now: nat)
    requires i <= |s.jobs|
    ensures var s' := RunJobsFrom(s, i, now);
            && (forall j :: 0 <= j < |s.jobs| && s.jobs[j].status != Queued ==> s'.jobs[j] == s.jobs[j])
            && (forall p :: 0 <= p < |s.printers| && s'.printers[p].busy && !s.printers[p].busy ==>
                  exists j :: 0 <= j < |s.jobs| && s.jobs[j].status == Queued && Has(s', j, p))
            && (forall j :: 0 <= j < i ==> s'.jobs[j] == s.jobs[j])
    decreases |s.jobs| - i
  {
    hide TryJob;
    var s' := RunJobsFrom(s, i, now);
    if i < |s.jobs| {
      if s.jobs[i].status == Queued {
        var s1 := TryJob(s, i, now);
        TryJobFrame(s, i, now);
        RunJobsFrame(s1, i + 1, now);
        forall p | 0 <= p < |s.printers| && s'.printers[p].busy && !s.printers[p].busy
          ensures exists j :: 0 <= j < |s.jobs| && s.jobs[j].status == Queued && Has(s', j, p)
        {
          if s1.printers[p].busy {
            assert s'.jobs[i] == s1.jobs[i] && Has(s', i, p);
          } else {
            var j :| 0 <= j < |s1.jobs| && s1.jobs[j].status == Queued && Has(s', j, p);
            assert s.jobs[j].status == Queued;
          }
        }
      } else {
        RunJobsFrame(s, i + 1, now);
      }
    }
  }

  /** A report of success keeps the invariant if and only if the job is running: a paused
      one stays paused, but its printer is freed. */
  lemma SuccessWhilePaused(s: Spool, pid: nat, now: nat)
    requires Inv(s) && FromActive(s, pid)
    ensures Inv(Step(s, Exited(pid), now)) <==> s.jobs[GetJobByPid(s.jobs, pid).value].status == Running
  {
    var i := GetJobByPid(s.jobs, pid).value;
    if s.jobs[i].status == Running {
      StepOk(s, Exited(pid), now);
    } else {
      assert JobOk(s, i);
      var p := s.jobs[i].chosen.value;
      var s1 := FreePrinter(s, s.printers[p].name);
      var s' := Step(s, Exited(pid), now);
      assert s' == RunJobs(s1, now);
      assert !s1.printers[p].busy && s1.jobs == s.jobs;
      RunJobsFrame(s1, 0, now);
      assert s'.jobs[i] == s.jobs[i];
      if s'.printers[p].busy {
        var j :| 0 <= j < |s.jobs| && s.jobs[j].status == Queued && Has(s', j, p);
        assert !Apart(s', i, j);
      } else {
        assert !JobOk(s', i);
      }
    }
  }

  /** A type and a printer for it. */
  const SETUP: seq<(Event, nat)> := [(DeclareType("a"), 0), (NewPrinter("p", "a"), 0), (Enable("p"), 0)]

  lemma {:induction false} AfterMore(s: Spool, es: seq<(Event, nat)>, e: Event, now: nat)
    requires Happens(s, es) && Plausible(After(s, es), e)
    ensures Happens(s, es + [(e, now)]) && After(s, es + [(e, now)]) == Step(After(s, es), e, now)
    decreases |es|
  {
    hide Step, Plausible;
    if es == [] {
      assert es + [(e, now)] == [(e, now)];
      assert [(e, now)][1..] == [];
    } else {
      assert (es + [(e, now)])[1..] == es[1..] + [(e, now)];
      AfterMore(Step(s, es[0].0, es[0].1), es[1..], e, now);
    }
  }

  lemma SetUp()
    ensures Happens(EMPTY, SETUP)
    ensures After(EMPTY, SETUP) == Spool([FileType("a", [])], [Printer("p", "a", true, false)], [], 0, 1)
  {
    hide Step, Happens, After;
    var none: seq<(Event, nat)> := [];
    NothingYet();
    SetUpSteps();
    var es1 := none + [(DeclareType("a"), 0)];
    AfterMore(EMPTY, none, DeclareType("a"), 0);
    var es2 := es1 + [(NewPrinter("p", "a"), 0)];
    AfterMore(EMPTY, es1, NewPrinter("p", "a"), 0);
    AfterMore(EMPTY, es2, Enable("p"), 0);
    assert SETUP == es2 + [(Enable("p"), 0)];
  }

  lemma NothingYet()
    ensures Happens(EMPTY, []) && After(EMPTY, []) == EMPTY
  {
  }

  lemma SetUpSteps()
    ensures var s1 := Spool([FileType("a", [])], [], [], 0, 1);
            var s2 := s1.(printers := [Printer("p", "a", false, false)]);
            && Step(EMPTY, DeclareType("a"), 0) == s1
            && Step(s1, NewPrinter("p", "a"), 0) == s2
            && Step(s2, Enable("p"), 0) == s1.(printers := [Printer("p", "a", true, false)])
  {
    var types, printers := [FileType("a", [])], [Printer("p", "a", false, false)];
    assert WithType([], "a") == types;
    assert types[0].name == "a" && Defined(types, "a");
    assert printers[0].name == "p" && GetPrinter(printers, "p") == Some(0);
  }

  /** A job is printed, its process stops, and then reports success: the run so far is a
      plausible one, and the report breaks the invariant. */
  lemma SuccessWhilePausedHappens(now: nat)
    ensures var es := SETUP + [(Print("f", "a", {0}), 0)] + [(Stopped(1), 0)];
            && Happens(EMPTY, es) && FromActive(After(EMPTY, es), 1)
            && !Inv(Step(After(EMPTY, es), Exited(1), now))
  {
    hide Inv, Finish, RunJobsFrom, Happens, After;
    SetUp();
    var es := SETUP + [(Print("f", "a", {0}), 0)];
    AfterMore(EMPTY, SETUP, Print("f", "a", {0}), 0);
    Printed();
    AfterMore(EMPTY, es, Stopped(1), 0);
    RunsOk(EMPTY, es + [(Stopped(1), 0)]);
    SuccessWhilePaused(After(EMPTY, es + [(Stopped(1), 0)]), 1, now);
  }

  lemma Printed()
    ensures var s := Spool([FileType("a", [])], [Printer("p", "a", true, false)], [], 0, 1);
            Step(s, Print("f", "a", {0}), 0) ==
              Spool(s.types, [Printer("p", "a", true, true)], [Job(0, Running, 1, "f", "a", {0}, Some(0), 0)], 1, 2)
  {
    hide Search, RunJobsFrom, Finish;
    var s := Spool([FileType("a", [])], [Printer("p", "a", true, false)], [], 0, 1);
    assert s.types[0].name == "a" && s.printers[0].name == "p";
    var job := Job(0, Queued, 0, "f", "a", {0}, None, 0);
    assert ReadyFor(0, s.printers[0], job);
    var s1 := s.(jobs := [job], nextId := 1);
    assert GetEligiblePrinter(s1, job) == Some(0);
    assert GetPrinter(s1.printers, "p") == Some(0);
  }

  // ----- no job is passed over

  /** Only the first printer of a name is ever enabled: `enablePrinter` looks printers up by
      name, and new ones are disabled. */
  ghost predicate FirstEnabled(printers: seq<Printer>) {
    forall k {:trigger printers[k].enabled} :: 0 <= k < |printers| && printers[k].enabled ==>
        GetPrinter(printers, printers[k].name) == Some(k)
  }

  ghost predicate TypesDefined(s: Spool) {
    forall i :: 0 <= i < |s.jobs| ==> Defined(s.types, s.jobs[i].fileType)
  }

  ghost predicate Sane(s: Spool) {
    FirstEnabled(s.printers) && TypesDefined(s)
  }

  /** Flags other than enabled may change, and disabled printers may be added. */
  lemma EnabledKept(printers: seq<Printer>, printers': seq<Printer>)
    requires FirstEnabled(printers) && |printers| <= |printers'|
    requires forall k :: 0 <= k < |printers| ==> printers'[k].name == printers[k].name
    requires forall k :: 0 <= k < |printers'| && printers'[k].enabled ==> k < |printers| && printers[k].enabled
    ensures FirstEnabled(printers')
  {
    forall k | 0 <= k < |printers'| && printers'[k].enabled
      ensures GetPrinter(printers', printers'[k].name) == Some(k)
    {
      SameLookup(printers, printers', printers[k].name);
    }
  }

  lemma EnablingFirst(s: Spool, name: string)
    requires FirstEnabled(s.printers)
    ensures FirstEnabled(SetEnabled(s, name, true).printers)
  {
    var printers := s.printers;
    var printers' := SetEnabled(s, name, true).printers;
    if GetPrinter(printers, name).Some? {
      LookupAgain(printers, name);
      forall k | 0 <= k < |printers'| && printers'[k].enabled
        ensures GetPrinter(printers', printers'[k].name) == Some(k)
      {
        SameLookup(printers, printers', printers[k].name);
      }
    }
  }

  /** Jobs come from jobs of the same type, types are only added, and printers as above. */
  lemma SaneKept(s: Spool, s': Spool, from: seq<nat>)
    requires Sane(s) && |from| == |s'.jobs|
    requires forall name :: Defined(s.types, name) ==> Defined(s'.types, name)
    requires forall j :: 0 <= j < |from| ==> from[j] < |s.jobs| && s'.jobs[j].fileType == s.jobs[from[j]].fileType
    requires |s.printers| <= |s'.printers| && forall k :: 0 <= k < |s.printers| ==>
               s'.printers[k].name == s.printers[k].name
    requires forall k :: 0 <= k < |s'.printers| && s'.printers[k].enabled ==> k < |s.printers| && s.printers[k].enabled
    ensures Sane(s')
  {
    hide Defined;
    EnabledKept(s.printers, s'.printers);
    forall j | 0 <= j < |s'.jobs|
      ensures Defined(s'.types, s'.jobs[j].fileType)
    {
      assert Defined(s.types, s.jobs[from[j]].fileType);
    }
  }

  lemma SaneInPlace(s: Spool, s': Spool)
    requires Sane(s) && |s'.jobs| == |s.jobs|
    requires forall name :: Defined(s.types, name) ==> Defined(s'.types, name)
    requires forall j :: 0 <= j < |s.jobs| ==> s'.jobs[j].fileType == s.jobs[j].fileType
    requires |s.printers| <= |s'.printers| && forall k :: 0 <= k < |s.printers| ==>
               s'.printers[k].name == s.printers[k].name
    requires forall k :: 0 <= k < |s'.printers| && s'.printers[k].enabled ==> k < |s.printers| && s.printers[k].enabled
    ensures Sane(s')
  {
    SaneKept(s, s', seq(|s.jobs|, k requires 0 <= k => k));
  }

  lemma TrySane(s: Spool, i: nat, now: nat)
    requires Sane(s) && i < |s.jobs|
    ensures Sane(TryJob(s, i, now))
  {
    hide TryJob, Sane, Defined;
    TryJobFrame(s, i, now);
    SaneInPlace(s, TryJob(s, i, now));
  }

  lemma {:induction false} RunJobsSane(s: Spool, i: nat, now: nat)
    requires Sane(s) && i <= |s.jobs|
    ensures Sane(RunJobsFrom(s, i, now))
    decreases |s.jobs| - i
  {
    hide TryJob, Sane;
    if i < |s.jobs| {
      if s.jobs[i].status == Queued {
        TryJobFrame(s, i, now);
        TrySane(s, i, now);
        RunJobsSane(TryJob(s, i, now), i + 1, now);
      } else {
        RunJobsSane(s, i + 1, now);
      }
    }
  }

  lemma FinishSane(s: Spool, i: nat, from: set<JobStatus>, to: JobStatus, now: nat)
    requires Sane(s) && i < |s.jobs|
    ensures Sane(Finish(s, i, from, to, now))
  {
    hide Sane, RunJobsFrom, Defined;
    var s1 := if s.jobs[i].status in from then SetStatus(s, i, to, now) else s;
    SaneInPlace(s, s1);
    if s.jobs[i].chosen.Some? && s.jobs[i].chosen.value < |s1.printers| {
      var s2 := FreePrinter(s1, s1.printers[s.jobs[i].chosen.value].name);
      SaneInPlace(s1, s2);
      RunJobsSane(s2, 0, now);
    }
  }

  lemma SubmitSane(s: Spool, fileName: string, fileType: string, eligible: set<nat>, now: nat)
    requires Sane(s)
    ensures Sane(Submit(s, fileName, fileType, eligible, now))
  {
    hide TryJob, Defined;
    if Defined(s.types, fileType) && eligible != {} {
      var s1 := s.(jobs := s.jobs + [Job(s.nextId, Queued, 0, fileName, fileType, eligible, None, now)],
          nextId := s.nextId + 1);
      TrySane(s1, |s.jobs|, now);
    }
  }

  lemma TickSane(s: Spool, now: nat)
    requires Sane(s)
    ensures Sane(Step(s, Tick, now))
  {
    hide Sane, RunJobsFrom, Defined;
    RunJobsSane(s, 0, now);
    var s1 := RunJobs(s, now);
    var from := WhoStays(s1.jobs, now);
    SaneKept(s1, Step(s, Tick, now), from);
  }

  /** Declaring leaves all that is defined defined. */
  lemma StaysDefined(types: seq<FileType>, from: string, c: Conversion, name: string)
    requires Defined(types, name)
    ensures Defined(WithConversion(types, from, c), name) && Defined(WithType(types, from), name)
  {
    AppendIs(types, from, c, name);
    WithTypeIs(types, FileType(from, []), name);
  }

  lemma DeclareSane(s: Spool, types: seq<FileType>)
    requires Sane(s) && forall name :: Defined(s.types, name) ==> Defined(types, name)
    ensures Sane(s.(types := types))
  {
    hide Sane, Defined;
    SaneInPlace(s, s.(types := types));
  }

  lemma StepSane(s: Spool, e: Event, now: nat)
    requires Sane(s)
    ensures Sane(Step(s, e, now))
  {
    hide Sane, Finish, Submit, RunJobsFrom, RemoveJobs, WithType, WithConversion, Defined;
    var s' := Step(s, e, now);
    match e {
      case DeclareType(name) =>
        forall n | Defined(s.types, n)
          ensures Defined(WithType(s.types, name), n)
        {
          StaysDefined(s.types, name, To(0), n);
        }
        DeclareSane(s, WithType(s.types, name));
      case DeclareConversion(from, c) =>
        forall n | Defined(s.types, n)
          ensures Defined(WithConversion(s.types, from, c), n)
        {
          StaysDefined(s.types, from, c, n);
        }
        DeclareSane(s, WithConversion(s.types, from, c));
      case NewPrinter(_, _) => SaneInPlace(s, s');
      case Enable(name) => EnableSane(s, name);
      case Disable(_) => SaneInPlace(s, s');
      case Print(fileName, fileType, eligible) => SubmitSane(s, fileName, fileType, eligible, now);
      case Tick => TickSane(s, now);
      case Exited(pid) =>
        if GetJobByPid(s.jobs, pid).Some? {
          FinishSane(s, GetJobByPid(s.jobs, pid).value, {Running}, Completed, now);
        }
      case Failed(pid) =>
        if GetJobByPid(s.jobs, pid).Some? {
          FinishSane(s, GetJobByPid(s.jobs, pid).value, {Running, Paused}, Aborted, now);
        }
      case Killed(pid) =>
        if GetJobByPid(s.jobs, pid).Some? {
          FinishSane(s, GetJobByPid(s.jobs, pid).value, {Running, Paused}, Aborted, now);
        }
      case Stopped(_) => SaneInPlace(s, s');
      case Continued(_) => SaneInPlace(s, s');
    }
  }

  lemma EnableSane(s: Spool, name: string)
    requires Sane(s)
    ensures Sane(SetEnabled(s, name, true))
  {
    EnablingFirst(s, name);
  }

  /** After every sequence of commands and reports, whatever they are, only first printers of
      a name are enabled, and every job has a defined type. */
  lemma {:induction false} RunsSane(s: Spool, es: seq<(Event, nat)>)
    requires Sane(s)
    ensures Sane(After(s, es))
    decreases |es|
  {
    if es != [] {
      StepSane(s, es[0].0, es[0].1);
      RunsSane(Step(s, es[0].0, es[0].1), es[1..]);
    }
  }

  // ----- which printer is chosen

  /** An enabled, idle printer of the type of the file, which the user allowed. */
  predicate OwnIdle(s: Spool, job: Job, k: nat) {
    && k < |s.printers| && s.printers[k].enabled && k in job.eligible
    && !s.printers[k].busy && s.printers[k].kind == job.fileType
  }

  /** An enabled printer that a path of conversions leads to, and which the user allowed. */
  predicate Reached(s: Spool, job: Job, k: nat) {
    && k < |s.printers| && s.printers[k].enabled && k in job.eligible
    && Search(s.types, job.fileType, s.printers[k].kind, MAX_CONVERSIONS).Some?
  }

  /** An enabled printer of the type of the file, which the user allowed. */
  predicate Own(s: Spool, job: Job, k: nat) {
    k < |s.printers| && s.printers[k].enabled && k in job.eligible && s.printers[k].kind == job.fileType
  }

  ghost predicate FirstIdle(s: Spool, job: Job, k: nat) {
    OwnIdle(s, job, k) && forall j: nat :: j < k ==> !OwnIdle(s, job, j)
  }

  ghost predicate FirstReached(s: Spool, job: Job, k: nat) {
    Reached(s, job, k) && forall j: nat :: j < k ==> !Reached(s, job, j)
  }

  ghost predicate FirstOwn(s: Spool, job: Job, k: nat) {
    Own(s, job, k) && forall j: nat :: j < k ==> !Own(s, job, j)
  }

  ghost predicate NoneIdle(s: Spool, job: Job) {
    forall k: nat :: !OwnIdle(s, job, k)
  }

  ghost predicate NoneReached(s: Spool, job: Job) {
    forall k: nat :: !Reached(s, job, k)
  }

  /** The printer for a job: the first idle one of its own type; if there is none, the first
      that conversions lead to, idle or not; if there is none, the first of its own type. */
  lemma ChosenPrinter(s: Spool, job: Job)
    ensures forall k: nat :: GetEligiblePrinter(s, job) == Some(k) <==>
              Defined(s.types, job.fileType) &&
              (|| FirstIdle(s, job, k)
               || (NoneIdle(s, job) && FirstReached(s, job, k))
               || (NoneIdle(s, job) && NoneReached(s, job) && FirstOwn(s, job, k)))
    ensures GetEligiblePrinter(s, job) == None <==>
            !Defined(s.types, job.fileType) || (NoneReached(s, job) && forall k: nat :: !Own(s, job, k))
  {
    hide Search, Defined;
    var r := GetEligiblePrinter(s, job);
    assert forall k: nat :: k < |s.printers| ==> (ReadyFor(k, s.printers[k], job) <==> OwnIdle(s, job, k));
    assert forall k: nat :: k < |s.printers| ==> (Reaches(s.types, k, s.printers[k], job) <==> Reached(s, job, k));
    assert forall k: nat :: k < |s.printers| ==>
        (Allowed(k, s.printers[k], job) && s.printers[k].kind == job.fileType <==> Own(s, job, k));
    assert forall k: nat :: OwnIdle(s, job, k) ==> Own(s, job, k);
  }

  /** There is an idle printer of its own type for the job, or the first that conversions lead
      to is idle. */
  ghost predicate CanStart(s: Spool, job: Job) {
    || (exists k: nat :: OwnIdle(s, job, k))
    || (exists k: nat :: FirstReached(s, job, k) && !s.printers[k].busy)
  }

  /** Exactly then it starts when it is tried. */
  lemma StartsExactly(s: Spool, i: nat, now: nat)
    requires i < |s.jobs| && FirstEnabled(s.printers) && Defined(s.types, s.jobs[i].fileType)
    requires s.jobs[i].status == Queued
    ensures TryJob(s, i, now).jobs[i].status == if CanStart(s, s.jobs[i]) then Running else Queued
    ensures CanStart(s, s.jobs[i]) ==> TryJob(s, i, now).jobs[i].chosen == GetEligiblePrinter(s, s.jobs[i])
    ensures !CanStart(s, s.jobs[i]) ==> TryJob(s, i, now) == s
  {
    hide Search, Defined, CanStart, GetEligiblePrinter;
    var job := s.jobs[i];
    IdleChoice(s, job);
    var r := GetEligiblePrinter(s, job);
    if r.Some? {
      assert s.printers[r.value].enabled;
      assert GetPrinter(s.printers, s.printers[r.value].name) == r;
    }
  }

  /** What is chosen is enabled, and it is idle exactly if the job can start. */
  lemma IdleChoice(s: Spool, job: Job)
    requires Defined(s.types, job.fileType)
    ensures var r := GetEligiblePrinter(s, job);
            && (r.Some? ==> r.value < |s.printers| && s.printers[r.value].enabled)
            && (r.Some? && !s.printers[r.value].busy <==> CanStart(s, job))
  {
    hide Search, Defined, GetEligiblePrinter;
    ChosenPrinter(s, job);
    var r := GetEligiblePrinter(s, job);
    if k: nat :| OwnIdle(s, job, k) {
      var least := LeastIdle(s, job, k);
      assert r == Some(least);
    } else {
      assert NoneIdle(s, job);
      if k: nat :| FirstReached(s, job, k) {
        assert r == Some(k);
        assert forall j: nat :: FirstReached(s, job, j) ==> r == Some(j);
      } else {
        assert r.Some? ==> Own(s, job, r.value) && !OwnIdle(s, job, r.value);
      }
    }
  }

  lemma {:induction false} LeastIdle(s: Spool, job: Job, k: nat) returns (least: nat)
    requires OwnIdle(s, job, k)
    ensures FirstIdle(s, job, least)
    decreases k
  {
    if j: nat :| j < k && OwnIdle(s, job, j) {
      least := LeastIdle(s, job, j);
    } else {
      least := k;
    }
  }

  /** Job i waits although it can start. */
  ghost predicate PassedOver(s: Spool, i: nat)
    requires i < |s.jobs|
  {
    s.jobs[i].status == Queued && CanStart(s, s.jobs[i])
  }

  lemma TryJobServes(s: Spool, i: nat, now: nat)
    requires i < |s.jobs| && FirstEnabled(s.printers) && Defined(s.types, s.jobs[i].fileType)
    requires s.jobs[i].status == Queued
    ensures !PassedOver(TryJob(s, i, now), i)
  {
    hide TryJob, CanStart, Defined;
    StartsExactly(s, i, now);
  }

  /** Printers that become busy make nothing possible that was not. */
  lemma StillCannot(s: Spool, s': Spool, job: Job)
    requires s'.types == s.types && |s'.printers| == |s.printers|
    requires forall k :: 0 <= k < |s.printers| ==>
               s'.printers[k] == s.printers[k] || s'.printers[k] == s.printers[k].(busy := true)
    requires !CanStart(s, job)
    ensures !CanStart(s', job)
  {
    hide Search;
    assert forall k: nat :: Reached(s', job, k) <==> Reached(s, job, k);
    assert forall k: nat :: OwnIdle(s', job, k) ==> OwnIdle(s, job, k);
    assert forall k: nat :: FirstReached(s', job, k) ==> FirstReached(s, job, k) && k < |s.printers|;
  }

  lemma {:induction false} RunJobsServes(s: Spool, i: nat, now: nat)
    requires i <= |s.jobs| && Sane(s)
    requires forall j :: 0 <= j < i ==> !PassedOver(s, j)
    ensures forall j :: 0 <= j < |s.jobs| ==> !PassedOver(RunJobsFrom(s, i, now), j)
    decreases |s.jobs| - i
  {
    hide TryJob, CanStart;
    if i < |s.jobs| {
      if s.jobs[i].status == Queued {
        var s1 := TryJob(s, i, now);
        TryJobFrame(s, i, now);
        TryJobServes(s, i, now);
        TrySane(s, i, now);
        forall j | 0 <= j < i
          ensures !PassedOver(s1, j)
        {
          assert !PassedOver(s, j) && s1.jobs[j] == s.jobs[j];
          if s.jobs[j].status == Queued {
            StillCannot(s, s1, s.jobs[j]);
          }
        }
        RunJobsServes(s1, i + 1, now);
      } else {
        RunJobsServes(s, i + 1, now);
      }
    }
  }

  /** In every run: once `runJobs` has been through the jobs, none is passed over; nor is any
      after the round that follows a command. */
  lemma NoneIsPassedOver(es: seq<(Event, nat)>, now: nat, i: nat)
    ensures var s := RunJobs(After(EMPTY, es), now); i < |s.jobs| ==> !PassedOver(s, i)
    ensures var s := Step(After(EMPTY, es), Tick, now); i < |s.jobs| ==> !PassedOver(s, i)
  {
    RunsSane(EMPTY, es);
    var s0 := After(EMPTY, es);
    RunJobsServes(s0, 0, now);
    hide RunJobsFrom, CanStart;
    var s := RunJobs(s0, now);
    var from := WhoStays(s.jobs, now);
    var s' := Step(s0, Tick, now);
    if i < |s'.jobs| {
      assert s'.jobs[i] == s.jobs[from[i]] && !PassedOver(s, from[i]);
      if s'.jobs[i].status == Queued {
        StillCannot(s, s', s'.jobs[i]);
      }
    }
  }

  lemma FinishServes(s: Spool, i: nat, from: set<JobStatus>, to: JobStatus, now: nat, j: nat)
    requires Sane(s) && i < |s.jobs| && s.jobs[i].chosen.Some? && s.jobs[i].chosen.value < |s.printers|
    requires to != Queued
    ensures var s' := Finish(s, i, from, to, now); j < |s'.jobs| ==> !PassedOver(s', j)
  {
    hide RunJobsFrom, Defined, Sane;
    var s1 := if s.jobs[i].status in from then SetStatus(s, i, to, now) else s;
    SaneInPlace(s, s1);
    var s2 := FreePrinter(s1, s1.printers[s.jobs[i].chosen.value].name);
    SaneInPlace(s1, s2);
    RunJobsServes(s2, 0, now);
  }

  /** Nor is any after a report that a process has ended, which frees a printer. */
  lemma NoneIsPassedOverAfterEnd(es: seq<(Event, nat)>, e: Event, now: nat, j: nat)
    requires Happens(EMPTY, es) && Plausible(After(EMPTY, es), e) && (e.Exited? || e.Failed? || e.Killed?)
    ensures var s := Step(After(EMPTY, es), e, now); j < |s.jobs| ==> !PassedOver(s, j)
  {
    hide Sane, Inv, Finish, PassedOver, CanStart;
    RunsSane(EMPTY, es);
    RunsOk(EMPTY, es);
    var s := After(EMPTY, es);
    var i := GetJobByPid(s.jobs, e.pid).value;
    ReleaseOk(s, i, Aborted, now);
    match e {
      case Exited(_) => FinishServes(s, i, {Running}, Completed, now, j);
      case Failed(_) => FinishServes(s, i, {Running, Paused}, Aborted, now, j);
      case Killed(_) => FinishServes(s, i, {Running, Paused}, Aborted, now, j);
    }
  }

  // ----- jobs run where they can

  /** The printer of job i is in the user's set, and prints its type or one that a path of
      conversions leads to. */
  ghost predicate MatchOk(s: Spool, i: nat)
    requires i < |s.jobs|
  {
    var job := s.jobs[i];
    job.Active() ==>
      && job.chosen.Some? && job.chosen.value < |s.printers| && job.chosen.value in job.eligible
      && var kind := s.printers[job.chosen.value].kind;
         kind == job.fileType || Search(s.types, job.fileType, kind, MAX_CONVERSIONS).Some?
  }

  ghost predicate Matched(s: Spool) {
    forall i {:trigger MatchOk(s, i)} :: 0 <= i < |s.jobs| ==> MatchOk(s, i)
  }

  /** A job that starts gets an enabled printer; no path is sought if the types agree. */
  lemma StartsWell(s: Spool, i: nat, now: nat)
    requires i < |s.jobs| && s.jobs[i].status == Queued && FirstEnabled(s.printers)
    ensures var s' := TryJob(s, i, now);
            s'.jobs[i].status != Queued ==>
              && MatchOk(s', i) && s'.jobs[i].chosen.Some?
              && var p := s'.jobs[i].chosen.value;
                 && p < |s.printers| && s.printers[p].enabled && !s.printers[p].busy
                 && (s.printers[p].kind == s.jobs[i].fileType ==>
                     Search(s.types, s.jobs[i].fileType, s.printers[p].kind, MAX_CONVERSIONS) == None)
  {
    var k := GetEligiblePrinter(s, s.jobs[i]);
    if k.Some? {
      assert GetPrinter(s.printers, s.printers[k.value].name) == k;
    }
  }

  lemma TryMatched(s: Spool, i: nat, now: nat)
    requires Matched(s) && Sane(s) && i < |s.jobs| && s.jobs[i].status == Queued
    ensures Matched(TryJob(s, i, now))
  {
    hide TryJob;
    var s' := TryJob(s, i, now);
    StartsWell(s, i, now);
    TryJobFrame(s, i, now);
    forall j | 0 <= j < |s'.jobs|
      ensures MatchOk(s', j)
    {
      assert MatchOk(s, j);
    }
  }

  lemma {:induction false} RunJobsMatched(s: Spool, i: nat, now: nat)
    requires Matched(s) && Sane(s) && i <= |s.jobs|
    ensures Matched(RunJobsFrom(s, i, now))
    decreases |s.jobs| - i
  {
    hide TryJob, Matched, Sane;
    if i < |s.jobs| {
      if s.jobs[i].status == Queued {
        TryJobFrame(s, i, now);
        TryMatched(s, i, now);
        TrySane(s, i, now);
        RunJobsMatched(TryJob(s, i, now), i + 1, now);
      } else {
        RunJobsMatched(s, i + 1, now);
      }
    }
  }

  /** Active jobs come from active jobs with the same data, printers keep their kind, and
      conversions are only added. */
  lemma Carried(s: Spool, s': Spool, from: seq<nat>)
    requires Matched(s) && Grown(s.types, s'.types)
    requires |s.printers| <= |s'.printers| && forall k :: 0 <= k < |s.printers| ==>
               s'.printers[k].kind == s.printers[k].kind
    requires |from| == |s'.jobs|
    requires forall j :: 0 <= j < |from| && s'.jobs[j].Active() ==>
               && from[j] < |s.jobs|
               && var was := s.jobs[from[j]];
                  was.Active() && s'.jobs[j].chosen == was.chosen && s'.jobs[j].eligible == was.eligible
                      && s'.jobs[j].fileType == was.fileType
    ensures Matched(s')
  {
    forall j | 0 <= j < |s'.jobs|
      ensures MatchOk(s', j)
    {
      if s'.jobs[j].Active() {
        assert MatchOk(s, from[j]);
        var job := s'.jobs[j];
        var kind := s.printers[job.chosen.value].kind;
        if kind != job.fileType {
          PathsStay(s.types, s'.types, job.fileType, kind, MAX_CONVERSIONS);
        }
      }
    }
  }

  /** Jobs keep their places, and none becomes active. */
  lemma CarriedInPlace(s: Spool, s': Spool)
    requires Matched(s) && Grown(s.types, s'.types) && |s'.jobs| == |s.jobs|
    requires |s.printers| <= |s'.printers| && forall k :: 0 <= k < |s.printers| ==>
               s'.printers[k].kind == s.printers[k].kind
    requires forall j :: 0 <= j < |s.jobs| ==>
               s'.jobs[j] == s.jobs[j].(status := s'.jobs[j].status, changed := s'.jobs[j].changed)
    requires forall j :: 0 <= j < |s.jobs| ==> s'.jobs[j].Active() ==> s.jobs[j].Active()
    ensures Matched(s')
  {
    Carried(s, s', seq(|s.jobs|, k requires 0 <= k => k));
  }

  lemma FinishMatched(s: Spool, i: nat, from: set<JobStatus>, to: JobStatus, now: nat)
    requires Matched(s) && Sane(s) && i < |s.jobs| && !(to == Running || to == Paused)
    ensures Matched(Finish(s, i, from, to, now))
  {
    hide Matched, Search, RunJobsFrom, Grown, Sane, Defined;
    SelfGrown(s.types);
    var s1 := if s.jobs[i].status in from then SetStatus(s, i, to, now) else s;
    CarriedInPlace(s, s1);
    SaneInPlace(s, s1);
    if s.jobs[i].chosen.Some? && s.jobs[i].chosen.value < |s1.printers| {
      var s2 := FreePrinter(s1, s1.printers[s.jobs[i].chosen.value].name);
      CarriedInPlace(s1, s2);
      SaneInPlace(s1, s2);
      RunJobsMatched(s2, 0, now);
    }
  }

  lemma SubmitMatched(s: Spool, fileName: string, fileType: string, eligible: set<nat>, now: nat)
    requires Matched(s) && Sane(s)
    ensures Matched(Submit(s, fileName, fileType, eligible, now))
  {
    hide Matched, Search, TryJob, Defined;
    if Defined(s.types, fileType) && eligible != {} {
      var s1 := s.(jobs := s.jobs + [Job(s.nextId, Queued, 0, fileName, fileType, eligible, None, now)],
          nextId := s.nextId + 1);
      Carried(s, s1, seq(|s.jobs| + 1, k requires 0 <= k => k));
      TryMatched(s1, |s.jobs|, now);
    }
  }

  lemma TickMatched(s: Spool, now: nat)
    requires Matched(s) && Sane(s)
    ensures Matched(Step(s, Tick, now))
  {
    hide Matched, Search, RunJobsFrom, Sane;
    RunJobsMatched(s, 0, now);
    var s1 := RunJobs(s, now);
    var from := WhoStays(s1.jobs, now);
    Carried(s1, Step(s, Tick, now), from);
  }

  lemma StepMatched(s: Spool, e: Event, now: nat)
    requires Matched(s) && Sane(s)
    ensures Matched(Step(s, e, now))
  {
    hide Matched, Sane, Search, Finish, Submit, RunJobsFrom, RemoveJobs, Grown, WithType, WithConversion;
    var s' := Step(s, e, now);
    SelfGrown(s.types);
    match e {
      case DeclareType(name) =>
        DeclaringGrows(s.types, name, To(0));
        CarriedInPlace(s, s');
      case DeclareConversion(from, c) =>
        DeclaringGrows(s.types, from, c);
        CarriedInPlace(s, s');
      case NewPrinter(_, _) => CarriedInPlace(s, s');
      case Enable(_) => CarriedInPlace(s, s');
      case Disable(_) => CarriedInPlace(s, s');
      case Print(fileName, fileType, eligible) => SubmitMatched(s, fileName, fileType, eligible, now);
      case Tick => TickMatched(s, now);
      case Exited(pid) =>
        if GetJobByPid(s.jobs, pid).Some? {
          FinishMatched(s, GetJobByPid(s.jobs, pid).value, {Running}, Completed, now);
        }
      case Failed(pid) =>
        if GetJobByPid(s.jobs, pid).Some? {
          FinishMatched(s, GetJobByPid(s.jobs, pid).value, {Running, Paused}, Aborted, now);
        }
      case Killed(pid) =>
        if GetJobByPid(s.jobs, pid).Some? {
          FinishMatched(s, GetJobByPid(s.jobs, pid).value, {Running, Paused}, Aborted, now);
        }
      case Stopped(_) => CarriedInPlace(s, s');
      case Continued(_) => CarriedInPlace(s, s');
    }
  }

  lemma SelfGrown(types: seq<FileType>)
    ensures Grown(types, types)
  {
  }

  lemma {:induction false} RunsMatched(s: Spool, es: seq<(Event, nat)>)
    requires Matched(s) && Sane(s)
    ensures Matched(After(s, es))
    decreases |es|
  {
    if es != [] {
      StepMatched(s, es[0].0, es[0].1);
      StepSane(s, es[0].0, es[0].1);
      RunsMatched(Step(s, es[0].0, es[0].1), es[1..]);
    }
  }

  /** After every sequence of commands and reports every running or paused job has a printer
      that can print it, whatever was declared since it started. */
  lemma JobsMatched(es: seq<(Event, nat)>)
    ensures Matched(After(EMPTY, es))
  {
    RunsMatched(EMPTY, es);
  }
}
