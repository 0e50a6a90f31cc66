/** The spooler as a program: its tables, its list of jobs, and the loops that walk them.
    Every method is tied to the function of `Conversions` or `Spooler` that it computes.
 */
module SpoolerProgram {
  import opened Integers
  import opened Options
  import opened Conversions
  import opened Spooler
  import opened SpoolerRuns

  /** What a child process reports about itself. */
  datatype Report = ExitedWith(code: nat) | StoppedBySignal | ContinuedBySignal | EndedBySignal

  /** The report of process pid does not make the handler follow a null pointer: it has no
      effect, or there is a job for it, which has a printer if the process has ended. */
  predicate Survives(s: Spool, pid: nat, report: Report) {
    match report
    case ExitedWith(code) => 1 < code || HasPrinter(s, pid)
    case EndedBySignal => HasPrinter(s, pid)
    case StoppedBySignal => Spooler.GetJobByPid(s.jobs, pid).Some?
    case ContinuedBySignal => Spooler.GetJobByPid(s.jobs, pid).Some?
  }

  predicate HasPrinter(s: Spool, pid: nat) {
    match Spooler.GetJobByPid(s.jobs, pid)
    case None => false
    case Some(i) => s.jobs[i].chosen.Some?
  }

  function Handled(s: Spool, pid: nat, report: Report, now: nat): Spool {
    match report
    case ExitedWith(code) => if code == 0 then Step(s, Exited(pid), now)
        else if code == 1 then Step(s, Failed(pid), now) else s
    case EndedBySignal => Step(s, Killed(pid), now)
    case StoppedBySignal => Step(s, Stopped(pid), now)
    case ContinuedBySignal => Step(s, Continued(pid), now)
  }

  /** In every run the handler survives the reports of all active jobs. */
  lemma HandlerSurvives(es: seq<(Event, nat)>, pid: nat, report: Report)
    requires Happens(EMPTY, es) && FromActive(After(EMPTY, es), pid)
    ensures Survives(After(EMPTY, es), pid, report)
  {
    RunsOk(EMPTY, es);
    var s := After(EMPTY, es);
    assert JobOk(s, Spooler.GetJobByPid(s.jobs, pid).value);
  }

  /** The bits of ANY_PRINTER. */
  const ANY_PRINTER: set<nat> := set k: nat | k < MAX_PRINTERS

  /** The printers that a list of names selects: all without a list, none if a name is
      unknown. */
  function Selected(printers: seq<Printer>, names: Option<seq<string>>): set<nat> {
    match names
    case None => ANY_PRINTER
    case Some(list) =>
      if exists k :: 0 <= k < |list| && GetPrinter(printers, list[k]).None? then {}
      else set k | 0 <= k < |list| && GetPrinter(printers, list[k]).Some? :: GetPrinter(printers, list[k]).value
  }

  predicate Known(printers: seq<Printer>, name: string) {
    exists k :: 0 <= k < |printers| && printers[k].name == name
  }

  /** Without a list all 32 bits are set.  With one, the first printers of the names in it are
      selected, and no other; but none at all if some name is that of no printer. */
  lemma SelectedExactly(printers: seq<Printer>, names: Option<seq<string>>, k: nat)
    ensures names.None? ==> (k in Selected(printers, names) <==> k < 32)
    ensures names.Some? ==>
              (k in Selected(printers, names) <==>
                 && (forall i :: 0 <= i < |names.value| ==> Known(printers, names.value[i]))
                 && k < |printers| && printers[k].name in names.value
                 && forall j :: 0 <= j < k ==> printers[j].name != printers[k].name)
  {
    if names.Some? {
      var list := names.value;
      forall i | 0 <= i < |list|
        ensures GetPrinter(printers, list[i]).Some? <==> Known(printers, list[i])
      {
        if Known(printers, list[i]) {
          var j :| 0 <= j < |printers| && printers[j].name == list[i];
        }
      }
      if k < |printers| && (forall j :: 0 <= j < k ==> printers[j].name != printers[k].name) {
        assert GetPrinter(printers, printers[k].name) == Some(k);
      }
    }
  }

  predicate Ascending(jobs: seq<Job>, bound: nat) {
    && (forall i, j :: 0 <= i < j < |jobs| ==> jobs[i].id < jobs[j].id)
    && forall i :: 0 <= i < |jobs| ==> jobs[i].id < bound
  }

  // ----- lookups by walking

  lemma {:induction false} RemoveJobsLast(jobs: seq<Job>, now: nat, i: nat)
    requires i < |jobs|
    ensures RemoveJobs(jobs[i..], now) ==
            (if Kept(jobs[i], now) then [jobs[i]] else []) + RemoveJobs(jobs[i + 1..], now)
  {
    assert jobs[i..][1..] == jobs[i + 1..];
  }

  lemma RemoveJobsNone(now: nat)
    ensures RemoveJobs([], now) == []
  {
  }

  /** With ascending ids, job i is the first of its id; without it they still ascend. */
  lemma AscendingWithout(jobs: seq<Job>, bound: nat, i: nat)
    requires Ascending(jobs, bound) && i < |jobs|
    ensures forall j :: 0 <= j < i ==> jobs[j].id != jobs[i].id
    ensures Ascending(jobs[..i] + jobs[i + 1..], bound)
  {
  }

  class Imprimer {
    var types: seq<FileType>
    var printers: seq<Printer>
    var jobs: seq<Job>
    var nextId: nat
    var nextPid: nat

    ghost predicate Valid()
      reads this
    {
      Closed(types) && |printers| <= MAX_PRINTERS && Ascending(jobs, nextId)
    }

    ghost function State(): Spool
      reads this
    {
      Spool(types, printers, jobs, nextId, nextPid)
    }

    constructor ()
      ensures Valid() && State() == EMPTY
    {
      types, printers, jobs, nextId, nextPid := [], [], [], 0, 1;
    }

    // ----- types.c and conversions.c

    method GetType(name: string) returns (k: Option<nat>)
      ensures k.Some? <==> Defined(types, name)
      ensures k.Some? ==> k.value < |types| && types[k.value].name == name
      ensures k.Some? ==> forall j :: 0 <= j < k.value ==> types[j].name != name
      ensures k.Some? ==> Edges(types, name) == types[k.value].conversions
    {
      var i := 0;
      while i < |types|
        invariant 0 <= i <= |types|
        invariant forall j :: 0 <= j < i ==> types[j].name != name
      {
        if types[i].name == name {
          EdgesAt(types, name, i);
          return Some(i);
        }
        i := i + 1;
      }
      return None;
    }

    method NewExtension(name: string)
      requires Valid()
      modifies this`types
      ensures Valid() && State() == Step(old(State()), DeclareType(name), 0)
    {
      DeclaringCloses(types, name, To(0));
      if |types| < MAX_TYPES {
        types := types + [FileType(name, [])];
      }
    }

    method GetConversion(type1: string, type2: string) returns (c: Option<Conversion>)
      ensures c == if Defined(types, type1) then Direct(Edges(types, type1), type2) else None
    {
      var k := GetType(type1);
      if k.None? {
        return None;
      }
      var edges := types[k.value].conversions;
      var i := 0;
      while i < |edges|
        invariant 0 <= i <= |edges|
        invariant Direct(edges, type2) == Direct(edges[i..], type2)
      {
        if edges[i].target == type2 {
          return Some(edges[i]);
        }
        assert edges[i..][1..] == edges[i + 1..];
        i := i + 1;
      }
      return None;
    }

    method NewConversion(type1: string, c: Conversion)
      requires Valid()
      modifies this`types
      ensures Valid() && State() == Step(old(State()), DeclareConversion(type1, c), 0)
    {
      DeclaringCloses(types, type1, c);
      var k := GetType(type1);
      var target := GetType(c.target);
      if k.None? || target.None? {
        return;
      }
      var known := GetConversion(type1, c.target);
      if known.None? && |types[k.value].conversions| < MAX_CONVERSIONS {
        AppendAt(types, type1, c, k.value);
        types := types[k.value := types[k.value].(conversions := types[k.value].conversions + [c])];
      }
    }

    /** The search never asks for a type that is not defined. */
    method GetConversionPath(fileType: string, printerType: string, loops: int) returns (path: Option<seq<Conversion>>)
      requires Valid() && Defined(types, fileType)
      ensures path == Search(types, fileType, printerType, loops)
      decreases Positive(loops), if loops <= 0 then 0 else 2
    {
      var k := GetType(fileType);
      var edges := types[k.value].conversions;
      if edges == [] || fileType == printerType || loops <= 0 {
        return None;
      }
      var direct := GetConversion(fileType, printerType);
      if direct.Some? {
        return Some([direct.value]);
      }
      var left, i := loops, 0;
      while i < |edges|
        invariant 0 <= i <= |edges| && left == loops - i
        invariant Search(types, fileType, printerType, loops) == Try(types, edges, i, printerType, left)
      {
        left := left - 1;
        assert edges[i] == Edges(types, fileType)[i];
        var rest := GetConversionPath(edges[i].target, printerType, left);
        if rest.Some? {
          return Some([edges[i]] + rest.value);
        }
        i := i + 1;
      }
      return None;
    }

    // ----- printers.c

    method GetPrinter(name: string) returns (k: Option<nat>)
      ensures k == Spooler.GetPrinter(printers, name)
    {
      var i := 0;
      while i < |printers|
        invariant 0 <= i <= |printers|
        invariant forall j :: 0 <= j < i ==> printers[j].name != name
      {
        if printers[i].name == name {
          return Some(i);
        }
        i := i + 1;
      }
      return None;
    }

    method AddPrinter(name: string, kind: string)
      requires Valid()
      modifies this`printers
      ensures Valid() && State() == Step(old(State()), NewPrinter(name, kind), 0)
    {
      var known := GetType(kind);
      if known.Some? && |printers| < MAX_PRINTERS {
        printers := printers + [Printer(name, kind, false, false)];
      }
    }

    method GetPrinterSet(names: Option<seq<string>>) returns (eligible: set<nat>)
      ensures eligible == Selected(printers, names)
    {
      if names.None? {
        return ANY_PRINTER;
      }
      var list := names.value;
      eligible := {};
      var i := 0;
      while i < |list|
        invariant 0 <= i <= |list|
        invariant forall j :: 0 <= j < i ==> Spooler.GetPrinter(printers, list[j]).Some?
        invariant eligible ==
                  set j | 0 <= j < i && Spooler.GetPrinter(printers, list[j]).Some? ::
                    Spooler.GetPrinter(printers, list[j]).value
      {
        var k := GetPrinter(list[i]);
        if k.None? {
          return {};
        }
        eligible := eligible + {k.value};
        i := i + 1;
      }
    }

    method DisablePrinter(name: string)
      requires Valid()
      modifies this`printers
      ensures Valid() && State() == Step(old(State()), Disable(name), 0)
    {
      var k := GetPrinter(name);
      if k.Some? && printers[k.value].enabled {
        printers := printers[k.value := printers[k.value].(enabled := false)];
      }
    }

    method EnablePrinter(name: string)
      requires Valid()
      modifies this`printers
      ensures Valid() && State() == Step(old(State()), Enable(name), 0)
    {
      var k := GetPrinter(name);
      if k.Some? && !printers[k.value].enabled {
        printers := printers[k.value := printers[k.value].(enabled := true)];
      }
    }

    method BusyPrinter(name: string)
      modifies this`printers
      ensures var k := Spooler.GetPrinter(old(printers), name);
              printers == if k.None? then old(printers)
                  else old(printers)[k.value := old(printers)[k.value].(busy := true)]
    {
      var k := GetPrinter(name);
      if k.Some? {
        printers := printers[k.value := printers[k.value].(busy := true)];
      }
    }

    method FreePrinter(name: string)
      modifies this`printers
      ensures State() == Spooler.FreePrinter(old(State()), name) && |printers| == |old(printers)|
    {
      var k := GetPrinter(name);
      if k.Some? {
        printers := printers[k.value := printers[k.value].(busy := false)];
      }
    }

    method GetEligiblePrinter(job: Job) returns (k: Option<nat>)
      requires Valid()
      ensures k == Spooler.GetEligiblePrinter(State(), job) && (k.Some? ==> k.value < |printers|)
    {
      var known := GetType(job.fileType);
      if known.None? {
        return None;
      }
      var i := 0;
      while i < |printers|
        invariant 0 <= i <= |printers|
        invariant forall j :: 0 <= j < i ==> !ReadyFor(j, printers[j], job)
      {
        if printers[i].enabled && i in job.eligible && !printers[i].busy && printers[i].kind == job.fileType {
          return Some(i);
        }
        i := i + 1;
      }
      i := 0;
      while i < |printers|
        invariant 0 <= i <= |printers|
        invariant forall j :: 0 <= j < i ==> !Reaches(types, j, printers[j], job)
      {
        if printers[i].enabled && i in job.eligible {
          var path := GetConversionPath(job.fileType, printers[i].kind, MAX_CONVERSIONS);
          if path.Some? {
            return Some(i);
          }
        }
        i := i + 1;
      }
      i := 0;
      while i < |printers|
        invariant 0 <= i <= |printers|
        invariant forall j :: 0 <= j < i ==> !(Allowed(j, printers[j], job) && printers[j].kind == job.fileType)
      {
        if printers[i].enabled && i in job.eligible && printers[i].kind == job.fileType {
          return Some(i);
        }
        i := i + 1;
      }
      return None;
    }

    // ----- jobs.c

    method GetJobByPid(pid: nat) returns (k: Option<nat>)
      ensures k == Spooler.GetJobByPid(jobs, pid) && (k.Some? ==> k.value < |jobs|)
    {
      var i := 0;
      while i < |jobs|
        invariant 0 <= i <= |jobs|
        invariant forall j :: 0 <= j < i ==> jobs[j].pgid != pid
      {
        if jobs[i].pgid == pid {
          return Some(i);
        }
        i := i + 1;
      }
      return None;
    }

    /** The process of the job gets the next number. */
    method RunJob(i: nat, name: string, now: nat)
      requires Valid() && i < |jobs|
      modifies this`jobs, this`printers, this`nextPid
      ensures Valid() && State() == Spooler.RunJob(old(State()), i, name, now)
    {
      var p := GetPrinter(name);
      if p.None? || printers[p.value].busy {
        return;
      }
      jobs := jobs[i := jobs[i].(status := Running, chosen := p, changed := now)];
      BusyPrinter(name);
      jobs := jobs[i := jobs[i].(pgid := nextPid)];
      nextPid := nextPid + 1;
    }

    method RunJobs(now: nat)
      requires Valid()
      modifies this`jobs, this`printers, this`nextPid
      ensures Valid() && State() == Spooler.RunJobs(old(State()), now)
    {
      hide Closed, Ascending, Spooler.RunJob, Spooler.GetEligiblePrinter;
      var i := 0;
      while i < |jobs|
        invariant Valid() && 0 <= i <= |jobs|
        invariant RunJobsFrom(State(), i, now) == Spooler.RunJobs(old(State()), now)
      {
        if jobs[i].status == Queued {
          var k := GetEligiblePrinter(jobs[i]);
          if k.Some? {
            RunJob(i, printers[k.value].name, now);
          }
        }
        i := i + 1;
      }
    }

    /** Takes the first job of this id out of the list. */
    method RemoveJob(id: nat)
      modifies this`jobs
      ensures forall k :: (&& 0 <= k < |old(jobs)| && old(jobs)[k].id == id
                           && forall j :: 0 <= j < k ==> old(jobs)[j].id != id) ==>
                jobs == old(jobs)[..k] + old(jobs)[k + 1..]
      ensures (forall k :: 0 <= k < |old(jobs)| ==> old(jobs)[k].id != id) ==> jobs == old(jobs)
    {
      var i := 0;
      while i < |jobs|
        invariant 0 <= i <= |jobs| && jobs == old(jobs)
        invariant forall j :: 0 <= j < i ==> jobs[j].id != id
      {
        if jobs[i].id == id {
          jobs := jobs[..i] + jobs[i + 1..];
          return;
        }
        i := i + 1;
      }
    }

    method RemoveJobs(now: nat)
      requires Valid()
      modifies this`jobs
      ensures Valid() && jobs == Spooler.RemoveJobs(old(jobs), now)
    {
      hide Closed, Ascending, Spooler.RemoveJobs;
      var i := 0;
      assert jobs == jobs[0..];
      while i < |jobs|
        invariant Valid() && 0 <= i <= |jobs|
        invariant Spooler.RemoveJobs(old(jobs), now) == jobs[..i] + Spooler.RemoveJobs(jobs[i..], now)
        decreases |jobs| - i
      {
        RemoveJobsLast(jobs, now, i);
        var job := jobs[i];
        if (job.status == Completed || job.status == Aborted) && now - job.changed >= 60 {
          ghost var before := jobs;
          AscendingWithout(jobs, nextId, i);
          RemoveJob(job.id);
          assert jobs == before[..i] + before[i + 1..];
          assert jobs[..i] == before[..i] && jobs[i..] == before[i + 1..];
        } else {
          i := i + 1;
        }
      }
      assert jobs[..i] == jobs && jobs[i..] == [];
      RemoveJobsNone(now);
    }

    method SetJobStatus(i: nat, from: set<JobStatus>, to: JobStatus, now: nat)
      requires Valid() && i < |jobs|
      modifies this`jobs
      ensures Valid() && State() == if old(jobs)[i].status in from then SetStatus(old(State()), i, to, now)
              else old(State())
    {
      if jobs[i].status in from {
        jobs := jobs[i := jobs[i].(status := to, changed := now)];
      }
    }

    // ----- main.c

    method NewJob(fileName: string, fileType: string, eligible: set<nat>, now: nat) returns (i: nat)
      requires Valid()
      modifies this`jobs, this`nextId
      ensures Valid() && nextId == old(nextId) + 1 && i == |old(jobs)|
      ensures jobs == old(jobs) + [Job(old(nextId), Queued, 0, fileName, fileType, eligible, None, now)]
    {
      i := |jobs|;
      jobs := jobs + [Job(nextId, Queued, 0, fileName, fileType, eligible, None, now)];
      nextId := nextId + 1;
    }

    method Print(fileName: string, fileType: string, names: Option<seq<string>>, now: nat)
      requires Valid()
      modifies this
      ensures Valid()
      ensures State() == Step(old(State()), Event.Print(fileName, fileType, Selected(old(printers), names)), now)
    {
      hide Closed, Defined, Ascending, Spooler.RunJob, Spooler.GetEligiblePrinter, Selected;
      var known := GetType(fileType);
      if known.None? {
        return;
      }
      var eligible := GetPrinterSet(names);
      if eligible == {} {
        return;
      }
      var i := NewJob(fileName, fileType, eligible, now);
      var k := GetEligiblePrinter(jobs[i]);
      if k.Some? {
        RunJob(i, printers[k.value].name, now);
      }
    }

    /** What follows every command. */
    method AfterCommand(now: nat)
      requires Valid()
      modifies this
      ensures Valid() && State() == Step(old(State()), Tick, now)
    {
      RunJobs(now);
      RemoveJobs(now);
    }

    /** The process of job i has ended: its status changes if it may, its printer is freed,
        and what can be started is started. */
    method Conclude(i: nat, from: set<JobStatus>, to: JobStatus, now: nat)
      requires Valid() && i < |jobs|
      modifies this
      ensures Valid()
      ensures State() == Finish(old(State()), i, from, to, now)
    {
      hide Closed, Ascending, RunJobsFrom, Spooler.FreePrinter;
      SetJobStatus(i, from, to, now);
      if jobs[i].chosen.Some? && jobs[i].chosen.value < |printers| {
        FreePrinter(printers[jobs[i].chosen.value].name);
        RunJobs(now);
      }
    }

    /** The handler survives (ok) if the report has an effect only on a job that is known, and
        that has a printer if its process has ended; otherwise it follows a null pointer. */
    method PrintHandler(pid: nat, report: Report, now: nat) returns (ok: bool)
      requires Valid()
      modifies this
      ensures ok == Survives(old(State()), pid, report)
      ensures ok ==> Valid() && State() == Handled(old(State()), pid, report, now)
    {
      hide Closed, Ascending, Finish, SetStatus, Spooler.GetJobByPid;
      if report.ExitedWith? && report.code != 0 && report.code != 1 {
        return true;
      }
      var k := GetJobByPid(pid);
      if k.None? {
        return false;
      }
      ok := true;
      match report {
        case ExitedWith(code) =>
          ok := jobs[k.value].chosen.Some?;
          if code == 0 {
            Conclude(k.value, {Running}, Completed, now);
          } else {
            Conclude(k.value, {Running, Paused}, Aborted, now);
          }
        case EndedBySignal =>
          ok := jobs[k.value].chosen.Some?;
          Conclude(k.value, {Running, Paused}, Aborted, now);
        case StoppedBySignal => SetJobStatus(k.value, {Running}, Paused, now);
        case ContinuedBySignal => SetJobStatus(k.value, {Paused}, Running, now);
      }
    }
  }
}
