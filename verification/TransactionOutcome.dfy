/** What becomes of the pending transactions once all of them are committed: every schedule
    ends, and all schedules in which no commit overlooks an abort end alike.
 */
module TransactionOutcome {
  import opened Transactions

  /** No commit or abort is under way. */
  ghost predicate Quiescent(s: State) {
    && Inv(s)
    && s.aborting == multiset{}
    && forall t :: 0 <= t < |s.txns| ==> s.txns[t].pc == Idle || s.txns[t].pc == Done
  }

  /** A step of the commit of a transaction that was pending in s0. */
  predicate CommitStep(s0: State, e: Event) {
    && Commits(e)
    && e.t < |s0.txns| && s0.txns[e.t].status == Pending
  }

  predicate CommitRun(s0: State, es: seq<Event>) {
    Runs(s0, es) && forall e :: e in es ==> CommitStep(s0, e)
  }

  ghost predicate Finished(s0: State, s: State) {
    |s.txns| == |s0.txns| && forall t :: 0 <= t < |s.txns| && s0.txns[t].status == Pending ==> s.txns[t].pc == Done
  }

  // ----- the state of affairs during such a run

  ghost predicate UnderWay(s0: State, s: State) {
    && Inv(s) && |s.txns| == |s0.txns|
    && forall t {:trigger Fair(s0, s, t)} :: 0 <= t < |s.txns| ==> Fair(s0, s, t)
  }

  ghost predicate Fair(s0: State, s: State, t: nat)
    requires t < |s.txns| == |s0.txns|
  {
    var x0, x := s0.txns[t], s.txns[t];
    && x.deps == x0.deps
    && (x0.status != Pending ==> x == x0 && (x.pc == Idle || x.pc == Done))
    && (x0.status == Pending ==> (x.status == Pending <==> x.pc != Done) && (x.pc == Done ==> x.status == x.verdict))
    && (x0.status == Pending && x.pc != Idle ==>
          && (forall j: nat :: (t, j) in s.overlooked ==> Is(s, t, j, Aborted))
          && (x.verdict == Committed ==>
                forall j: nat :: j < Passed(x) && LooksAt(s, t, j) ==> Is(s, t, j, Committed) || (t, j) in s.overlooked)
          && (x.verdict == Aborted ==> exists j: nat :: Is(s, t, j, Aborted) && (t, j) !in s.overlooked))
  }

  /** The commit of t is past its dependency j, which has this status. */
  ghost predicate Is(s: State, t: nat, j: nat, status: Status) {
    LooksAt(s, t, j) && j < Passed(s.txns[t]) && s.txns[s.txns[t].deps[j]].status == status
  }

  lemma StartsUnderWay(s0: State)
    requires Quiescent(s0)
    ensures UnderWay(s0, s0)
  {
    forall t | 0 <= t < |s0.txns|
      ensures Fair(s0, s0, t)
    {
      assert TxnOk(s0, t);
    }
  }

  /** What was found stays as it was. */
  lemma IsKept(s0: State, s: State, e: Event, t: nat, j: nat, status: Status)
    requires UnderWay(s0, s) && Enabled(s, e) && CommitStep(s0, e)
    requires status != Pending && Is(s, t, j, status)
    requires t < |s0.txns| && s0.txns[t].status == Pending && s.txns[t].pc != Idle
    ensures Is(Next(s, e), t, j, status)
  {
    var d := s.txns[t].deps[j];
    assert Fair(s0, s, d) && TxnOk(s, t) && Fair(s0, s, t);
  }

  lemma FairOther(s0: State, s: State, e: Event, t: nat)
    requires UnderWay(s0, s) && Enabled(s, e) && CommitStep(s0, e)
    requires t < |s.txns| && t != e.t
    ensures |Next(s, e).txns| == |s0.txns| && Fair(s0, Next(s, e), t)
  {
    var s' := Next(s, e);
    assert Fair(s0, s, t) && TxnOk(s, t);
    if s0.txns[t].status == Pending && s.txns[t].pc != Idle {
      forall j: nat, status | status != Pending && Is(s, t, j, status)
        ensures Is(s', t, j, status)
      {
        IsKept(s0, s, e, t, j, status);
      }
      assert forall j: nat :: (t, j) in s'.overlooked <==> (t, j) in s.overlooked;
    }
  }

  lemma FairSelf(s0: State, s: State, e: Event)
    requires UnderWay(s0, s) && Enabled(s, e) && CommitStep(s0, e)
    ensures |Next(s, e).txns| == |s0.txns| && Fair(s0, Next(s, e), e.t)
  {
    var s', t := Next(s, e), e.t;
    var x, x' := s.txns[t], s'.txns[t];
    assert Fair(s0, s, t) && TxnOk(s, t);
    if x.pc == Idle {
      assert forall j: nat :: (t, j) !in s.overlooked;
    } else {
      forall j: nat, status | status != Pending && Is(s, t, j, status)
        ensures Is(s', t, j, status)
      {
        IsKept(s0, s, e, t, j, status);
      }
      match e {
        case Read1(_) =>
          if x'.verdict == Aborted && x.verdict == Committed {
            assert Is(s', t, x.pc.i, Aborted) && (t, x.pc.i) !in s'.overlooked;
          }
        case Reread(_) =>
          if x'.verdict == Aborted && x.verdict == Committed {
            assert Is(s', t, x.pc.i, Aborted) && (t, x.pc.i) !in s'.overlooked;
          }
        case Read2(_) =>
        case Wake(_) =>
        case Write(_) =>
        case Begin(_) =>
      }
    }
  }

  lemma StepUnderWay(s0: State, s: State, e: Event)
    requires UnderWay(s0, s) && Enabled(s, e) && CommitStep(s0, e)
    ensures UnderWay(s0, Next(s, e))
  {
    hide Next, Enabled, Fair;
    InvStep(s, e);
    FairSelf(s0, s, e);
    forall t | 0 <= t < |Next(s, e).txns|
      ensures Fair(s0, Next(s, e), t)
    {
      if t != e.t {
        FairOther(s0, s, e, t);
      }
    }
  }

  lemma {:induction false} RunUnderWay(s0: State, s: State, es: seq<Event>)
    requires UnderWay(s0, s) && Runs(s, es)
    requires forall e :: e in es ==> CommitStep(s0, e)
    ensures UnderWay(s0, After(s, es))
    decreases |es|
  {
    if es != [] {
      assert es[0] in es;
      StepUnderWay(s0, s, es[0]);
      RunUnderWay(s0, Next(s, es[0]), es[1..]);
    }
  }

  // ----- every schedule ends

  /** Steps that the commit of x can still take. */
  function Work(x: Txn): nat {
    var left := if Passed(x) <= |x.deps| then 4 * (|x.deps| - Passed(x)) else 0;
    match x.pc
    case Idle => left + 2
    case First(_) => left + 1
    case Second(_) => left
    case Waiting(_) => if 1 <= left then left - 1 else 0
    case Recheck(_) => if 2 <= left then left - 2 else 0
    case Decide => 1
    case Done => 0
  }

  function TotalWork(txns: seq<Txn>): nat {
    if txns == [] then 0 else Work(txns[0]) + TotalWork(txns[1..])
  }

  lemma {:induction false} LessWork(txns: seq<Txn>, t: nat, x: Txn)
    requires t < |txns| && Work(x) < Work(txns[t])
    ensures TotalWork(txns[t := x]) < TotalWork(txns)
  {
    if t == 0 {
      assert txns[0 := x][1..] == txns[1..];
    } else {
      LessWork(txns[1..], t - 1, x);
      assert txns[t := x][1..] == txns[1..][t - 1 := x];
    }
  }

  /** A step of some commit. */
  predicate Commits(e: Event) {
    e.Begin? || e.Read1? || e.Read2? || e.Wake? || e.Reread? || e.Write?
  }

  /** A step of a commit or of an abort. */
  predicate CommitsOrAborts(e: Event) {
    Commits(e) || e.AbortTest? || e.AbortWrite?
  }

  function CommitCount(es: seq<Event>): nat {
    if es == [] then 0 else (if Commits(es[0]) then 1 else 0) + CommitCount(es[1..])
  }

  lemma StepWorks(s: State, e: Event)
    requires Inv(s) && Enabled(s, e) && Commits(e)
    ensures TotalWork(Next(s, e).txns) < TotalWork(s.txns)
  {
    assert TxnOk(s, e.t);
    var x' := Next(s, e).txns[e.t];
    assert Next(s, e).txns == s.txns[e.t := x'];
    LessWork(s.txns, e.t, x');
  }

  lemma {:induction false} SameWork(txns: seq<Txn>, t: nat, x: Txn)
    requires t < |txns| && Work(x) == Work(txns[t])
    ensures TotalWork(txns[t := x]) == TotalWork(txns)
  {
    if t == 0 {
      assert txns[0 := x][1..] == txns[1..];
    } else {
      SameWork(txns[1..], t - 1, x);
      assert txns[t := x][1..] == txns[1..][t - 1 := x];
    }
  }

  lemma AbortWorks(s: State, e: Event)
    requires Enabled(s, e) && (e.AbortTest? || e.AbortWrite?)
    ensures TotalWork(Next(s, e).txns) == TotalWork(s.txns)
  {
    if e.AbortWrite? {
      SameWork(s.txns, e.t, s.txns[e.t].(status := Aborted));
    }
  }

  /** In no schedule of commits and aborts do the commits take more steps than there is work
      at the start. */
  lemma {:induction false} SchedulesEnd(s: State, es: seq<Event>)
    requires Inv(s) && Runs(s, es) && forall e :: e in es ==> CommitsOrAborts(e)
    ensures CommitCount(es) + TotalWork(After(s, es).txns) <= TotalWork(s.txns)
    decreases |es|
  {
    hide Enabled, Next;
    if es != [] {
      assert es[0] in es;
      if Commits(es[0]) {
        StepWorks(s, es[0]);
      } else {
        AbortWorks(s, es[0]);
      }
      InvStep(s, es[0]);
      SchedulesEnd(Next(s, es[0]), es[1..]);
    }
  }

  /** In no reachable state, whatever was aborted, is there a cycle of commits that wait for
      each other: as long as the commit of t is not done, some commit of a transaction up to
      t can take a step. */
  lemma {:induction false} NoDeadlock(s: State, t: nat) returns (e: Event)
    requires Inv(s) && t < |s.txns| && s.txns[t].pc != Done
    ensures Commits(e) && e.t <= t && s.txns[e.t].pc != Done && Enabled(s, e)
    decreases t
  {
    assert TxnOk(s, t);
    var x := s.txns[t];
    match x.pc {
      case Idle => e := Begin(t);
      case First(_) => e := Read1(t);
      case Second(_) => e := Read2(t);
      case Recheck(_) => e := Reread(t);
      case Decide => e := Write(t);
      case Waiting(i) =>
        var d := x.deps[i];
        if s.txns[d].status == Pending {
          assert TxnOk(s, d);
          e := NoDeadlock(s, d);
        } else {
          e := Wake(t);
        }
    }
  }

  // ----- breaking off

  ghost predicate Quiet(es: seq<Event>, t: nat) {
    forall e :: e in es && Commits(e) ==> e.t != t
  }

  /** A commit that has decided does nothing but write. */
  lemma {:induction false} OnlyWrites(s: State, es: seq<Event>, t: nat)
    requires t < |s.txns| && s.txns[t].pc == Decide && Runs(s, es) && Write(t) !in es
    ensures Quiet(es, t) && t < |After(s, es).txns| && After(s, es).txns[t].pc == Decide
    ensures After(s, es).txns[t].verdict == s.txns[t].verdict
    decreases |es|
  {
    if es != [] {
      var s' := Next(s, es[0]);
      assert t < |s'.txns| && s'.txns[t].pc == Decide && s'.txns[t].verdict == s.txns[t].verdict;
      OnlyWrites(s', es[1..], t);
      assert forall e :: e in es ==> e == es[0] || e in es[1..];
    }
  }

  /** A commit whose first look at a dependency finds it aborted looks at no other, and waits for
      none: what it does next is to write that it has aborted. */
  lemma BreaksOff(s: State, es: seq<Event>, t: nat)
    requires Enabled(s, Read1(t)) && s.txns[s.txns[t].deps[s.txns[t].pc.i]].status == Aborted
    requires Runs(Next(s, Read1(t)), es) && Write(t) !in es
    ensures Quiet(es, t)
    ensures var s' := After(Next(s, Read1(t)), es);
            Enabled(s', Write(t)) && Next(s', Write(t)).txns[t].status == Aborted
  {
    OnlyWrites(Next(s, Read1(t)), es, t);
  }

  // ----- the outcome

  ghost predicate Grounded(s: State) {
    forall t :: 0 <= t < |s.txns| ==> Below(s.txns[t].deps, t)
  }

  /** What the dependencies alone decide: a pending transaction commits if all that it
      depends on do. */
  ghost function Fate(s: State, t: nat): Status
    requires Grounded(s) && t < |s.txns|
    decreases t
  {
    if s.txns[t].status != Pending then s.txns[t].status
    else if forall j :: 0 <= j < |s.txns[t].deps| ==> Fate(s, s.txns[t].deps[j]) == Committed then Committed
    else Aborted
  }

  lemma InvGrounded(s: State)
    requires Inv(s)
    ensures Grounded(s)
  {
    forall t | 0 <= t < |s.txns|
      ensures Below(s.txns[t].deps, t)
    {
      assert TxnOk(s, t);
    }
  }

  /** No commit that succeeded overlooked an abort. */
  ghost predicate Attentive(s0: State, s: State) {
    forall t: nat, j: nat :: t < |s0.txns| && s0.txns[t].status == Pending && (t, j) in s.overlooked ==>
      t < |s.txns| && s.txns[t].status != Committed
  }

  /** How a finished commit came out. */
  lemma Verdict(s0: State, s: State, t: nat)
    requires UnderWay(s0, s) && Finished(s0, s)
    requires t < |s.txns| && s0.txns[t].status == Pending
    ensures s.txns[t].deps == s0.txns[t].deps && forall j :: 0 <= j < |s.txns[t].deps| ==> s.txns[t].deps[j] < t
    ensures s.txns[t].status == Committed || s.txns[t].status == Aborted
    ensures s.txns[t].status == Committed <==>
              forall j: nat :: j < |s.txns[t].deps| ==>
                  s.txns[s.txns[t].deps[j]].status == Committed || (t, j) in s.overlooked
    ensures forall j: nat :: (t, j) in s.overlooked ==>
              j < |s.txns[t].deps| && s.txns[s.txns[t].deps[j]].status == Aborted
  {
    assert TxnOk(s, t) && Fair(s0, s, t);
    var x := s.txns[t];
    if x.verdict == Committed {
      forall j: nat | j < |x.deps|
        ensures s.txns[x.deps[j]].status == Committed || (t, j) in s.overlooked
      {
        assert LooksAt(s, t, j);
      }
    } else {
      var j: nat :| Is(s, t, j, Aborted) && (t, j) !in s.overlooked;
    }
    forall j: nat | (t, j) in s.overlooked
      ensures j < |x.deps| && s.txns[x.deps[j]].status == Aborted
    {
      assert Is(s, t, j, Aborted);
    }
  }

  lemma {:induction false} FateIs(s0: State, s: State, t: nat)
    requires Grounded(s0) && UnderWay(s0, s) && Finished(s0, s) && Attentive(s0, s)
    requires t < |s.txns|
    ensures s.txns[t].status == Fate(s0, t)
    decreases t
  {
    assert Fair(s0, s, t);
    if s0.txns[t].status == Pending {
      Verdict(s0, s, t);
      forall j | 0 <= j < |s0.txns[t].deps|
        ensures s.txns[s0.txns[t].deps[j]].status == Fate(s0, s0.txns[t].deps[j])
      {
        FateIs(s0, s, s0.txns[t].deps[j]);
      }
    }
  }

  /** From any quiescent state, every schedule of the commits that has run to its end leaves
      each transaction with the status that the dependencies decide, if and only if no
      successful commit overlooked an abort on the way. */
  lemma Outcome(s0: State, es: seq<Event>)
    requires Quiescent(s0) && CommitRun(s0, es) && Finished(s0, After(s0, es))
    ensures Grounded(s0) && |After(s0, es).txns| == |s0.txns|
    ensures (forall t :: 0 <= t < |s0.txns| ==> After(s0, es).txns[t].status == Fate(s0, t))
            <==> Attentive(s0, After(s0, es))
  {
    InvGrounded(s0);
    StartsUnderWay(s0);
    RunUnderWay(s0, s0, es);
    var s := After(s0, es);
    if Attentive(s0, s) {
      forall t | 0 <= t < |s0.txns|
        ensures s.txns[t].status == Fate(s0, t)
      {
        FateIs(s0, s, t);
      }
    } else {
      var t: nat, j: nat :| t < |s0.txns| && s0.txns[t].status == Pending && (t, j) in s.overlooked
          && s.txns[t].status == Committed;
      Verdict(s0, s, t);
      var d := s0.txns[t].deps[j];
      assert s.txns[d].status == Aborted;
      assert s.txns[d].status == Fate(s0, d) ==> Fate(s0, t) == Aborted;
    }
  }

  // ----- when nothing is overlooked, and that something can be

  /** If every commit reads each dependency in one go, all complete schedules agree. */
  lemma TightOutcome(s0: State, es: seq<Event>, t: nat)
    requires Quiescent(s0) && CommitRun(s0, es) && Finished(s0, After(s0, es)) && Tight(es)
    requires t < |s0.txns|
    ensures Grounded(s0) && |After(s0, es).txns| == |s0.txns|
    ensures After(s0, es).txns[t].status == Fate(s0, t)
  {
    TightOverlooksNothing(s0, es);
    forall u | 0 <= u < |s0.txns| && s0.txns[u].status == Pending
      ensures s0.txns[u].pc == Idle
    {
      assert TxnOk(s0, u);
    }
    Outcome(s0, es);
  }

  // ----- starts from which nothing can go wrong

  ghost predicate Depends(s: State, t: nat, status: Status)
    requires t < |s.txns| && Grounded(s)
  {
    exists j :: 0 <= j < |s.txns[t].deps| && s.txns[s.txns[t].deps[j]].status == status
  }

  /** A pending transaction that depends on a pending one which is bound to abort also depends
      on one that is aborted already. */
  ghost predicate Calm(s: State)
    requires Grounded(s)
  {
    forall t, j :: 0 <= t < |s.txns| && 0 <= j < |s.txns[t].deps| && s.txns[t].status == Pending
                   && s.txns[s.txns[t].deps[j]].status == Pending && Fate(s, s.txns[t].deps[j]) == Aborted ==>
      Depends(s, t, Aborted)
  }

  /** What a commit can overlook was pending at the start. */
  ghost predicate Late(s0: State, s: State, t: nat)
    requires t < |s.txns| == |s0.txns| && Inv(s)
  {
    var x := s.txns[t];
    s0.txns[t].status == Pending ==>
      && (forall j: nat :: (t, j) in s.overlooked ==> LooksAt(s, t, j) && s0.txns[x.deps[j]].status == Pending)
      && (x.pc.Second? && LooksAt(s, t, x.pc.i) ==> s0.txns[x.deps[x.pc.i]].status != Aborted)
  }

  lemma LateStep(s0: State, s: State, e: Event, t: nat)
    requires UnderWay(s0, s) && Enabled(s, e) && CommitStep(s0, e) && UnderWay(s0, Next(s, e))
    requires t < |s.txns| && Late(s0, s, t)
    ensures Late(s0, Next(s, e), t)
  {
    assert TxnOk(s, t) && Fair(s0, s, t);
    if e.t == t && s0.txns[t].status == Pending && (e.Read1? || e.Read2?) {
      assert Fair(s0, s, s.txns[t].deps[s.txns[t].pc.i]);
    }
  }

  lemma {:induction false} LateRun(s0: State, s: State, es: seq<Event>, t: nat)
    requires UnderWay(s0, s) && Runs(s, es) && forall e :: e in es ==> CommitStep(s0, e)
    requires t < |s.txns| && Late(s0, s, t)
    ensures UnderWay(s0, After(s, es)) && Late(s0, After(s, es), t)
    decreases |es|
  {
    hide Enabled, Next, UnderWay, Late;
    if es != [] {
      assert es[0] in es;
      StepUnderWay(s0, s, es[0]);
      KeepsCount(s0, s);
      KeepsCount(s0, Next(s, es[0]));
      LateStep(s0, s, es[0], t);
      LateRun(s0, Next(s, es[0]), es[1..], t);
    }
  }

  lemma KeepsCount(s0: State, s: State)
    requires UnderWay(s0, s)
    ensures Inv(s) && |s.txns| == |s0.txns|
  {
  }

  /** From a calm state every complete schedule ends as the dependencies decide. */
  lemma CalmOutcome(s0: State, es: seq<Event>, t: nat)
    requires Quiescent(s0) && CommitRun(s0, es) && Finished(s0, After(s0, es))
    requires Grounded(s0) && Calm(s0) && t < |s0.txns|
    ensures |After(s0, es).txns| == |s0.txns| && After(s0, es).txns[t].status == Fate(s0, t)
  {
    StartsUnderWay(s0);
    RunUnderWay(s0, s0, es);
    forall u: nat | u < |s0.txns|
      ensures Late(s0, After(s0, es), u)
    {
      assert TxnOk(s0, u);
      LateRun(s0, s0, es, u);
    }
    CalmFate(s0, After(s0, es), t);
  }

  lemma {:induction false} CalmFate(s0: State, s: State, t: nat)
    requires Grounded(s0) && Calm(s0) && UnderWay(s0, s) && Finished(s0, s)
    requires forall u: nat :: u < |s0.txns| ==> Late(s0, s, u)
    requires t < |s.txns|
    ensures s.txns[t].status == Fate(s0, t)
    decreases t
  {
    hide Calm;
    assert Fair(s0, s, t);
    if s0.txns[t].status == Pending {
      Verdict(s0, s, t);
      forall j | 0 <= j < |s0.txns[t].deps|
        ensures s.txns[s0.txns[t].deps[j]].status == Fate(s0, s0.txns[t].deps[j])
      {
        CalmFate(s0, s, s0.txns[t].deps[j]);
      }
      assert Late(s0, s, t);
      if Depends(s0, t, Aborted) {
        var j :| 0 <= j < |s0.txns[t].deps| && s0.txns[s0.txns[t].deps[j]].status == Aborted;
        assert Fate(s0, s0.txns[t].deps[j]) == Aborted;
      } else {
        forall j: nat
          ensures (t, j) !in s.overlooked
        {
          NothingLate(s0, s, t, j);
        }
      }
    }
  }

  lemma NothingLate(s0: State, s: State, t: nat, j: nat)
    requires Grounded(s0) && Calm(s0) && |s.txns| == |s0.txns| && Inv(s) && t < |s.txns| && Late(s0, s, t)
    requires s.txns[t].deps == s0.txns[t].deps && s0.txns[t].status == Pending && !Depends(s0, t, Aborted)
    requires (t, j) in s.overlooked ==> j < |s.txns[t].deps| && s.txns[s.txns[t].deps[j]].status == Aborted
    requires forall k :: 0 <= k < |s0.txns[t].deps| ==>
               s.txns[s0.txns[t].deps[k]].status == Fate(s0, s0.txns[t].deps[k])
    ensures (t, j) !in s.overlooked
  {
  }

  // ----- a schedule that goes wrong

  /** Three transactions: 2 depends on 1, and 1 on 0. */
  function Chain(status0: Status, x1: Txn, x2: Txn, overlooked: set<(nat, nat)>): State {
    State([Txn(status0, [], Idle, Committed), x1.(deps := [0]), x2.(deps := [1])], multiset{}, overlooked, {})
  }

  const ASKED: Txn := Txn(Pending, [], Idle, Committed)

  /** Otherwise they need not: transaction 0 is aborted, 1 aborts between the two reads of 2,
      and 2 commits. */
  lemma OverlookingHappens()
    ensures var s0 := Chain(Aborted, ASKED, ASKED, {});
            var es := [Begin(2), Read1(2), Begin(1)] + [Read1(1), Write(1), Read2(2), Write(2)];
            && Quiescent(s0) && CommitRun(s0, es) && Finished(s0, After(s0, es))
            && After(s0, es).txns[2].status == Committed
            && Grounded(s0) && Fate(s0, 2) == Aborted
  {
    hide Next, Enabled, Runs, After, Fate, Inv;
    var s0 := Chain(Aborted, ASKED, ASKED, {});
    ChainFate(s0);
    var s3 := Chain(Aborted, ASKED.(pc := First(0)), ASKED.(pc := Second(0)), {});
    TraceHead();
    TraceTail();
    var es, es' := [Begin(2), Read1(2), Begin(1)], [Read1(1), Write(1), Read2(2), Write(2)];
    RunOn(s0, es, es');
    assert forall e :: e in es + es' ==> e in es || e in es';
  }

  lemma ChainFate(s0: State)
    requires s0 == Chain(Aborted, ASKED, ASKED, {})
    ensures Quiescent(s0) && Grounded(s0) && Fate(s0, 2) == Aborted
  {
    assert TxnOk(s0, 0) && TxnOk(s0, 1) && TxnOk(s0, 2);
    InvGrounded(s0);
    assert Fate(s0, 1) == Aborted by { assert s0.txns[1].deps[0] == 0; }
    assert Fate(s0, 2) == Aborted by { assert s0.txns[2].deps[0] == 1; }
  }

  lemma TraceHead()
    ensures var s0, es := Chain(Aborted, ASKED, ASKED, {}), [Begin(2), Read1(2), Begin(1)];
            Runs(s0, es) && After(s0, es) == Chain(Aborted, ASKED.(pc := First(0)), ASKED.(pc := Second(0)), {})
  {
    var s0 := Chain(Aborted, ASKED, ASKED, {});
    var s1 := Chain(Aborted, ASKED, ASKED.(pc := First(0)), {});
    var s2 := Chain(Aborted, ASKED, ASKED.(pc := Second(0)), {});
    assert Next(s0, Begin(2)) == s1;
    assert Next(s1, Read1(2)) == s2;
    Unroll(s2, [Begin(1)], Begin(1), []);
    Unroll(s1, [Read1(2), Begin(1)], Read1(2), [Begin(1)]);
    Unroll(s0, [Begin(2), Read1(2), Begin(1)], Begin(2), [Read1(2), Begin(1)]);
  }

  lemma TraceTail()
    ensures var s3, es := Chain(Aborted, ASKED.(pc := First(0)), ASKED.(pc := Second(0)), {}),
            [Read1(1), Write(1), Read2(2), Write(2)];
            && Runs(s3, es)
            && After(s3, es) ==
                Chain(Aborted, Txn(Aborted, [0], Done, Aborted), Txn(Committed, [1], Done, Committed), {(2, 0)})
  {
    var s3 := Chain(Aborted, ASKED.(pc := First(0)), ASKED.(pc := Second(0)), {});
    var s4 := Chain(Aborted, Txn(Pending, [0], Decide, Aborted), ASKED.(pc := Second(0)), {});
    var s5 := Chain(Aborted, Txn(Aborted, [0], Done, Aborted), ASKED.(pc := Second(0)), {});
    var s6 := Chain(Aborted, Txn(Aborted, [0], Done, Aborted), ASKED.(pc := Decide), {(2, 0)});
    assert Next(s3, Read1(1)) == s4;
    assert Next(s4, Write(1)) == s5;
    assert Next(s5, Read2(2)) == s6;
    Unroll(s6, [Write(2)], Write(2), []);
    Unroll(s5, [Read2(2), Write(2)], Read2(2), [Write(2)]);
    Unroll(s4, [Write(1), Read2(2), Write(2)], Write(1), [Read2(2), Write(2)]);
    Unroll(s3, [Read1(1), Write(1), Read2(2), Write(2)], Read1(1), [Write(1), Read2(2), Write(2)]);
  }

  lemma {:induction false} RunOn(s: State, es: seq<Event>, es': seq<Event>)
    requires Runs(s, es) && Runs(After(s, es), es')
    ensures Runs(s, es + es') && After(s, es + es') == After(After(s, es), es')
    decreases |es|
  {
    hide Enabled, Next;
    if es == [] {
      assert es + es' == es';
    } else {
      RunOn(Next(s, es[0]), es[1..], es');
      Unroll(s, es + es', es[0], es[1..] + es');
    }
  }

  // ----- the fate of a transaction as reachability

  /** A chain of dependencies from t, through pending transactions, to an aborted one. */
  ghost predicate LeadsToAbort(s: State, t: nat, path: seq<nat>)
    decreases |path|
  {
    && t < |s.txns|
    && if path == [] then s.txns[t].status == Aborted
       else s.txns[t].status == Pending && path[0] in s.txns[t].deps && LeadsToAbort(s, path[0], path[1..])
  }

  /** A transaction commits if and only if no aborted one can be reached from it through
      pending dependencies. */
  lemma {:induction false} FateByReachability(s: State, t: nat)
    requires Grounded(s) && t < |s.txns|
    requires forall u :: 0 <= u < |s.txns| && s.txns[u].status != Pending ==>
               s.txns[u].status == Committed || s.txns[u].status == Aborted
    ensures Fate(s, t) == Committed <==> !exists path :: LeadsToAbort(s, t, path)
    ensures Fate(s, t) != Committed ==> Fate(s, t) == Aborted
    decreases t
  {
    var x := s.txns[t];
    if x.status == Aborted {
      var none: seq<nat> := [];
      assert LeadsToAbort(s, t, none);
      assert exists path :: LeadsToAbort(s, t, path);
    } else if x.status == Committed {
      assert forall path :: !LeadsToAbort(s, t, path);
    } else {
      forall j | 0 <= j < |x.deps|
        ensures Fate(s, x.deps[j]) == Committed <==> !exists path :: LeadsToAbort(s, x.deps[j], path)
      {
        FateByReachability(s, x.deps[j]);
      }
      if j :| 0 <= j < |x.deps| && Fate(s, x.deps[j]) != Committed {
        var path :| LeadsToAbort(s, x.deps[j], path);
        assert ([x.deps[j]] + path)[1..] == path;
        assert LeadsToAbort(s, t, [x.deps[j]] + path);
        assert exists path' :: LeadsToAbort(s, t, path');
      } else {
        forall path
          ensures !LeadsToAbort(s, t, path)
        {
          if path != [] && path[0] in x.deps {
            var j :| 0 <= j < |x.deps| && x.deps[j] == path[0];
            assert !LeadsToAbort(s, x.deps[j], path[1..]);
          }
        }
      }
    }
  }
}
